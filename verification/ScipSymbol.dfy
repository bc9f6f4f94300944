/**
 SCIP symbol strings (scip/symbol.go): printing with backtick escaping, and parsing back.
 Strings are sequences of bytes; no operation looks at anything but ASCII characters.
 */
module ScipSymbol {
  import opened Basics
  import opened Text

  const NAMESPACE := "/"
  const TYPE := "#"
  const TERM := "."
  const METHOD := "()."

  datatype Descriptor = Descriptor(name: string, suffix: string)

  datatype Symbol = Symbol(scheme: string, manager: string, pkg: string, version: string,
                           descriptors: seq<Descriptor>)

  predicate DefinedSuffix(suffix: string) {
    suffix == NAMESPACE || suffix == TYPE || suffix == TERM || suffix == METHOD
  }

  predicate NoSpace(s: string) { ' ' !in s }

  /** The symbols the format can carry: header fields without a space, the four defined suffixes. */
  ghost predicate WellFormed(s: Symbol) {
    && NoSpace(s.scheme) && NoSpace(s.manager) && NoSpace(s.pkg) && NoSpace(s.version)
    && AllDefined(s.descriptors)
  }

  ghost predicate AllDefined(ds: seq<Descriptor>) {
    forall i :: 0 <= i < |ds| ==> DefinedSuffix(ds[i].suffix)
  }

  // ----- printing

  predicate Special(c: char) { c in " /.#()`" }

  predicate NeedsEscaping(name: string) {
    exists i :: 0 <= i < |name| && Special(name[i])
  }

  /** Every backtick twice. */
  function Doubled(name: string): string {
    if name == "" then ""
    else (if name[0] == '`' then "``" else [name[0]]) + Doubled(name[1..])
  }

  function EscapeName(name: string): string {
    if NeedsEscaping(name) then "`" + Doubled(name) + "`" else name
  }

  function FormatDescriptor(d: Descriptor): string { EscapeName(d.name) + d.suffix }

  function FormatDescriptors(ds: seq<Descriptor>): string {
    if ds == [] then "" else FormatDescriptor(ds[0]) + FormatDescriptors(ds[1..])
  }

  function Header(s: Symbol): string {
    s.scheme + " " + s.manager + " " + s.pkg + " " + s.version + " "
  }

  function Formatted(s: Symbol): string {
    Header(s) + FormatDescriptors(s.descriptors)
  }

  /** A name is printed as it is exactly when it has none of the characters that mean something. */
  lemma PrintedAsIsIff(name: string)
    ensures EscapeName(name) == name <==>
      forall i :: 0 <= i < |name| ==> name[i] !in {' ', '/', '.', '#', '(', ')', '`'}
    ensures EscapeName(name) != name ==>
      && |EscapeName(name)| >= |name| + 2
      && EscapeName(name)[0] == '`' && EscapeName(name)[|EscapeName(name)| - 1] == '`'
  {
    DoubledLength(name);
    forall i | 0 <= i < |name| ensures Special(name[i]) <==> name[i] in {' ', '/', '.', '#', '(', ')', '`'} {}
  }

  lemma {:induction false} DoubledLength(name: string)
    ensures |Doubled(name)| >= |name|
  {
    if name != "" { DoubledLength(name[1..]); }
  }

  lemma Associates(a: string, b: string, c: string)
    ensures a + (b + c) == a + b + c
  {}

  lemma {:induction false} FormatDescriptorsSnoc(ds: seq<Descriptor>, d: Descriptor)
    ensures FormatDescriptors(ds + [d]) == FormatDescriptors(ds) + FormatDescriptor(d)
  {
    if ds == [] {
      assert ds + [d] == [d] && [d][1..] == [];
      assert FormatDescriptor(d) + "" == FormatDescriptor(d) == "" + FormatDescriptor(d);
    } else {
      assert (ds + [d])[1..] == ds[1..] + [d];
      FormatDescriptorsSnoc(ds[1..], d);
      Associates(FormatDescriptor(ds[0]), FormatDescriptors(ds[1..]), FormatDescriptor(d));
    }
  }

  method FormatTail(header: string, ds: seq<Descriptor>) returns (b: string)
    ensures b == header + FormatDescriptors(ds)
  {
    b := header;
    assert header + "" == header;
    for i := 0 to |ds|
      invariant b == header + FormatDescriptors(ds[..i])
    {
      FormatDescriptorsSnoc(ds[..i], ds[i]);
      assert ds[..i + 1] == ds[..i] + [ds[i]];
      Associates(header, FormatDescriptors(ds[..i]), FormatDescriptor(ds[i]));
      b := b + (EscapeName(ds[i].name) + ds[i].suffix);
    }
    assert ds[..|ds|] == ds;
  }

  method Format(s: Symbol) returns (b: string)
    ensures b == Formatted(s)
  {
    b := s.scheme + " " + s.manager + " " + s.pkg + " " + s.version + " ";
    b := FormatTail(b, s.descriptors);
  }

  // ----- parsing, on the text that is left

  predicate StartsMethod(r: string) { |r| > 2 && r[0] == '(' && r[1] == ')' && r[2] == '.' }

  predicate StartsSuffix(r: string) {
    r != "" && (r[0] == '/' || r[0] == '#' || r[0] == '.' || StartsMethod(r))
  }

  function TakeSuffix(r: string): Result<(string, string)> {
    if r == "" then Err
    else if r[0] == '/' then Ok((NAMESPACE, r[1..]))
    else if r[0] == '#' then Ok((TYPE, r[1..]))
    else if r[0] == '.' then Ok((TERM, r[1..]))
    else if StartsMethod(r) then Ok((METHOD, r[3..]))
    else Err
  }

  /** The text up to the closing backtick, doubled backticks read as one. */
  function Unquote(r: string): Result<(string, string)> {
    if r == "" then Err
    else if r[0] == '`' && (|r| == 1 || r[1] != '`') then Ok(("", r[1..]))
    else
      var skip := if r[0] == '`' then 2 else 1;
      match Unquote(r[skip..])
      case Err => Err
      case Ok((name, rest)) => Ok(([r[0]] + name, rest))
  }

  function PlainName(r: string): (res: (string, string))
    ensures r == res.0 + res.1
  {
    if r == "" || StartsSuffix(r) then ("", r)
    else var (name, rest) := PlainName(r[1..]); ([r[0]] + name, rest)
  }

  function TakeName(r: string): Result<(string, string)> {
    if r != "" && r[0] == '`' then Unquote(r[1..]) else Ok(PlainName(r))
  }

  function TakeDescriptor(r: string): Result<(Descriptor, string)> {
    match TakeName(r)
    case Err => Err
    case Ok((name, rest)) =>
      match TakeSuffix(rest)
      case Err => Err
      case Ok((suffix, rest')) => Ok((Descriptor(name, suffix), rest'))
  }

  lemma {:induction false} UnquoteShrinks(r: string)
    ensures Unquote(r).Ok? ==> |Unquote(r).value.1| < |r|
  {
    if r != "" && !(r[0] == '`' && (|r| == 1 || r[1] != '`')) {
      UnquoteShrinks(r[if r[0] == '`' then 2 else 1..]);
    }
  }

  lemma DescriptorShrinks(r: string)
    ensures TakeDescriptor(r).Ok? ==> |TakeDescriptor(r).value.1| < |r|
  {
    if r != "" && r[0] == '`' { UnquoteShrinks(r[1..]); }
  }

  function ParseDescriptors(r: string): Result<seq<Descriptor>>
    decreases |r|
  {
    if r == "" then Ok([])
    else
      DescriptorShrinks(r);
      match TakeDescriptor(r)
      case Err => Err
      case Ok((d, rest)) =>
        match ParseDescriptors(rest)
        case Err => Err
        case Ok(ds) => Ok([d] + ds)
  }

  /** Split at the first space. */
  function Cut(s: string): Option<(string, string)> {
    if s == "" then None
    else if s[0] == ' ' then Some(("", s[1..]))
    else match Cut(s[1..])
      case None => None
      case Some((a, b)) => Some(([s[0]] + a, b))
  }

  function Parsed(s: string): Result<Symbol> {
    match Cut(s)
    case None => Err
    case Some((scheme, s1)) =>
      match Cut(s1)
      case None => Err
      case Some((manager, s2)) =>
        match Cut(s2)
        case None => Err
        case Some((pkg, s3)) =>
          match Cut(s3)
          case None => Err
          case Some((version, rest)) =>
            match ParseDescriptors(rest)
            case Err => Err
            case Ok(ds) => Ok(Symbol(scheme, manager, pkg, version, ds))
  }

  // ----- a parse in progress: what is read so far, and the text that is left

  function UnquoteFrom(b: string, r: string): Result<(string, string)> {
    match Unquote(r)
    case Err => Err
    case Ok((name, rest)) => Ok((b + name, rest))
  }

  lemma UnquoteStep(b: string, r: string)
    requires r != "" && !(r[0] == '`' && (|r| == 1 || r[1] != '`'))
    ensures UnquoteFrom(b, r) == UnquoteFrom(b + [r[0]], r[if r[0] == '`' then 2 else 1..])
  {
    var u := Unquote(r[if r[0] == '`' then 2 else 1..]);
    if u.Ok? { assert b + ([r[0]] + u.value.0) == b + [r[0]] + u.value.0; }
  }

  function PlainFrom(b: string, r: string): (string, string) {
    (b + PlainName(r).0, PlainName(r).1)
  }

  lemma PlainStep(b: string, r: string)
    requires r != "" && !StartsSuffix(r)
    ensures PlainFrom(b, r) == PlainFrom(b + [r[0]], r[1..])
  {
    assert b + ([r[0]] + PlainName(r[1..]).0) == b + [r[0]] + PlainName(r[1..]).0;
  }

  function DescriptorsFrom(ds: seq<Descriptor>, r: string): Result<seq<Descriptor>> {
    match ParseDescriptors(r)
    case Err => Err
    case Ok(more) => Ok(ds + more)
  }

  lemma DescriptorsStep(ds: seq<Descriptor>, r: string)
    requires r != ""
    ensures DescriptorsFrom(ds, r) == match TakeDescriptor(r)
                                      case Err => Err
                                      case Ok((d, rest)) => DescriptorsFrom(ds + [d], rest)
  {
    if TakeDescriptor(r).Ok? {
      DescriptorShrinks(r);
      var (d, rest) := TakeDescriptor(r).value;
      var more := ParseDescriptors(rest);
      if more.Ok? { assert ds + ([d] + more.value) == ds + [d] + more.value; }
    }
  }

  // ----- the parser's methods, on indices into the whole string

  method ParseSuffix(s: string, i: nat) returns (r: Result<(string, nat)>)
    requires i <= |s|
    ensures TakeSuffix(s[i..]) == if r.Ok? && r.value.1 <= |s| then Ok((r.value.0, s[r.value.1..])) else Err
    ensures r.Ok? ==> i < r.value.1 <= |s|
  {
    if i >= |s| { return Err; }
    if s[i] == '/' { return Ok((NAMESPACE, i + 1)); }
    if s[i] == '#' { return Ok((TYPE, i + 1)); }
    if s[i] == '.' { return Ok((TERM, i + 1)); }
    if s[i] == '(' && i + 2 < |s| && s[i + 1] == ')' && s[i + 2] == '.' {
      assert s[i..][3..] == s[i + 3..];
      return Ok((METHOD, i + 3));
    }
    r := Err;
  }

  method ParseEscapedName(s: string, start: nat) returns (r: Result<(string, nat)>)
    requires start < |s| && s[start] == '`'
    ensures r.Ok? ==> start < r.value.1 <= |s|
    ensures Unquote(s[start + 1..]) == if r.Ok? && r.value.1 <= |s| then Ok((r.value.0, s[r.value.1..])) else Err
  {
    var i, b := start + 1, "";
    assert UnquoteFrom("", s[i..]) == Unquote(s[i..]) by {
      if Unquote(s[i..]).Ok? { assert "" + Unquote(s[i..]).value.0 == Unquote(s[i..]).value.0; }
    }
    while i < |s|
      invariant start < i <= |s|
      invariant Unquote(s[start + 1..]) == UnquoteFrom(b, s[i..])
    {
      if s[i] == '`' {
        if i + 1 < |s| && s[i + 1] == '`' {
          UnquoteStep(b, s[i..]);
          assert s[i..][2..] == s[i + 2..];
          b := b + "`";
          i := i + 2;
        } else {
          assert b + "" == b && s[i..][1..] == s[i + 1..];
          return Ok((b, i + 1));
        }
      } else {
        UnquoteStep(b, s[i..]);
        assert s[i..][1..] == s[i + 1..];
        b := b + [s[i]];
        i := i + 1;
      }
    }
    r := Err;
  }

  lemma PlainStepAt(s: string, i: nat, end: nat)
    requires i <= end < |s| && !StartsSuffix(s[end..])
    ensures PlainFrom(s[i..end], s[end..]) == PlainFrom(s[i..end + 1], s[end + 1..])
  {
    var read, left := s[i..end], s[end..];
    assert left[0] == s[end] && left[1..] == s[end + 1..] && read + [left[0]] == s[i..end + 1];
    PlainStep(read, left);
  }

  lemma PlainFromEmpty(s: string)
    ensures PlainFrom("", s) == PlainName(s)
  {
    assert "" + PlainName(s).0 == PlainName(s).0;
  }

  /** Everything up to the next suffix. */
  method ParsePlainName(s: string, i: nat) returns (end: nat)
    requires i <= |s|
    ensures i <= end <= |s| && PlainName(s[i..]) == (s[i..end], s[end..])
  {
    end := i;
    PlainFromEmpty(s[i..]);
    assert s[i..end] == "";
    while end < |s| && !StartsSuffix(s[end..])
      invariant i <= end <= |s|
      invariant PlainName(s[i..]) == PlainFrom(s[i..end], s[end..])
    {
      PlainStepAt(s, i, end);
      end := end + 1;
    }
    assert s[i..end] + "" == s[i..end];
  }

  method ParseOneDescriptor(s: string, i: nat) returns (r: Result<(Descriptor, nat)>)
    requires i <= |s|
    ensures r.Ok? ==> i < r.value.1 <= |s|
    ensures i < |s| ==>
      TakeDescriptor(s[i..]) == if r.Ok? && r.value.1 <= |s| then Ok((r.value.0, s[r.value.1..])) else Err
    ensures i == |s| ==> r.Err?
  {
    if i >= |s| { return Err; }
    var name, pos;
    if s[i] == '`' {
      var quoted := ParseEscapedName(s, i);
      assert s[i..][1..] == s[i + 1..];
      if quoted.Err? { return Err; }
      name, pos := quoted.value.0, quoted.value.1;
    } else {
      var end := ParsePlainName(s, i);
      name, pos := s[i..end], end;
    }
    assert TakeName(s[i..]) == Ok((name, s[pos..]));
    if pos >= |s| { return Err; }
    var suffix := ParseSuffix(s, pos);
    if suffix.Err? { return Err; }
    r := Ok((Descriptor(name, suffix.value.0), suffix.value.1));
  }

  method ParseDescriptorList(s: string) returns (r: Result<seq<Descriptor>>)
    ensures r == ParseDescriptors(s)
  {
    var i, result := 0, [];
    assert s[0..] == s;
    assert DescriptorsFrom([], s) == ParseDescriptors(s) by {
      if ParseDescriptors(s).Ok? { assert [] + ParseDescriptors(s).value == ParseDescriptors(s).value; }
    }
    while i < |s|
      invariant i <= |s|
      invariant ParseDescriptors(s) == DescriptorsFrom(result, s[i..])
      decreases |s| - i
    {
      DescriptorsStep(result, s[i..]);
      var one := ParseOneDescriptor(s, i);
      if one.Err? { return Err; }
      result := result + [one.value.0];
      i := one.value.1;
    }
    assert result + [] == result;
    r := Ok(result);
  }

  method ParseSymbol(s: string) returns (r: Result<Symbol>)
    ensures r == Parsed(s)
  {
    var scheme := Cut(s);
    if scheme.None? { return Err; }
    var manager := Cut(scheme.value.1);
    if manager.None? { return Err; }
    var pkg := Cut(manager.value.1);
    if pkg.None? { return Err; }
    var version := Cut(pkg.value.1);
    if version.None? { return Err; }
    var ds := ParseDescriptorList(version.value.1);
    if ds.Err? { return Err; }
    r := Ok(Symbol(scheme.value.0, manager.value.0, pkg.value.0, version.value.0, ds.value));
  }

  // ----- printer and parser undo each other

  /** A quoted name reads back, whatever follows the closing backtick, unless that is a backtick. */
  lemma {:induction false} UnquoteDoubled(name: string, rest: string)
    requires rest == "" || rest[0] != '`'
    ensures Unquote(Doubled(name) + "`" + rest) == Ok((name, rest))
  {
    var text := Doubled(name) + "`" + rest;
    if name == "" {
      assert text[1..] == rest;
    } else {
      UnquoteDoubled(name[1..], rest);
      var skip := if name[0] == '`' then 2 else 1;
      assert text[skip..] == Doubled(name[1..]) + "`" + rest;
      assert [name[0]] + name[1..] == name;
    }
  }

  /** A name without special characters ends exactly where a suffix begins. */
  lemma {:induction false} PlainNameStops(name: string, rest: string)
    requires !NeedsEscaping(name) && StartsSuffix(rest)
    ensures PlainName(name + rest) == (name, rest)
  {
    if name == "" {
      assert name + rest == rest;
    } else {
      assert !Special(name[0]);
      assert forall i :: 0 <= i < |name[1..]| ==> name[1..][i] == name[i + 1];
      PlainNameStops(name[1..], rest);
      assert (name + rest)[1..] == name[1..] + rest;
      assert [name[0]] + name[1..] == name;
    }
  }

  lemma SuffixRoundTrip(suffix: string, rest: string)
    requires DefinedSuffix(suffix)
    ensures StartsSuffix(suffix + rest) && TakeSuffix(suffix + rest) == Ok((suffix, rest))
    ensures (suffix + rest)[0] != '`'
  {
    assert (suffix + rest)[|suffix|..] == rest;
  }

  lemma Backticked(doubled: string, tail: string)
    ensures var text := ("`" + doubled + "`") + tail;
      text[0] == '`' && text[1..] == doubled + "`" + tail
  {}

  lemma EscapedNameRoundTrip(name: string, tail: string)
    requires NeedsEscaping(name) && StartsSuffix(tail)
    ensures TakeName(EscapeName(name) + tail) == Ok((name, tail))
  {
    Backticked(Doubled(name), tail);
    UnquoteDoubled(name, tail);
  }

  lemma PlainNameRoundTrip(name: string, tail: string)
    requires !NeedsEscaping(name) && StartsSuffix(tail)
    ensures TakeName(EscapeName(name) + tail) == Ok((name, tail))
  {
    PlainNameStops(name, tail);
    if name != "" { assert !Special(name[0]); }
  }

  lemma DescriptorRoundTrip(d: Descriptor, rest: string)
    requires DefinedSuffix(d.suffix)
    ensures TakeDescriptor(FormatDescriptor(d) + rest) == Ok((d, rest))
  {
    SuffixRoundTrip(d.suffix, rest);
    assert FormatDescriptor(d) + rest == EscapeName(d.name) + (d.suffix + rest);
    if NeedsEscaping(d.name) {
      EscapedNameRoundTrip(d.name, d.suffix + rest);
    } else {
      PlainNameRoundTrip(d.name, d.suffix + rest);
    }
  }

  lemma {:induction false} DescriptorsRoundTrip(ds: seq<Descriptor>)
    requires forall i :: 0 <= i < |ds| ==> DefinedSuffix(ds[i].suffix)
    ensures ParseDescriptors(FormatDescriptors(ds)) == Ok(ds)
  {
    if ds != [] {
      DescriptorRoundTrip(ds[0], FormatDescriptors(ds[1..]));
      DescriptorsRoundTrip(ds[1..]);
      assert [ds[0]] + ds[1..] == ds;
      assert |FormatDescriptors(ds)| >= |ds[0].suffix| > 0;
    }
  }

  lemma {:induction false} CutField(field: string, rest: string)
    requires NoSpace(field)
    ensures Cut(field + " " + rest) == Some((field, rest))
  {
    var text := field + " " + rest;
    if field == "" {
      assert text[1..] == rest;
    } else {
      assert text[1..] == field[1..] + " " + rest;
      CutField(field[1..], rest);
      assert [field[0]] + field[1..] == field;
    }
  }

  lemma {:induction false} CutIsClean(s: string)
    ensures Cut(s).Some? ==> NoSpace(Cut(s).value.0) && s == Cut(s).value.0 + " " + Cut(s).value.1
  {
    if s != "" && s[0] != ' ' { CutIsClean(s[1..]); }
  }

  lemma {:induction false} ParsedSuffixesDefined(r: string)
    ensures ParseDescriptors(r).Ok? ==>
      forall i :: 0 <= i < |ParseDescriptors(r).value| ==> DefinedSuffix(ParseDescriptors(r).value[i].suffix)
    decreases |r|
  {
    if r != "" && TakeDescriptor(r).Ok? {
      DescriptorShrinks(r);
      ParsedSuffixesDefined(TakeDescriptor(r).value.1);
    }
  }

  lemma ParsedIsWellFormed(s: string)
    ensures Parsed(s).Ok? ==> WellFormed(Parsed(s).value)
  {
    if Parsed(s).Ok? {
      var s1 := Cut(s).value.1;
      var s2 := Cut(s1).value.1;
      var s3 := Cut(s2).value.1;
      CutIsClean(s); CutIsClean(s1); CutIsClean(s2); CutIsClean(s3);
      ParsedSuffixesDefined(Cut(s3).value.1);
    }
  }

  /** Parsing a printed symbol gives it back exactly when the format can carry it. */
  lemma RoundTripIff(s: Symbol)
    ensures Parsed(Formatted(s)) == Ok(s) <==> WellFormed(s)
  {
    ParsedIsWellFormed(Formatted(s));
    if WellFormed(s) {
      var d := FormatDescriptors(s.descriptors);
      var r3 := s.version + " " + d;
      var r2 := s.pkg + " " + r3;
      var r1 := s.manager + " " + r2;
      assert Formatted(s) == s.scheme + " " + r1;
      CutField(s.scheme, r1);
      CutField(s.manager, r2);
      CutField(s.pkg, r3);
      CutField(s.version, d);
      DescriptorsRoundTrip(s.descriptors);
    }
  }

  lemma FormatInjective(a: Symbol, b: Symbol)
    requires WellFormed(a) && WellFormed(b) && Formatted(a) == Formatted(b)
    ensures a == b
  {
    RoundTripIff(a);
    RoundTripIff(b);
  }

  /** Printing what was parsed and parsing again changes nothing. */
  lemma ParseIsStable(text: string)
    requires Parsed(text).Ok?
    ensures Parsed(Formatted(Parsed(text).value)) == Parsed(text)
  {
    ParsedIsWellFormed(text);
    RoundTripIff(Parsed(text).value);
  }

  // ----- Go symbols

  datatype Kind = KindType | KindFunc | KindMethod | KindVar | KindConst

  function KindToSuffix(k: Kind): string {
    match k
    case KindType => TYPE
    case KindFunc => METHOD
    case KindMethod => METHOD
    case _ => TERM
  }

  function TrimPrefix(s: string, prefix: string): string {
    if prefix <= s then s[|prefix|..] else s
  }

  function RelPath(modulePath: string, pkgPath: string): string {
    TrimPrefix(TrimPrefix(pkgPath, modulePath), "/")
  }

  /** One namespace for each segment of a path. */
  function Namespaces(parts: seq<string>): (ds: seq<Descriptor>)
    ensures |ds| == |parts| && forall i :: 0 <= i < |ds| ==> ds[i] == Descriptor(parts[i], NAMESPACE)
  {
    seq(|parts|, i requires 0 <= i < |parts| => Descriptor(parts[i], NAMESPACE))
  }

  function Segments(path: string): seq<Descriptor> {
    if path == "" then [] else Namespaces(Split(path, '/'))
  }

  /** The package path relative to the module, the owner of a method, and the symbol itself. */
  function GoSymbol(modulePath: string, version: string, pkgPath: string, name: string, kind: Kind,
      owner: string): Symbol {
    Symbol("scip-go", "gomod", modulePath, version,
           Segments(RelPath(modulePath, pkgPath))
             + (if kind == KindMethod && owner != "" then [Descriptor(owner, TYPE)] else [])
             + [Descriptor(name, KindToSuffix(kind))])
  }

  lemma AllDefinedAppend(a: seq<Descriptor>, b: seq<Descriptor>)
    ensures AllDefined(a) && AllDefined(b) ==> AllDefined(a + b)
  {}

  lemma GoSymbolWellFormed(modulePath: string, version: string, pkgPath: string, name: string, kind: Kind,
      owner: string)
    ensures WellFormed(GoSymbol(modulePath, version, pkgPath, name, kind, owner)) <==>
      NoSpace(modulePath) && NoSpace(version)
  {
    var ns := Segments(RelPath(modulePath, pkgPath));
    var mid := if kind == KindMethod && owner != "" then [Descriptor(owner, TYPE)] else [];
    AllDefinedAppend(ns, mid);
    AllDefinedAppend(ns + mid, [Descriptor(name, KindToSuffix(kind))]);
  }

  method FormatGoSymbol(modulePath: string, version: string, pkgPath: string, name: string, kind: Kind, owner: string)
    returns (text: string)
    ensures NoSpace(modulePath) && NoSpace(version) <==>
            Parsed(text) == Ok(GoSymbol(modulePath, version, pkgPath, name, kind, owner))
    ensures text == Formatted(GoSymbol(modulePath, version, pkgPath, name, kind, owner))
  {
    var ds := [];
    var rel := TrimPrefix(TrimPrefix(pkgPath, modulePath), "/");
    if rel != "" {
      var parts := Split(rel, '/');
      for i := 0 to |parts|
        invariant ds == Namespaces(parts[..i])
      {
        ds := ds + [Descriptor(parts[i], NAMESPACE)];
      }
      assert parts[..|parts|] == parts;
    }
    if kind == KindMethod && owner != "" { ds := ds + [Descriptor(owner, TYPE)]; }
    ds := ds + [Descriptor(name, KindToSuffix(kind))];
    text := Format(Symbol("scip-go", "gomod", modulePath, version, ds));
    assert ds == GoSymbol(modulePath, version, pkgPath, name, kind, owner).descriptors;
    GoSymbolWellFormed(modulePath, version, pkgPath, name, kind, owner);
    RoundTripIff(GoSymbol(modulePath, version, pkgPath, name, kind, owner));
  }

  /** The namespaces of a path spell it, and no other list of segments does. */
  lemma SegmentsSpell(path: string, parts: seq<string>)
    requires path != "" && parts != [] && forall i :: 0 <= i < |parts| ==> '/' !in parts[i]
    ensures Segments(path) == Namespaces(parts) <==> Join(parts, '/') == path
  {
    JoinSplit(path, '/');
    SplitJoin(parts, '/');
    if Segments(path) == Namespaces(parts) { NamespacesInjective(Split(path, '/'), parts); }
  }

  lemma NamespacesInjective(a: seq<string>, b: seq<string>)
    requires Namespaces(a) == Namespaces(b)
    ensures a == b
  {
    forall i | 0 <= i < |a| ensures a[i] == b[i] {
      assert Namespaces(a)[i] == Namespaces(b)[i];
    }
  }

  // ----- what a Go symbol says

  /** The path of a package under its module; a package outside it keeps its path. */
  lemma RelPathOf(modulePath: string, rel: string, pkgPath: string)
    ensures RelPath(modulePath, modulePath) == ""
    ensures RelPath(modulePath, modulePath + "/" + rel) == rel
    ensures !(modulePath <= pkgPath) && (pkgPath == "" || pkgPath[0] != '/') ==> RelPath(modulePath, pkgPath) == pkgPath
  {
    var under := modulePath + "/" + rel;
    assert under[|modulePath|..] == "/" + rel && ("/" + rel)[1..] == rel && "/" <= "/" + rel;
    assert modulePath[|modulePath|..] == "";
  }

  /** The descriptor part of a text: the path and a slash for each segment, the owner, and the name by its kind. */
  function DescriptorText(segments: seq<string>, owner: string, name: string, kind: Kind): string {
    if segments != [] then EscapeName(segments[0]) + "/" + DescriptorText(segments[1..], owner, name, kind)
    else
      (if kind == KindMethod && owner != "" then EscapeName(owner) + "#" else "") + EscapeName(name) +
      (if kind == KindType then "#" else if kind == KindFunc || kind == KindMethod then "()." else ".")
  }

  /**
   The text of a symbol of a package: scheme, manager, module and version, then the segments of the path under
   the module, then the owner of a method and the name, each with the mark of what it is.
   */
  lemma GoSymbolText(modulePath: string, version: string, segments: seq<string>, name: string, kind: Kind,
      owner: string)
    requires segments != [] && forall i :: 0 <= i < |segments| ==> '/' !in segments[i]
    requires Join(segments, '/') != ""
    ensures Formatted(GoSymbol(modulePath, version, modulePath + "/" + Join(segments, '/'), name, kind, owner))
            == "scip-go" + " " + "gomod" + " " + modulePath + " " + version + " "
               + DescriptorText(segments, owner, name, kind)
  {
    var path := Join(segments, '/');
    RelPathOf(modulePath, path, "");
    SegmentsSpell(path, segments);
    TailText(segments, owner, name, kind);
    var s := GoSymbol(modulePath, version, modulePath + "/" + path, name, kind, owner);
    assert s.descriptors == Namespaces(segments) + TailOf(owner, name, kind);
  }

  function TailOf(owner: string, name: string, kind: Kind): seq<Descriptor> {
    (if kind == KindMethod && owner != "" then [Descriptor(owner, TYPE)] else [])
    + [Descriptor(name, KindToSuffix(kind))]
  }

  lemma EndText(owner: string, name: string, kind: Kind)
    ensures FormatDescriptors(TailOf(owner, name, kind)) == DescriptorText([], owner, name, kind)
  {
    var last := Descriptor(name, KindToSuffix(kind));
    assert [last][1..] == [] && FormatDescriptors([last]) == FormatDescriptor(last) + "" == FormatDescriptor(last);
    if kind == KindMethod && owner != "" {
      assert TailOf(owner, name, kind)[1..] == [last];
      assert FormatDescriptors(TailOf(owner, name, kind)) == EscapeName(owner) + "#" + (EscapeName(name) + "().");
      assert EscapeName(owner) + "#" + (EscapeName(name) + "().") == EscapeName(owner) + "#" + EscapeName(name) + "().";
    } else {
      assert TailOf(owner, name, kind) == [last] && "" + EscapeName(name) == EscapeName(name);
    }
  }

  lemma {:induction false} TailText(segments: seq<string>, owner: string, name: string, kind: Kind)
    ensures FormatDescriptors(Namespaces(segments) + TailOf(owner, name, kind))
            == DescriptorText(segments, owner, name, kind)
  {
    var tail := TailOf(owner, name, kind);
    if segments == [] {
      assert Namespaces(segments) + tail == tail;
      EndText(owner, name, kind);
    } else {
      TailText(segments[1..], owner, name, kind);
      assert (Namespaces(segments) + tail)[1..] == Namespaces(segments[1..]) + tail;
    }
  }
}
