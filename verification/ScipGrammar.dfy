/** The language of symbol strings, without a parser: what texts scip/symbol.go accepts, and what each means. */
module ScipGrammar {
  import opened Basics
  import opened ScipSymbol

  // ----- the grammar

  predicate EndsInParens(name: string) { |name| >= 2 && name[|name| - 2] == '(' && name[|name| - 1] == ')' }

  /** No character of the name begins a suffix, also not together with the suffix that follows. */
  predicate NoStop(name: string, suffix: string) {
    && (forall i :: 0 <= i < |name| ==> name[i] !in {'/', '#', '.'})
    && !(suffix == TERM && EndsInParens(name))
  }

  /** A name is written in backticks, each backtick of its own twice, or as it is if nothing in it can be mistaken. */
  predicate Writes(written: string, name: string, suffix: string) {
    || written == "`" + Doubled(name) + "`"
    || (written == name && NoStop(name, suffix) && (name == "" || name[0] != '`'))
  }

  /** The text is the descriptors one after the other, each a written name and one of the four suffixes. */
  ghost predicate Spells(text: string, ds: seq<Descriptor>)
    decreases |ds|
  {
    if ds == [] then text == ""
    else exists written: string, rest: string ::
      && Writes(written, ds[0].name, ds[0].suffix) && DefinedSuffix(ds[0].suffix)
      && text == written + (ds[0].suffix + rest) && Spells(rest, ds[1..])
  }

  /** Four fields without spaces, a space after each, then the descriptors. */
  ghost predicate SpellsSymbol(text: string, s: Symbol) {
    && NoSpace(s.scheme) && NoSpace(s.manager) && NoSpace(s.pkg) && NoSpace(s.version)
    && exists tail: string :: text == InFront(s, tail) && Spells(tail, s.descriptors)
  }

  function InFront(s: Symbol, tail: string): string {
    s.scheme + " " + (s.manager + " " + (s.pkg + " " + (s.version + " " + tail)))
  }

  // ----- what the grammar says is read

  lemma {:induction false} StopsAtSuffix(name: string, suffix: string, rest: string)
    requires NoStop(name, suffix) && DefinedSuffix(suffix)
    ensures PlainName(name + (suffix + rest)) == (name, suffix + rest)
  {
    var tail := suffix + rest;
    SuffixRoundTrip(suffix, rest);
    if name == "" {
      assert name + tail == tail;
    } else {
      assert (name + tail)[1..] == name[1..] + tail;
      assert [name[0]] + name[1..] == name;
      NoMethodYet(name, suffix, rest);
      ShorterNoStop(name, suffix);
      StopsAtSuffix(name[1..], suffix, rest);
    }
  }

  lemma ShorterNoStop(name: string, suffix: string)
    requires name != "" && NoStop(name, suffix)
    ensures NoStop(name[1..], suffix)
  {
    assert forall i :: 0 <= i < |name[1..]| ==> name[1..][i] == name[i + 1];
  }

  lemma NoMethodYet(name: string, suffix: string, rest: string)
    requires name != "" && NoStop(name, suffix) && DefinedSuffix(suffix)
    ensures !StartsSuffix(name + (suffix + rest))
  {
    var text := name + (suffix + rest);
    assert |name| >= 3 ==> text[2] == name[2];
    assert |name| == 2 ==> text[2] == suffix[0];
    assert |name| == 1 ==> text[1] == suffix[0];
  }

  lemma WrittenIsRead(written: string, d: Descriptor, rest: string)
    requires Writes(written, d.name, d.suffix) && DefinedSuffix(d.suffix)
    ensures TakeDescriptor(written + (d.suffix + rest)) == Ok((d, rest))
  {
    var tail := d.suffix + rest;
    SuffixRoundTrip(d.suffix, rest);
    if written == "`" + Doubled(d.name) + "`" {
      Backticked(Doubled(d.name), tail);
      UnquoteDoubled(d.name, tail);
    } else {
      StopsAtSuffix(d.name, d.suffix, rest);
    }
  }

  lemma {:induction false} SpelledIsRead(text: string, ds: seq<Descriptor>)
    requires Spells(text, ds)
    ensures ParseDescriptors(text) == Ok(ds)
    decreases |ds|
  {
    if ds != [] {
      var written: string, rest: string :| Writes(written, ds[0].name, ds[0].suffix) && DefinedSuffix(ds[0].suffix)
        && text == written + (ds[0].suffix + rest) && Spells(rest, ds[1..]);
      WrittenIsRead(written, ds[0], rest);
      SpelledIsRead(rest, ds[1..]);
      assert [ds[0]] + ds[1..] == ds;
      assert |text| >= |ds[0].suffix| > 0;
    }
  }

  // ----- and nothing else

  lemma {:induction false} UnquotedWasDoubled(r: string)
    ensures Unquote(r).Ok? ==> r == Doubled(Unquote(r).value.0) + "`" + Unquote(r).value.1
  {
    if r != "" && !(r[0] == '`' && (|r| == 1 || r[1] != '`')) {
      var skip := if r[0] == '`' then 2 else 1;
      UnquotedWasDoubled(r[skip..]);
      if Unquote(r[skip..]).Ok? {
        var (name, rest) := Unquote(r[skip..]).value;
        assert r == r[..skip] + r[skip..];
        assert ([r[0]] + name)[1..] == name;
        assert Doubled([r[0]] + name) == r[..skip] + Doubled(name);
      }
    }
  }

  lemma {:induction false} PlainHasNoStop(r: string)
    ensures var (name, rest) := PlainName(r);
      && (forall i :: 0 <= i < |name| ==> name[i] !in {'/', '#', '.'})
      && (rest != "" && rest[0] == '.' ==> !EndsInParens(name))
  {
    if r != "" && !StartsSuffix(r) {
      PlainHasNoStop(r[1..]);
      OneMorePlain(r[0], PlainName(r[1..]).0, PlainName(r[1..]).1);
    }
  }

  lemma OneMorePlain(c: char, name: string, rest: string)
    requires !StartsSuffix([c] + (name + rest))
    requires forall i :: 0 <= i < |name| ==> name[i] !in {'/', '#', '.'}
    requires rest != "" && rest[0] == '.' ==> !EndsInParens(name)
    ensures forall i :: 0 <= i < |[c] + name| ==> ([c] + name)[i] !in {'/', '#', '.'}
    ensures rest != "" && rest[0] == '.' ==> !EndsInParens([c] + name)
  {
    var whole, text := [c] + name, [c] + (name + rest);
    assert forall i :: 1 <= i < |whole| ==> whole[i] == name[i - 1];
    assert text[0] == c && (|name| == 1 && rest != "" ==> text[1] == name[0] && text[2] == rest[0]);
  }

  lemma ReadWasWritten(r: string)
    requires TakeDescriptor(r).Ok?
    ensures var (d, rest) := TakeDescriptor(r).value;
      && DefinedSuffix(d.suffix)
      && exists written: string :: Writes(written, d.name, d.suffix) && r == written + (d.suffix + rest)
  {
    var (d, rest) := TakeDescriptor(r).value;
    var (name, tail) := TakeName(r).value;
    assert tail == d.suffix + rest;
    if r != "" && r[0] == '`' {
      UnquotedWasDoubled(r[1..]);
      var written := "`" + Doubled(name) + "`";
      assert r == ['`'] + r[1..] && r == written + tail;
      assert Writes(written, d.name, d.suffix);
    } else {
      PlainHasNoStop(r);
      assert Writes(name, d.name, d.suffix) && r == name + tail;
    }
  }

  lemma {:induction false} ReadIsSpelled(text: string)
    requires ParseDescriptors(text).Ok?
    ensures Spells(text, ParseDescriptors(text).value)
    decreases |text|
  {
    if text != "" {
      DescriptorShrinks(text);
      var (d, rest) := TakeDescriptor(text).value;
      ReadWasWritten(text);
      ReadIsSpelled(rest);
      var more := ParseDescriptors(rest).value;
      var ds := [d] + more;
      assert ds[0] == d && ds[1..] == more && ParseDescriptors(text).value == ds;
      var written: string :| Writes(written, d.name, d.suffix) && text == written + (d.suffix + rest);
      assert Spells(rest, ds[1..]);
    }
  }

  /**
   The parser accepts exactly the language of the grammar, and reads from each text the one symbol that it
   spells; every other text is an error.
   */
  lemma ParsesIff(text: string, s: Symbol)
    ensures Parsed(text) == Ok(s) <==> SpellsSymbol(text, s)
  {
    if SpellsSymbol(text, s) {
      var tail: string :| text == InFront(s, tail) && Spells(tail, s.descriptors);
      CutField(s.scheme, s.manager + " " + (s.pkg + " " + (s.version + " " + tail)));
      CutField(s.manager, s.pkg + " " + (s.version + " " + tail));
      CutField(s.pkg, s.version + " " + tail);
      CutField(s.version, tail);
      SpelledIsRead(tail, s.descriptors);
    }
    if Parsed(text) == Ok(s) { ParsedSpells(text, s); }
  }

  lemma ParsedSpells(text: string, s: Symbol)
    requires Parsed(text) == Ok(s)
    ensures SpellsSymbol(text, s)
  {
    CutIsClean(text);
    var s1 := Cut(text).value.1;
    CutIsClean(s1);
    var s2 := Cut(s1).value.1;
    CutIsClean(s2);
    var s3 := Cut(s2).value.1;
    CutIsClean(s3);
    var tail := Cut(s3).value.1;
    ReadIsSpelled(tail);
    assert text == InFront(s, tail);
  }
}
