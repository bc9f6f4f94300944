/** What git prints as a unified diff, and when the parser of the previous module gives it back (gitdiff/gitdiff.go). */
module DiffRoundTrip {
  import opened Basics
  import opened DiffParser
  import opened GitDiff
  import opened GitQuoting
  import opened Text
  import opened UnifiedDiff

  // ----- the text git prints for a list of changes

  function Digits(n: nat): (s: string)
    ensures s != "" && forall i :: 0 <= i < |s| ==> IsDigit(s[i])
  {
    (if n < 10 then "" else Digits(n / 10)) + [('0' as int + n % 10) as char]
  }

  /** A count of one is left out. */
  function Range(start: nat, count: nat): string {
    Digits(start) + if count == 1 then "" else "," + Digits(count)
  }

  function HunkLine(h: Hunk, section: string): string
    requires NatHunk(h)
  {
    "@@ -" + Range(h.oldStart, h.oldCount) + " +" + Range(h.newStart, h.newCount) + " @@" + section
  }

  /** Each side is quoted together with its prefix. */
  function HeaderLine(oldPath: string, path: string, full: bool): string {
    "diff --git " + (Quoted(Side('a', oldPath), full) + (" " + Quoted(Side('b', path), full)))
  }

  /** The path on the left of the header. */
  function LeftPath(c: FileChange): string { if c.status.Renamed? || c.status.Copied? then c.oldPath else c.path }

  function HeaderOf(f: FileText): string { HeaderLine(LeftPath(f.change), f.change.path, f.full) }

  /** A hunk, the section heading behind its ranges, and its body. */
  datatype HunkText = HunkText(hunk: Hunk, section: string, body: seq<string>)

  /**
   One file of a diff: the change; the mode of a new or deleted file; its old and new mode if they differ;
   the similarity lines in front of the rename or copy lines; the index and file lines; lines such as the
   note of a binary file; the hunks. `full` is the setting its paths are quoted with.
   */
  datatype FileText = FileText(change: FileChange, full: bool, fileMode: string, mode: Option<(string, string)>,
                               similarity: seq<string>, index: seq<string>, notes: seq<string>, texts: seq<HunkText>)

  function ModeLines(f: FileText): seq<string> {
    if f.mode.Some? then ["old mode " + f.mode.value.0, "new mode " + f.mode.value.1] else []
  }

  function MetaLines(f: FileText): seq<string> {
    var c := f.change;
    match c.status
    case Added => ["new file mode " + f.fileMode]
    case Deleted => ["deleted file mode " + f.fileMode]
    case Renamed => ["rename from " + Quoted(c.oldPath, f.full), "rename to " + Quoted(c.path, f.full)]
    case Copied => ["copy from " + Quoted(c.oldPath, f.full), "copy to " + Quoted(c.path, f.full)]
    case Modified => []
  }

  function Head(f: FileText): seq<string> {
    ModeLines(f) + (f.similarity + (MetaLines(f) + (f.index + f.notes)))
  }

  /** Lines of a body start with one of ' ', '+', '-' and '\\'; it is enough that they start no header. */
  predicate BodyLine(line: string) { !Starts(line, "diff --git ") && !Starts(line, "@@") }

  predicate EndsHeader(line: string) {
    && !Starts(line, "new file mode") && !Starts(line, "deleted file mode")
    && !Starts(line, "rename from ") && !Starts(line, "rename to ") && !Neutral(line)
  }

  predicate OneLine(s: string) { '\n' !in s }

  predicate NatHunk(h: Hunk) { h.oldStart >= 0 && h.oldCount >= 0 && h.newStart >= 0 && h.newCount >= 0 }

  ghost predicate AllBody(body: seq<string>) {
    forall j :: 0 <= j < |body| ==> BodyLine(body[j])
  }

  ghost predicate AllOneLine(lines: seq<string>) {
    forall j :: 0 <= j < |lines| ==> OneLine(lines[j])
  }

  ghost predicate AllNeutral(lines: seq<string>) {
    forall j :: 0 <= j < |lines| ==> Neutral(lines[j])
  }

  ghost predicate AllNotes(lines: seq<string>) {
    forall j :: 0 <= j < |lines| ==> BodyLine(lines[j]) && EndsHeader(lines[j])
  }

  ghost predicate AllTexts(texts: seq<HunkText>) {
    forall i :: 0 <= i < |texts| ==>
      NatHunk(texts[i].hunk) && AllBody(texts[i].body) && OneLine(texts[i].section) && AllOneLine(texts[i].body)
  }

  /** What git can print: only renames and copies have an old path, only files that stay have a mode change. */
  ghost predicate Printable(f: FileText) {
    && (f.change.status.Renamed? || f.change.status.Copied? || f.change.oldPath == "")
    && OneLine(f.fileMode)
    && (f.mode.Some? ==> !f.change.status.Added? && !f.change.status.Deleted?
                         && OneLine(f.mode.value.0) && OneLine(f.mode.value.1))
    && AllNeutral(f.similarity) && AllNeutral(f.index) && AllNotes(f.notes)
    && AllOneLine(f.similarity) && AllOneLine(f.index) && AllOneLine(f.notes)
    && AllTexts(f.texts) && f.change.hunks == HunksOf(f.texts)
  }

  ghost predicate AllPrintable(files: seq<FileText>) {
    forall i :: 0 <= i < |files| ==> Printable(files[i])
  }

  function HunksOf(texts: seq<HunkText>): seq<Hunk> {
    if texts == [] then [] else [texts[0].hunk] + HunksOf(texts[1..])
  }

  ghost function HunkLines(texts: seq<HunkText>): seq<string>
    requires AllTexts(texts)
  {
    if texts == [] then []
    else [HunkLine(texts[0].hunk, texts[0].section)] + texts[0].body + HunkLines(texts[1..])
  }

  ghost function FileLines(f: FileText): seq<string>
    requires Printable(f)
  {
    [HeaderOf(f)] + Head(f) + HunkLines(f.texts)
  }

  /** The lines of the diff; the text ends with a newline, so the last of them is empty. */
  ghost function DiffLines(files: seq<FileText>): (lines: seq<string>)
    requires AllPrintable(files)
    ensures lines != []
  {
    if files == [] then [""] else FileLines(files[0]) + DiffLines(files[1..])
  }

  ghost function DiffText(files: seq<FileText>): string
    requires AllPrintable(files)
  {
    Join(DiffLines(files), '\n')
  }

  function ChangesOf(files: seq<FileText>): (r: seq<FileChange>)
    ensures |r| == |files| && forall i :: 0 <= i < |files| ==> r[i] == files[i].change
  {
    seq(|files|, i requires 0 <= i < |files| => files[i].change)
  }

  // ----- and how it reads

  lemma {:induction false} DigitsRead(n: nat)
    ensures Number(Digits(n)) == n
  {
    var s := Digits(n);
    assert s[|s| - 1] == ('0' as int + n % 10) as char;
    if n < 10 {
      assert s[..|s| - 1] == "";
    } else {
      DigitsRead(n / 10);
      assert s[..|s| - 1] == Digits(n / 10);
    }
  }

  lemma {:induction false} DigitsTaken(ds: string, rest: string)
    requires forall i :: 0 <= i < |ds| ==> IsDigit(ds[i])
    requires rest == "" || !IsDigit(rest[0])
    ensures TakeDigits(ds + rest) == (ds, rest)
  {
    if ds == "" {
      assert ds + rest == rest;
    } else {
      assert (ds + rest)[1..] == ds[1..] + rest;
      DigitsTaken(ds[1..], rest);
      assert [ds[0]] + ds[1..] == ds;
    }
  }

  lemma RangeReads(start: nat, count: nat, rest: string)
    requires rest != "" && rest[0] == ' '
    ensures TakeRange(Range(start, count) + rest) == Some((start, count, rest))
  {
    DigitsRead(start);
    if count == 1 {
      assert Range(start, count) + rest == Digits(start) + rest;
      DigitsTaken(Digits(start), rest);
    } else {
      CountReads(start, count, rest);
    }
  }

  lemma CountReads(start: nat, count: nat, rest: string)
    requires rest != "" && rest[0] == ' ' && count != 1
    ensures TakeRange(Range(start, count) + rest) == Some((start, count, rest))
  {
    var tail := Digits(count) + rest;
    var comma := [','] + tail;
    assert Range(start, count) + rest == Digits(start) + comma;
    assert comma[1..] == tail;
    DigitsTaken(Digits(start), comma);
    DigitsRead(start);
    DigitsTaken(Digits(count), rest);
    DigitsRead(count);
  }

  lemma HunkLineShape(h: Hunk, section: string)
    requires NatHunk(h)
    ensures HunkLine(h, section)
            == "@@ -" + (Range(h.oldStart, h.oldCount) + (" +" + (Range(h.newStart, h.newCount) + (" @@" + section))))
  {}

  lemma AtSigns(text: string)
    ensures Starts("@@ -" + text, "@@") && !Starts("@@ -" + text, "diff --git ")
    ensures Starts("@@ -" + text, "@@ -") && ("@@ -" + text)[4..] == text
  {
    assert ("@@ -" + text)[0] == '@';
  }

  /** A hunk header reads back, counts of one left out or not. */
  lemma HunkRoundTrip(h: Hunk, section: string)
    requires NatHunk(h)
    ensures Starts(HunkLine(h, section), "@@") && !Starts(HunkLine(h, section), "diff --git ")
    ensures HunkOf(HunkLine(h, section)) == Ok(h)
  {
    var tail := " @@" + section;
    var right := Range(h.newStart, h.newCount) + tail;
    HunkLineShape(h, section);
    AtSigns(Range(h.oldStart, h.oldCount) + (" +" + right));
    RangeReads(h.oldStart, h.oldCount, " +" + right);
    assert (" +" + right)[2..] == right;
    RangeReads(h.newStart, h.newCount, tail);
  }

  lemma {:induction false} SpacesAppend(a: string, b: string)
    ensures Spaces(a + b) == Spaces(a) + Spaces(b)
  {
    if a == "" {
      assert a + b == b;
    } else {
      assert (a + b)[1..] == a[1..] + b;
      SpacesAppend(a[1..], b);
    }
  }

  lemma {:induction false} AfterLastAppend(a: string, b: string)
    requires AfterLast(b).Some?
    ensures AfterLast(a + b) == AfterLast(b)
  {
    if a == "" {
      assert a + b == b;
    } else {
      assert (a + b)[1..] == a[1..] + b;
      AfterLastAppend(a[1..], b);
    }
  }

  /** The path a header line seems to name. */
  function HeaderPath(path: string): string {
    match AfterLast(path)
    case None => path
    case Some(t) => t
  }

  lemma AfterLastSkip(c: char, s: string)
    requires c != ' '
    ensures AfterLast([c] + s) == AfterLast(s)
  {
    var t := [c] + s;
    assert t[1..] == s && t[0] != " b/"[0];
  }

  /** Text without a space in front does not matter. */
  lemma {:induction false} AfterLastSkipWord(word: string, s: string)
    requires ' ' !in word
    ensures AfterLast(word + s) == AfterLast(s)
  {
    if word == "" {
      assert word + s == s;
    } else {
      assert word + s == [word[0]] + (word[1..] + s);
      AfterLastSkip(word[0], word[1..] + s);
      AfterLastSkipWord(word[1..], s);
    }
  }

  /** A separator does not arise where a text that does not go on with one of its characters begins. */
  lemma {:induction false} AfterLastApart(a: string, b: string)
    requires AfterLast(a).None? && AfterLast(b).None? && b != "" && b[0] != 'b' && b[0] != '/'
    ensures AfterLast(a + b).None?
  {
    if a == "" {
      assert a + b == b;
    } else {
      assert (a + b)[1..] == a[1..] + b;
      AfterLastApart(a[1..], b);
      assert Starts(a + b, " b/") ==> Starts(a, " b/");
    }
  }

  lemma {:induction false} AfterLastIsLast(s: string)
    requires AfterLast(s).Some?
    ensures AfterLast(AfterLast(s).value).None?
  {
    if AfterLast(s[1..]).Some? {
      AfterLastIsLast(s[1..]);
    } else {
      var rest := s[1..];
      assert AfterLast(rest).None? && AfterLast(rest[1..]).None? && AfterLast(rest[1..][1..]).None?;
      assert s[3..] == rest[1..][1..];
    }
  }

  lemma SeparatorReads(path: string)
    ensures AfterLast(" " + Side('b', path)) == Some(HeaderPath(path))
  {
    var back := " " + Side('b', path);
    assert back[1..] == Side('b', path) && back[3..] == path;
    AfterLastSkip('b', ['/'] + path);
    AfterLastSkip('/', path);
  }

  /** A path that is printed raw: the header names what follows its last separator. */
  lemma PlainHeaderReads(oldPath: string, path: string, full: bool)
    requires !NeedsQuotes(path, full)
    ensures HeaderChange(HeaderLine(oldPath, path, full)) == Ok(Change(Modified, HeaderPath(path), ""))
  {
    var left, right := Quoted(Side('a', oldPath), full), Quoted(Side('b', path), full);
    HeaderSpaces(left, right);
    QuotedSide('b', path, full);
    SeparatorReads(path);
    AfterLastAppend(left, " " + right);
    AfterLastAppend("diff --git ", left + (" " + right));
  }

  /** What a raw text starts with, its quoted form starts with, unless the first character is escaped. */
  lemma EscapedFirst(s: string, full: bool)
    ensures var e := Escaped(s, full) + "\"";
      if s == "" then e == "\""
      else if Special(s[0], full) then e[0] == '\\'
      else e[0] == s[0] && e[1..] == Escaped(s[1..], full) + "\""
  {
    if s != "" {
      var e, rest := Escaped(s, full), Escaped(s[1..], full);
      assert e == Escape(s[0], full) + rest && (e + "\"")[0] == e[0];
      if !Special(s[0], full) { assert e == [s[0]] + rest && (e + "\"")[1..] == rest + "\""; }
    }
  }

  /** Escaping neither makes a separator nor hides one. */
  lemma {:induction false} AfterLastEscaped(s: string, full: bool)
    ensures AfterLast(Escaped(s, full) + "\"")
            == if AfterLast(s).Some? then Some(Escaped(AfterLast(s).value, full) + "\"") else None
  {
    if s == "" {
      assert "\""[1..] == "";
    } else {
      var first, rest := Escape(s[0], full), Escaped(s[1..], full) + "\"";
      assert Escaped(s, full) + "\"" == first + rest;
      AfterLastEscaped(s[1..], full);
      if AfterLast(s[1..]).Some? {
        AfterLastAppend(first, rest);
      } else if Special(s[0], full) {
        AfterLastSkipWord(first, rest);
        assert s[0] != ' ';
      } else {
        assert (first + rest)[1..] == rest;
        SeparatorEscaped(s, full);
      }
    }
  }

  lemma SeparatorEscaped(s: string, full: bool)
    requires s != "" && !Special(s[0], full)
    ensures var e := [s[0]] + (Escaped(s[1..], full) + "\"");
      && (Starts(e, " b/") <==> Starts(s, " b/"))
      && (Starts(s, " b/") ==> e[3..] == Escaped(s[3..], full) + "\"")
  {
    var second := Escaped(s[1..], full) + "\"";
    var e := [s[0]] + second;
    EscapedFirst(s[1..], full);
    assert e[1..] == second;
    if |s| > 1 && s[1] == 'b' {
      assert s[1..][1..] == s[2..] && s[1..][0] == 'b';
      var third := Escaped(s[2..], full) + "\"";
      EscapedFirst(s[2..], full);
      assert second[1..] == third && e[2] == third[0];
      if |s| > 2 && s[2] == '/' {
        assert s[2..][1..] == s[3..] && s[2..][0] == '/';
        assert e[3..] == third[1..];
      }
    } else {
      assert e[1] != 'b';
    }
  }

  lemma QuotedSideSkips(side: char, e: string)
    requires side == 'a' || side == 'b'
    ensures AfterLast("\"" + Side(side, e)) == AfterLast(e)
  {
    AfterLastSkip('/', e);
    AfterLastSkip(side, ['/'] + e);
    AfterLastSkip('"', Side(side, e));
  }

  /** No separator arises between the words of a header whose sides hold none. */
  lemma HeaderHasNone(left: string, right: string)
    requires AfterLast(left).None? && left != "" && left[0] == '"'
    requires AfterLast(right).None? && right != "" && right[0] == '"'
    ensures AfterLast("diff --git " + (left + (" " + right))).None?
  {
    var back := " " + right;
    assert back[1..] == right && !Starts(back, " b/");
    AfterLastApart(left, back);
    HeaderWordHasNone();
    AfterLastApart("diff --git ", left + back);
  }

  lemma HeaderWordHasNone()
    ensures AfterLast("diff --git ").None?
  {
    var last := " ";
    var word := "--git" + last;
    var rest := " " + word;
    assert last[1..] == "" && AfterLast(last).None?;
    AfterLastSkipWord("--git", last);
    assert rest[1..] == word && rest[1] == '-' && AfterLast(rest).None?;
    AfterLastSkipWord("diff", rest);
    assert "diff --git " == "diff" + rest;
  }

  /** A path that needs quotes and stays: the header names none, or what follows its last separator, escaped. */
  lemma QuotedHeaderReads(path: string, full: bool)
    requires NeedsQuotes(path, full)
    ensures AfterLast(HeaderLine(path, path, full))
            == if AfterLast(path).Some? then Some(Escaped(AfterLast(path).value, full) + "\"") else None
  {
    var left, right := Quoted(Side('a', path), full), Quoted(Side('b', path), full);
    QuotedSide('a', path, full);
    QuotedSide('b', path, full);
    AfterLastEscaped(path, full);
    QuotedSideSkips('a', Escaped(path, full) + "\"");
    QuotedSideSkips('b', Escaped(path, full) + "\"");
    if AfterLast(path).Some? {
      AfterLastAppend(" ", right);
      AfterLastAppend(left, " " + right);
      AfterLastAppend("diff --git ", left + (" " + right));
    } else {
      HeaderHasNone(left, right);
    }
  }

  lemma SpaceBetween(a: string, b: string)
    ensures Spaces(a + [' '] + b) >= 1 + Spaces(b)
  {
    SpacesAppend(a, [' '] + b);
    assert a + [' '] + b == a + ([' '] + b) && ([' '] + b)[1..] == b;
  }

  lemma HeaderSpaces(left: string, right: string)
    ensures Spaces("diff --git " + (left + (" " + right))) >= 3
  {
    var third := left + [' '] + right;
    var second := "--git" + [' '] + third;
    SpaceBetween(left, right);
    SpaceBetween("--git", third);
    SpaceBetween("diff", second);
    assert "diff --git " + (left + (" " + right)) == "diff" + [' '] + second;
  }

  lemma HeaderStarts(f: FileText)
    ensures Starts(HeaderOf(f), "diff --git ") && OneLine(HeaderOf(f))
  {
    QuotedOneLine(Side('a', LeftPath(f.change)), f.full);
    QuotedOneLine(Side('b', f.change.path), f.full);
  }

  /** Neutral lines are read over. */
  lemma {:induction false} ScanNeutral(c: FileChange, neutral: seq<string>, rest: seq<string>)
    requires AllNeutral(neutral)
    ensures Scan(c, neutral + rest).0 == Scan(c, rest).0
    ensures Scan(c, neutral + rest).1 == |neutral| + Scan(c, rest).1
    decreases |neutral|
  {
    if neutral == [] {
      assert neutral + rest == rest;
    } else {
      assert (neutral + rest)[1..] == neutral[1..] + rest;
      NeutralReads(c, neutral[0]);
      ScanNeutral(c, neutral[1..], rest);
    }
  }

  lemma NeutralReads(c: FileChange, line: string)
    requires Neutral(line)
    ensures Meta(c, line) == Some(c) && BodyLine(line)
  {
    assert line[0] in "sdi-+" && (line[0] == 'd' ==> line[1] == 'i' && line[2] == 's');
  }

  /** The scan does not look behind a line that ends it. */
  lemma {:induction false} ScanStops(c: FileChange, head: seq<string>, tail: seq<string>)
    requires tail == [] || EndsHeader(tail[0])
    ensures Scan(c, head + tail) == Scan(c, head)
    decreases |head|
  {
    if head == [] {
      assert head + tail == tail;
    } else {
      assert (head + tail)[1..] == head[1..] + tail;
      if Meta(c, head[0]).Some? { ScanStops(Meta(c, head[0]).value, head[1..], tail); }
    }
  }

  lemma HeaderOrHunkEnds(line: string)
    requires Starts(line, "diff --git ") || Starts(line, "@@") || line == ""
    ensures EndsHeader(line)
  {
    if line != "" {
      assert line[0] == 'd' || line[0] == '@';
      assert line[0] == 'd' ==> line[1] == 'i' && line[2] == 'f';
    }
  }

  /** A header that the parser does not read to its end: it stops at a mode line and at a copy line. */
  predicate Stops(f: FileText) { f.mode.Some? || f.change.status.Copied? }

  /** The change as the parser sees it, from what the first line says: only a rename has lines with its paths. */
  function SeenFrom(start: FileChange, f: FileText): FileChange {
    var c := f.change;
    if Stops(f) then start
    else if c.status.Renamed? then Change(Renamed, Quoted(c.path, f.full), Quoted(c.oldPath, f.full))
    else start.(status := c.status)
  }

  function Seen(f: FileText): Result<FileChange> {
    match HeaderChange(HeaderOf(f))
    case Err => Err
    case Ok(start) => Ok(SeenFrom(start, f).(hunks := f.change.hunks))
  }

  /** One header line, read. */
  lemma ScanStep(c: FileChange, line: string, c': FileChange, more: seq<string>)
    requires Meta(c, line) == Some(c')
    ensures Scan(c, [line] + more) == (Scan(c', more).0, 1 + Scan(c', more).1)
  {
    assert ([line] + more)[1..] == more;
  }

  /** The first line leaves the change open. */
  predicate Started(c: FileChange) { c == Change(Modified, c.path, "") }

  lemma ScanMeta(start: FileChange, f: FileText, more: seq<string>)
    requires Started(start) && !Stops(f)
    ensures var (d, n) := Scan(SeenFrom(start, f), more); Scan(start, MetaLines(f) + more) == (d, |MetaLines(f)| + n)
  {
    match f.change.status
    case Added =>
      ScanStep(start, "new file mode " + f.fileMode, start.(status := Added), more);
    case Deleted =>
      DeletedLine(start, f.fileMode);
      ScanStep(start, "deleted file mode " + f.fileMode, start.(status := Deleted), more);
    case Renamed =>
      ScanRename(start, f, more);
    case Modified =>
      assert MetaLines(f) + more == more;
    case Copied =>
  }

  lemma DeletedLine(c: FileChange, mode: string)
    ensures Meta(c, "deleted file mode " + mode) == Some(c.(status := Deleted))
  {
    assert ("deleted file mode " + mode)[0] == 'd';
  }

  lemma ScanRename(start: FileChange, f: FileText, more: seq<string>)
    requires Started(start) && f.change.status.Renamed? && !Stops(f)
    ensures var (d, n) := Scan(SeenFrom(start, f), more); Scan(start, MetaLines(f) + more) == (d, 2 + n)
  {
    var from, to := Quoted(f.change.oldPath, f.full), Quoted(f.change.path, f.full);
    var mid := start.(oldPath := from, status := Renamed);
    RenameLines(start, from, to);
    RenameLines(mid, from, to);
    ScanTwo(start, "rename from " + from, mid, "rename to " + to, SeenFrom(start, f), more);
  }

  lemma ScanTwo(c0: FileChange, first: string, c1: FileChange, second: string, c2: FileChange, more: seq<string>)
    requires Meta(c0, first) == Some(c1) && Meta(c1, second) == Some(c2)
    ensures var (d, n) := Scan(c2, more); Scan(c0, [first, second] + more) == (d, 2 + n)
  {
    ScanStep(c1, second, c2, more);
    ScanStep(c0, first, c1, [second] + more);
    assert [first, second] + more == [first] + ([second] + more);
  }

  lemma RenameLines(start: FileChange, from: string, to: string)
    ensures Meta(start, "rename from " + from) == Some(start.(oldPath := from, status := Renamed))
    ensures Meta(start, "rename to " + to) == Some(start.(path := to))
  {
    assert ("rename from " + from)[|"rename from "|..] == from && ("rename from " + from)[0] == 'r';
    var line := "rename to " + to;
    assert line[|"rename to "|..] == to && line[0] == 'r' && line[7] == 't';
  }

  lemma {:induction false} BodyReads(current: Option<FileChange>, body: seq<string>, rest: seq<string>)
    requires AllBody(body)
    ensures ParsedDiff(current, body + rest) == ParsedDiff(current, rest)
  {
    if body == [] {
      assert body + rest == rest;
    } else {
      assert (body + rest)[1..] == body[1..] + rest;
      BodyReads(current, body[1..], rest);
    }
  }

  lemma HunkStep(c: FileChange, line: string, h: Hunk, more: seq<string>)
    requires Starts(line, "@@") && !Starts(line, "diff --git ") && HunkOf(line) == Ok(h)
    ensures ParsedDiff(Some(c), [line] + more) == ParsedDiff(Some(WithHunk(c, h)), more)
  {
    assert ([line] + more)[1..] == more;
  }

  lemma HeaderStep(current: Option<FileChange>, line: string, c: FileChange, more: seq<string>)
    requires Starts(line, "diff --git ") && HeaderChange(line) == Ok(c)
    ensures var (d, n) := Scan(c, more);
      ParsedDiff(current, [line] + more) == Prepend(Listed(current), ParsedDiff(Some(d), more[n..]))
  {
    var lines := [line] + more;
    var n := Scan(c, more).1;
    assert lines[1..] == more && lines[1 + n..] == more[n..];
  }

  function WithHunks(c: FileChange, hs: seq<Hunk>): FileChange { c.(hunks := c.hunks + hs) }

  lemma {:induction false} HunksRead(c: FileChange, texts: seq<HunkText>, rest: seq<string>)
    requires AllTexts(texts)
    ensures ParsedDiff(Some(c), HunkLines(texts) + rest) == ParsedDiff(Some(WithHunks(c, HunksOf(texts))), rest)
    decreases |texts|
  {
    if texts == [] {
      assert HunkLines(texts) + rest == rest && c.hunks + [] == c.hunks;
    } else {
      var t, more := texts[0], HunkLines(texts[1..]) + rest;
      HunksRead(WithHunk(c, t.hunk), texts[1..], rest);
      WithHunksCons(c, t.hunk, HunksOf(texts[1..]));
      OneHunkReads(c, t.hunk, t.section, t.body, more);
      ConsAssociates(HunkLine(t.hunk, t.section), t.body, HunkLines(texts[1..]), rest);
    }
  }

  lemma WithHunksCons(c: FileChange, h: Hunk, hs: seq<Hunk>)
    ensures WithHunks(WithHunk(c, h), hs) == WithHunks(c, [h] + hs)
  {
    assert c.hunks + [h] + hs == c.hunks + ([h] + hs);
  }

  lemma OneHunkReads(c: FileChange, h: Hunk, section: string, body: seq<string>, more: seq<string>)
    requires NatHunk(h) && AllBody(body)
    ensures ParsedDiff(Some(c), [HunkLine(h, section)] + (body + more)) == ParsedDiff(Some(WithHunk(c, h)), more)
  {
    HunkRoundTrip(h, section);
    HunkStep(c, HunkLine(h, section), h, body + more);
    BodyReads(Some(WithHunk(c, h)), body, more);
  }

  lemma ConsAssociates(line: string, a: seq<string>, b: seq<string>, c: seq<string>)
    ensures ([line] + a + b) + c == [line] + (a + (b + c))
  {}

  // ----- the header of one file

  lemma OddLines(f: FileText)
    ensures f.mode.Some? ==> EndsHeader("old mode " + f.mode.value.0)
    ensures EndsHeader("copy from " + Quoted(f.change.oldPath, f.full))
  {
    assert f.mode.Some? ==> ("old mode " + f.mode.value.0)[0] == 'o';
    assert ("copy from " + Quoted(f.change.oldPath, f.full))[0] == 'c';
  }

  /** What the scan makes of the header lines of a file. */
  lemma HeadScans(start: FileChange, f: FileText)
    requires Printable(f) && Started(start)
    ensures Scan(start, Head(f)).0 == SeenFrom(start, f)
  {
    OddLines(f);
    if f.mode.Some? {
      assert Head(f)[0] == "old mode " + f.mode.value.0;
    } else {
      var back := MetaLines(f) + (f.index + f.notes);
      assert Head(f) == f.similarity + back;
      ScanNeutral(start, f.similarity, back);
      if f.change.status.Copied? {
        assert back[0] == "copy from " + Quoted(f.change.oldPath, f.full);
      } else {
        var bare := SeenFrom(start, f);
        ScanMeta(start, f, f.index + f.notes);
        ScanNeutral(bare, f.index, f.notes);
        assert Scan(bare, f.notes) == (bare, 0);
      }
    }
  }

  lemma ModeLinesAreBody(f: FileText)
    ensures AllBody(ModeLines(f))
  {
    if f.mode.Some? {
      assert ("old mode " + f.mode.value.0)[0] == 'o' && ("new mode " + f.mode.value.1)[0] == 'n';
    }
  }

  lemma MetaLinesAreBody(f: FileText)
    ensures AllBody(MetaLines(f))
  {
    var from, to := Quoted(f.change.oldPath, f.full), Quoted(f.change.path, f.full);
    match f.change.status
    case Added => assert ("new file mode " + f.fileMode)[0] == 'n';
    case Deleted => assert ("deleted file mode " + f.fileMode)[1] == 'e';
    case Renamed => assert ("rename from " + from)[0] == ("rename to " + to)[0] == 'r';
    case Copied => assert ("copy from " + from)[0] == ("copy to " + to)[0] == 'c';
    case Modified =>
  }

  lemma AllBodyAppend(a: seq<string>, b: seq<string>)
    requires AllBody(a) && AllBody(b)
    ensures AllBody(a + b)
  {}

  lemma NeutralAreBody(lines: seq<string>)
    requires AllNeutral(lines)
    ensures AllBody(lines)
  {
    forall j | 0 <= j < |lines| ensures BodyLine(lines[j]) { NeutralReads(Change(Modified, "", ""), lines[j]); }
  }

  /** Header lines that the scan leaves are skipped like the lines of a body. */
  lemma HeadIsBody(f: FileText)
    requires Printable(f)
    ensures AllBody(Head(f))
  {
    ModeLinesAreBody(f);
    MetaLinesAreBody(f);
    NeutralAreBody(f.similarity);
    NeutralAreBody(f.index);
    AllBodyAppend(f.index, f.notes);
    AllBodyAppend(MetaLines(f), f.index + f.notes);
    AllBodyAppend(f.similarity, MetaLines(f) + (f.index + f.notes));
    AllBodyAppend(ModeLines(f), f.similarity + (MetaLines(f) + (f.index + f.notes)));
  }

  /** What follows the header lines of a file ends them. */
  lemma TailEnds(f: FileText, rest: seq<string>)
    requires Printable(f) && rest != [] && EndsHeader(rest[0])
    ensures var tail := HunkLines(f.texts) + rest; tail != [] && EndsHeader(tail[0])
  {
    if f.texts != [] {
      HunkRoundTrip(f.texts[0].hunk, f.texts[0].section);
      HeaderOrHunkEnds((HunkLines(f.texts) + rest)[0]);
    }
  }

  lemma HeadReads(current: Option<FileChange>, header: string, start: FileChange, head: seq<string>, d: FileChange,
      tail: seq<string>)
    requires Starts(header, "diff --git ") && HeaderChange(header) == Ok(start)
    requires AllBody(head) && Scan(start, head).0 == d && tail != [] && EndsHeader(tail[0])
    ensures ParsedDiff(current, [header] + (head + tail)) == Prepend(Listed(current), ParsedDiff(Some(d), tail))
  {
    var n := Scan(start, head).1;
    ScanStops(start, head, tail);
    HeaderStep(current, header, start, head + tail);
    assert (head + tail)[n..] == head[n..] + tail;
    BodyReads(Some(d), head[n..], tail);
  }

  /** A header that names no path fails the whole diff. */
  lemma HeaderFails(current: Option<FileChange>, line: string, more: seq<string>)
    requires Starts(line, "diff --git ") && HeaderChange(line) == Err
    ensures ParsedDiff(current, [line] + more) == Err
  {
  }

  lemma FileReads(current: Option<FileChange>, f: FileText, rest: seq<string>)
    requires Printable(f) && rest != [] && EndsHeader(rest[0])
    ensures ParsedDiff(current, FileLines(f) + rest) ==
      match Seen(f)
      case Err => Err
      case Ok(d) => Prepend(Listed(current), ParsedDiff(Some(d), rest))
  {
    FileShape(f, rest);
    HeaderStarts(f);
    if HeaderChange(HeaderOf(f)).Err? {
      HeaderFails(current, HeaderOf(f), Head(f) + (HunkLines(f.texts) + rest));
    } else {
      GoodFileReads(current, f, HeaderChange(HeaderOf(f)).value, rest);
    }
  }

  lemma GoodFileReads(current: Option<FileChange>, f: FileText, start: FileChange, rest: seq<string>)
    requires Printable(f) && rest != [] && EndsHeader(rest[0]) && HeaderChange(HeaderOf(f)) == Ok(start)
    ensures ParsedDiff(current, [HeaderOf(f)] + (Head(f) + (HunkLines(f.texts) + rest)))
            == Prepend(Listed(current), ParsedDiff(Some(SeenFrom(start, f).(hunks := f.change.hunks)), rest))
  {
    var tail := HunkLines(f.texts) + rest;
    var bare := SeenFrom(start, f);
    HeaderStarts(f);
    HeadScans(start, f);
    HeadIsBody(f);
    TailEnds(f, rest);
    HeadReads(current, HeaderOf(f), start, Head(f), bare, tail);
    HunksRead(bare, f.texts, rest);
    assert WithHunks(bare, f.change.hunks) == bare.(hunks := f.change.hunks);
  }

  lemma FileShape(f: FileText, rest: seq<string>)
    requires Printable(f)
    ensures FileLines(f) + rest == [HeaderOf(f)] + (Head(f) + (HunkLines(f.texts) + rest))
  {
    ConsAssociates(HeaderOf(f), Head(f), HunkLines(f.texts), rest);
  }

  // ----- the whole diff

  function SeenOf(files: seq<FileText>): (rs: seq<Result<FileChange>>)
    ensures |rs| == |files| && forall i :: 0 <= i < |files| ==> rs[i] == Seen(files[i])
  {
    seq(|files|, i requires 0 <= i < |files| => Seen(files[i]))
  }

  /** What any printed diff reads as, an error of a header included. */
  lemma {:induction false} DiffReads(current: Option<FileChange>, files: seq<FileText>)
    requires AllPrintable(files)
    ensures ParsedDiff(current, DiffLines(files)) == Prepend(Listed(current), Collected(SeenOf(files)))
    decreases |files|
  {
    if files == [] {
      assert ParsedDiff(current, [""][1..]) == Ok(Listed(current));
      assert Listed(current) + [] == Listed(current);
    } else {
      var tail := files[1..];
      FirstEnds(tail);
      FileReads(current, files[0], DiffLines(tail));
      assert SeenOf(files)[0] == Seen(files[0]) && SeenOf(files)[1..] == SeenOf(tail);
      if Seen(files[0]).Ok? {
        DiffReads(Some(Seen(files[0]).value), tail);
        PrependTwice(Listed(current), [Seen(files[0]).value], Collected(SeenOf(tail)));
      }
    }
  }

  lemma FirstEnds(files: seq<FileText>)
    requires AllPrintable(files)
    ensures EndsHeader(DiffLines(files)[0])
  {
    if files == [] {
      HeaderOrHunkEnds("");
    } else {
      HeaderStarts(files[0]);
      HeaderOrHunkEnds(HeaderOf(files[0]));
      assert DiffLines(files)[0] == HeaderOf(files[0]);
    }
  }

  predicate SeparatorAt(s: string, i: nat) { i <= |s| && Starts(s[i..], " b/") }

  /** A path the header line cannot show: it holds the separator itself. */
  ghost predicate HidesPath(c: FileChange) {
    !c.status.Renamed? && exists i: nat :: SeparatorAt(c.path, i)
  }

  lemma {:induction false} AfterLastIff(s: string)
    ensures AfterLast(s).Some? <==> exists i: nat :: SeparatorAt(s, i)
  {
    assert s[0..] == s;
    if s == "" {
      assert forall i: nat :: !SeparatorAt(s, i);
    } else {
      AfterLastIff(s[1..]);
      forall i: nat ensures SeparatorAt(s[1..], i) <==> SeparatorAt(s, i + 1) {
        if i + 1 <= |s| { assert s[1..][i..] == s[i + 1..]; }
      }
      if AfterLast(s).Some? {
        if AfterLast(s[1..]).Some? {
          var i: nat :| SeparatorAt(s[1..], i);
          assert SeparatorAt(s, i + 1);
        } else {
          assert SeparatorAt(s, 0);
        }
      } else {
        forall i: nat ensures !SeparatorAt(s, i) {
          if i > 0 { assert !SeparatorAt(s[1..], i - 1); }
        }
      }
    }
  }

  /** A path is printed raw where it is read. */
  predicate Raw(f: FileText) {
    !NeedsQuotes(f.change.path, f.full) && (f.change.status.Renamed? ==> !NeedsQuotes(f.change.oldPath, f.full))
  }

  /** The header shows the change: it is read to its end, its paths are raw, and its first line hides none. */
  ghost predicate Shown(f: FileText) {
    && !f.change.status.Copied? && (f.change.status.Renamed? ==> f.mode.None?)
    && Raw(f) && !HidesPath(f.change)
  }

  ghost predicate AllShown(files: seq<FileText>) {
    forall i :: 0 <= i < |files| ==> Shown(files[i])
  }

  lemma SeenIff(f: FileText)
    requires Printable(f)
    ensures Seen(f) == Ok(f.change) <==> Shown(f)
  {
    var c := f.change;
    AfterLastIff(c.path);
    QuotedShape(c.path, f.full);
    QuotedShape(c.oldPath, f.full);
    if !NeedsQuotes(c.path, f.full) {
      PlainHeaderReads(LeftPath(c), c.path, f.full);
      if AfterLast(c.path).Some? { assert |HeaderPath(c.path)| < |c.path|; }
    } else if !c.status.Renamed? && !c.status.Copied? {
      QuotedHeaderReads(c.path, f.full);
      if AfterLast(c.path).Some? {
        AfterLastIsLast(c.path);
        AfterLastEscaped(AfterLast(c.path).value, f.full);
      }
    }
  }

  lemma SeenAllIff(files: seq<FileText>)
    requires AllPrintable(files)
    ensures Collected(SeenOf(files)) == Ok(ChangesOf(files)) <==> AllShown(files)
  {
    CollectedIff(SeenOf(files), ChangesOf(files));
    forall i | 0 <= i < |files| ensures SeenOf(files)[i] == Ok(ChangesOf(files)[i]) <==> Shown(files[i]) {
      SeenIff(files[i]);
    }
  }

  /** Reading the lines of a diff gives its changes back exactly when every header shows its change. */
  lemma LinesRoundTripIff(files: seq<FileText>)
    requires AllPrintable(files)
    ensures ParsedDiff(None, DiffLines(files)) == Ok(ChangesOf(files)) <==> AllShown(files)
  {
    DiffReads(None, files);
    PrependTwice([], [], Collected(SeenOf(files)));
    SeenAllIff(files);
  }

  // ----- lines and text

  lemma DigitsOneLine(n: nat)
    ensures OneLine(Digits(n))
  {
    forall i | 0 <= i < |Digits(n)| ensures Digits(n)[i] != '\n' {}
  }

  lemma Glued(a: string, b: string)
    requires OneLine(a) && OneLine(b)
    ensures OneLine(a + b)
  {}

  lemma RangeOneLine(start: nat, count: nat)
    ensures OneLine(Range(start, count))
  {
    DigitsOneLine(start);
    DigitsOneLine(count);
    Glued(",", Digits(count));
  }

  lemma HunkLineOneLine(h: Hunk, section: string)
    requires NatHunk(h) && OneLine(section)
    ensures OneLine(HunkLine(h, section))
  {
    RangeOneLine(h.oldStart, h.oldCount);
    RangeOneLine(h.newStart, h.newCount);
    Glued(" @@", section);
    Glued(Range(h.newStart, h.newCount), " @@" + section);
    Glued(" +", Range(h.newStart, h.newCount) + (" @@" + section));
    Glued(Range(h.oldStart, h.oldCount), " +" + (Range(h.newStart, h.newCount) + (" @@" + section)));
    HunkLineShape(h, section);
    Glued("@@ -", Range(h.oldStart, h.oldCount) + (" +" + (Range(h.newStart, h.newCount) + (" @@" + section))));
  }

  lemma AllOneLineAppend(a: seq<string>, b: seq<string>)
    requires AllOneLine(a) && AllOneLine(b)
    ensures AllOneLine(a + b)
  {}

  lemma {:induction false} HunkLinesOneLine(texts: seq<HunkText>)
    requires AllTexts(texts)
    ensures AllOneLine(HunkLines(texts))
  {
    if texts != [] {
      HunkLinesOneLine(texts[1..]);
      HunkLineOneLine(texts[0].hunk, texts[0].section);
      AllOneLineAppend([HunkLine(texts[0].hunk, texts[0].section)], texts[0].body);
      AllOneLineAppend([HunkLine(texts[0].hunk, texts[0].section)] + texts[0].body, HunkLines(texts[1..]));
    }
  }

  lemma MetaLinesOneLine(f: FileText)
    requires OneLine(f.fileMode)
    ensures AllOneLine(MetaLines(f))
  {
    var from, to := Quoted(f.change.oldPath, f.full), Quoted(f.change.path, f.full);
    QuotedOneLine(f.change.oldPath, f.full);
    QuotedOneLine(f.change.path, f.full);
    Glued("new file mode ", f.fileMode);
    Glued("deleted file mode ", f.fileMode);
    Glued("rename from ", from);
    Glued("rename to ", to);
    Glued("copy from ", from);
    Glued("copy to ", to);
  }

  lemma FileOneLine(f: FileText)
    requires Printable(f)
    ensures AllOneLine(FileLines(f))
  {
    HeaderStarts(f);
    MetaLinesOneLine(f);
    if f.mode.Some? {
      Glued("old mode ", f.mode.value.0);
      Glued("new mode ", f.mode.value.1);
    }
    AllOneLineAppend(f.index, f.notes);
    AllOneLineAppend(MetaLines(f), f.index + f.notes);
    AllOneLineAppend(f.similarity, MetaLines(f) + (f.index + f.notes));
    AllOneLineAppend(ModeLines(f), f.similarity + (MetaLines(f) + (f.index + f.notes)));
    AllOneLineAppend([HeaderOf(f)], Head(f));
    HunkLinesOneLine(f.texts);
    AllOneLineAppend([HeaderOf(f)] + Head(f), HunkLines(f.texts));
  }

  /** Quoting keeps newlines out of the lines, whatever the paths hold. */
  lemma {:induction false} DiffOneLine(files: seq<FileText>)
    requires AllPrintable(files)
    ensures AllOneLine(DiffLines(files))
  {
    if files != [] {
      FileOneLine(files[0]);
      DiffOneLine(files[1..]);
      AllOneLineAppend(FileLines(files[0]), DiffLines(files[1..]));
    }
  }

  lemma TextReads(files: seq<FileText>)
    requires AllPrintable(files)
    ensures ParsedDiff(None, Split(DiffText(files), '\n')) == Collected(SeenOf(files))
  {
    DiffOneLine(files);
    SplitJoin(DiffLines(files), '\n');
    DiffReads(None, files);
    PrependTwice([], [], Collected(SeenOf(files)));
  }

  /**
   Parsing the text of a diff gives its changes back if and only if: none is a copy, none is a rename with
   a mode change, no path that is read needs quotes, and no header line hides a path that it alone states.
   Modes and mode changes of files that keep their path, binary files and hunks of any shape read back.
   */
  lemma UnifiedRoundTripIff(files: seq<FileText>)
    requires AllPrintable(files)
    ensures ParsedDiff(None, Split(DiffText(files), '\n')) == Ok(ChangesOf(files)) <==> AllShown(files)
  {
    TextReads(files);
    SeenAllIff(files);
  }

  /** What a copy, or a rename with a mode change, reads as: a modification of the path that the header names. */
  lemma StoppedHeaderReadsAsModified(f: FileText)
    requires Printable(f) && (f.change.status.Copied? || (f.change.status.Renamed? && f.mode.Some?))
    ensures ParsedDiff(None, Split(DiffText([f]), '\n')) ==
      match HeaderChange(HeaderOf(f))
      case Err => Err
      case Ok(start) => Ok([Change(Modified, start.path, "").(hunks := f.change.hunks)])
    ensures !NeedsQuotes(f.change.path, f.full) ==>
      HeaderChange(HeaderOf(f)) == Ok(Change(Modified, HeaderPath(f.change.path), ""))
  {
    TextReads([f]);
    if !NeedsQuotes(f.change.path, f.full) { PlainHeaderReads(LeftPath(f.change), f.change.path, f.full); }
    assert SeenOf([f]) == [Seen(f)] && SeenOf([f])[1..] == [];
    if Seen(f).Ok? { assert [Seen(f).value] + [] == [Seen(f).value]; }
  }

  /** One file with a path that needs quotes, kept in place and without a separator, fails the whole diff. */
  lemma QuotedPathFailsAll(files: seq<FileText>, i: nat)
    requires AllPrintable(files) && i < |files|
    requires !files[i].change.status.Renamed? && !files[i].change.status.Copied?
    requires NeedsQuotes(files[i].change.path, files[i].full) && !HidesPath(files[i].change)
    ensures ParsedDiff(None, Split(DiffText(files), '\n')) == Err
  {
    var f := files[i];
    TextReads(files);
    QuotedHeaderReads(f.change.path, f.full);
    AfterLastIff(f.change.path);
    CollectedFails(SeenOf(files), i);
  }
}
