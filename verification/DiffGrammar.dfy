/** What texts the parsers of gitdiff/gitdiff.go accept, printed by git or not, and which ones they refuse. */
module DiffGrammar {
  import opened Basics
  import opened DiffParser
  import opened DiffRoundTrip
  import opened GitDiff
  import opened Text
  import opened UnifiedDiff

  // ----- lines of a name-status list

  /** The text in front of the first tab. */
  function FirstField(s: string): string { Split(s, '\t')[0] }

  lemma LineParts(code: string, rest: string)
    requires '\t' !in code
    ensures Split(code + ['\t'] + rest, '\t') == [code] + Split(rest, '\t')
  {
    SplitAt(code, '\t', rest);
    SplitPlain(code, '\t');
  }

  /** A line without a tab is malformed. */
  lemma NoTabFails(line: string)
    requires '\t' !in line
    ensures LineChange(line) == Err
  {
    SplitPlain(line, '\t');
  }

  /** With one of the letters A, M and D the first field is the path; what follows it does not matter. */
  lemma PlainLineReads(code: string, rest: string)
    requires '\t' !in code
    ensures code == "A" ==> LineChange(code + ['\t'] + rest) == Ok(Change(Added, FirstField(rest), ""))
    ensures code == "M" ==> LineChange(code + ['\t'] + rest) == Ok(Change(Modified, FirstField(rest), ""))
    ensures code == "D" ==> LineChange(code + ['\t'] + rest) == Ok(Change(Deleted, FirstField(rest), ""))
  {
    LineParts(code, rest);
  }

  /** With R or C and any score there must be two fields, the old path and the new one. */
  lemma MovedLineReads(code: string, from: string, rest: string)
    requires code != "" && (code[0] == 'R' || code[0] == 'C') && '\t' !in code && '\t' !in from
    ensures LineChange(code + ['\t'] + from) == Err
    ensures LineChange(code + ['\t'] + (from + ['\t'] + rest))
            == Ok(Change(if code[0] == 'R' then Renamed else Copied, FirstField(rest), from))
  {
    LineParts(code, from);
    SplitPlain(from, '\t');
    LineParts(code, from + ['\t'] + rest);
    LineParts(from, rest);
    assert Starts(code, "R") <==> code[0] == 'R';
    assert Starts(code, "C") <==> code[0] == 'C';
  }

  /** Any other code is an error. */
  lemma OtherLineFails(code: string, rest: string)
    requires '\t' !in code && code !in {"A", "M", "D"} && (code == "" || code[0] !in {'R', 'C'})
    ensures LineChange(code + ['\t'] + rest) == Err
  {
    LineParts(code, rest);
  }

  /** One malformed line fails the whole list; otherwise there is one change for each line that is not blank. */
  lemma {:induction false} NamesFailIff(lines: seq<string>)
    ensures ParsedNames(lines).Err? <==> exists i :: 0 <= i < |lines| && lines[i] != "" && LineChange(lines[i]).Err?
    ensures ParsedNames(lines).Ok? ==> |ParsedNames(lines).value| == |Places(lines, NotBlank)|
    decreases |lines|
  {
    PlacesCons(lines, NotBlank);
    if lines != [] {
      NamesFailIff(lines[1..]);
      if i :| 0 <= i < |lines| && lines[i] != "" && LineChange(lines[i]).Err? {
        if i > 0 { assert lines[1..][i - 1] == lines[i]; }
      }
      if i :| 0 <= i < |lines[1..]| && lines[1..][i] != "" && LineChange(lines[1..][i]).Err? {
        assert lines[i + 1] == lines[1..][i];
      }
    }
  }

  predicate NotBlank(line: string) { line != "" }

  // ----- hunk headers

  predicate AllDigits(s: string) { s != "" && forall i :: 0 <= i < |s| ==> '0' <= s[i] <= '9' }

  /** A number, or two with a comma in between; without the second one the count is 1. */
  ghost predicate SpellsRange(text: string, start: int, count: int) {
    || (AllDigits(text) && start == Number(text) && count == 1)
    || exists a: string, b: string ::
         AllDigits(a) && AllDigits(b) && text == a + ([','] + b) && start == Number(a) && count == Number(b)
  }

  lemma {:induction false} DigitsMaximal(s: string)
    ensures var (ds, rest) := TakeDigits(s);
      && (forall i :: 0 <= i < |ds| ==> IsDigit(ds[i])) && (rest == "" || !IsDigit(rest[0]))
  {
    if s != "" && IsDigit(s[0]) { DigitsMaximal(s[1..]); }
  }

  lemma RangeIsRead(text: string, start: int, count: int, rest: string)
    requires SpellsRange(text, start, count) && rest != "" && rest[0] == ' '
    ensures TakeRange(text + rest).Some?
    ensures var (s, c, tail) := TakeRange(text + rest).value; s == start && c == count && tail == rest
  {
    if AllDigits(text) && start == Number(text) && count == 1 {
      DigitsTaken(text, rest);
    } else {
      var a: string, b: string :| AllDigits(a) && AllDigits(b) && text == a + ([','] + b) && start == Number(a)
        && count == Number(b);
      var comma := [','] + (b + rest);
      assert text + rest == a + comma && comma[1..] == b + rest;
      DigitsTaken(a, comma);
      DigitsTaken(b, rest);
    }
  }

  lemma ReadRangeIsSpelled(s: string)
    requires TakeRange(s).Some? && TakeRange(s).value.2 != "" && TakeRange(s).value.2[0] == ' '
    ensures var (start, count, tail) := TakeRange(s).value;
      exists text: string :: SpellsRange(text, start, count) && s == text + tail
  {
    var (a, rest) := TakeDigits(s);
    DigitsMaximal(s);
    if rest != "" && rest[0] == ',' && TakeDigits(rest[1..]).0 != "" {
      var (b, tail) := TakeDigits(rest[1..]);
      DigitsMaximal(rest[1..]);
      TwoNumbers(a, b);
      Glue(s, a, rest, b, tail);
    } else {
      assert SpellsRange(a, Number(a), 1);
    }
  }

  lemma Glue(s: string, a: string, rest: string, b: string, tail: string)
    requires s == a + rest && rest != "" && rest[0] == ',' && rest[1..] == b + tail
    ensures s == (a + ([','] + b)) + tail
  {
    assert rest == [','] + (b + tail);
  }

  lemma TwoNumbers(a: string, b: string)
    requires AllDigits(a) && AllDigits(b)
    ensures SpellsRange(a + ([','] + b), Number(a), Number(b))
  {
  }

  /** The pattern of a hunk header: both ranges, and anything behind the closing signs. */
  ghost predicate SpellsHunk(line: string, h: Hunk) {
    exists a: string, b: string, section: string ::
      && SpellsRange(a, h.oldStart, h.oldCount) && SpellsRange(b, h.newStart, h.newCount)
      && line == "@@ -" + (a + (" +" + (b + (" @@" + section))))
  }

  /** A line is read as a hunk exactly when it is written as one; every other line is malformed. */
  lemma HunkIff(line: string, h: Hunk)
    ensures HunkOf(line) == Ok(h) <==> SpellsHunk(line, h)
  {
    if SpellsHunk(line, h) {
      var a: string, b: string, section: string :| SpellsRange(a, h.oldStart, h.oldCount)
        && SpellsRange(b, h.newStart, h.newCount) && line == "@@ -" + (a + (" +" + (b + (" @@" + section))));
      SpelledHunkReads(a, b, section, h);
    }
    if HunkOf(line) == Ok(h) { ReadHunkIsSpelled(line, h); }
  }

  lemma SpelledHunkReads(a: string, b: string, section: string, h: Hunk)
    requires SpellsRange(a, h.oldStart, h.oldCount) && SpellsRange(b, h.newStart, h.newCount)
    ensures HunkOf("@@ -" + (a + (" +" + (b + (" @@" + section))))) == Ok(h)
  {
    var tail := " @@" + section;
    var right := b + tail;
    assert ("@@ -" + (a + (" +" + right)))[4..] == a + (" +" + right);
    RangeIsRead(a, h.oldStart, h.oldCount, " +" + right);
    assert (" +" + right)[2..] == right;
    RangeIsRead(b, h.newStart, h.newCount, tail);
  }

  lemma ReadHunkIsSpelled(line: string, h: Hunk)
    requires HunkOf(line) == Ok(h)
    ensures SpellsHunk(line, h)
  {
    var left := line[4..];
    assert line == "@@ -" + left;
    var (s1, c1, rest) := TakeRange(left).value;
    ReadRangeIsSpelled(left);
    var a: string :| SpellsRange(a, s1, c1) && left == a + rest;
    var right := rest[2..];
    assert rest == " +" + right;
    var (s2, c2, tail) := TakeRange(right).value;
    ReadRangeIsSpelled(right);
    var b: string :| SpellsRange(b, s2, c2) && right == b + tail;
    assert tail == " @@" + tail[3..];
  }

  // ----- file headers

  function IsSpace(): char -> bool { (c: char) => c == ' ' }

  lemma {:induction false} SpacesAre(s: string)
    ensures Spaces(s) == |Places(s, IsSpace())|
  {
    PlacesCons(s, IsSpace());
    if s != "" { SpacesAre(s[1..]); }
  }

  /** A header names the path behind its last " b/", and is malformed without one, or with fewer than three spaces. */
  lemma HeaderIff(line: string, path: string)
    ensures HeaderChange(line) == Ok(Change(Modified, path, "")) <==>
      && |Places(line, IsSpace())| >= 3
      && exists front: string :: line == front + (" b/" + path) && NoSeparatorIn(path)
    ensures HeaderChange(line).Ok? ==> exists p: string :: HeaderChange(line) == Ok(Change(Modified, p, ""))
  {
    SpacesAre(line);
    if HeaderChange(line).Ok? {
      var p := AfterLast(line).value;
      LastIsBehind(line);
      assert HeaderChange(line) == Ok(Change(Modified, p, ""));
    }
    if front: string :| line == front + (" b/" + path) && NoSeparatorIn(path) { BehindIsLast(front, path); }
  }

  ghost predicate NoSeparatorIn(s: string) { forall front: string, back: string :: s != front + (" b/" + back) }

  lemma NoSeparatorIff(s: string)
    ensures NoSeparatorIn(s) <==> AfterLast(s).None?
  {
    AfterLastIff(s);
    if i: nat :| SeparatorAt(s, i) { assert s == s[..i] + (" b/" + s[i..][3..]); }
    forall front: string, back: string | s == front + (" b/" + back) ensures SeparatorAt(s, |front|) {
      assert s[|front|..] == " b/" + back;
    }
  }

  lemma {:induction false} LastIsBehind(s: string)
    requires AfterLast(s).Some?
    ensures exists front: string :: s == front + (" b/" + AfterLast(s).value)
    ensures NoSeparatorIn(AfterLast(s).value)
  {
    AfterLastIsLast(s);
    NoSeparatorIff(AfterLast(s).value);
    if AfterLast(s[1..]).Some? {
      LastIsBehind(s[1..]);
      var front: string :| s[1..] == front + (" b/" + AfterLast(s).value);
      assert s == ([s[0]] + front) + (" b/" + AfterLast(s).value);
    } else {
      assert s == "" + (" b/" + s[3..]);
    }
  }

  lemma BehindIsLast(front: string, path: string)
    requires NoSeparatorIn(path)
    ensures AfterLast(front + (" b/" + path)) == Some(path)
  {
    NoSeparatorIff(path);
    var back := " b/" + path;
    assert back[1..] == "b/" + path && back[3..] == path;
    AfterLastSkipWord("b/", path);
    AfterLastAppend(front, back);
  }

  // ----- which diffs are refused, and how many changes the others have

  /** Line `i` is a malformed header, or a malformed hunk behind some header. */
  ghost predicate Malformed(lines: seq<string>, started: bool, i: nat) {
    i < |lines| &&
    (if Starts(lines[i], "diff --git ") then HeaderChange(lines[i]).Err?
     else Starts(lines[i], "@@") && HunkOf(lines[i]).Err? && (started || HeaderBefore(lines, i)))
  }

  ghost predicate SomeMalformed(lines: seq<string>, started: bool) {
    exists i: nat :: Malformed(lines, started, i)
  }

  ghost predicate HeaderBefore(lines: seq<string>, i: nat) {
    exists j: nat :: j < i && j < |lines| && Starts(lines[j], "diff --git ")
  }

  predicate IsHeader(line: string) { Starts(line, "diff --git ") }

  /** The lines that the scan of a header takes are neither headers nor hunks. */
  lemma {:induction false} ScannedAreMeta(c: FileChange, lines: seq<string>)
    ensures forall i :: 0 <= i < Scan(c, lines).1 ==> !Starts(lines[i], "diff --git ") && !Starts(lines[i], "@@")
    decreases |lines|
  {
    if lines != [] && Meta(c, lines[0]).Some? {
      MetaIsNeither(c, lines[0]);
      ScannedAreMeta(Meta(c, lines[0]).value, lines[1..]);
      assert forall i :: 0 < i < Scan(c, lines).1 ==> lines[i] == lines[1..][i - 1];
    }
  }

  lemma MetaIsNeither(c: FileChange, line: string)
    requires Meta(c, line).Some?
    ensures !Starts(line, "diff --git ") && !Starts(line, "@@")
  {
    assert line[0] in "ndrsi-+";
    assert line[0] == 'd' ==> line[1] == 'e' || line[2] == 's';
  }

  /** Lines that are neither headers nor hunks in front do not matter. */
  lemma MalformedBehind(lines: seq<string>, started: bool, n: nat)
    requires n <= |lines|
    requires forall i :: 0 <= i < n ==> !Starts(lines[i], "diff --git ") && !Starts(lines[i], "@@")
    ensures SomeMalformed(lines, started) <==> SomeMalformed(lines[n..], started)
  {
    forall i: nat | i + n < |lines| ensures HeaderBefore(lines, i + n) <==> HeaderBefore(lines[n..], i) {
      if j: nat :| j < i + n && j < |lines| && Starts(lines[j], "diff --git ") { assert lines[n..][j - n] == lines[j]; }
      if j: nat :| j < i && j < |lines[n..]| && Starts(lines[n..][j], "diff --git ") {
        assert lines[j + n] == lines[n..][j];
      }
    }
    if i: nat :| Malformed(lines, started, i) { assert Malformed(lines[n..], started, i - n); }
    if i: nat :| Malformed(lines[n..], started, i) { assert Malformed(lines, started, i + n); }
  }

  lemma MalformedFirst(lines: seq<string>, started: bool, after: bool)
    requires lines != [] && after == (started || IsHeader(lines[0]))
    ensures SomeMalformed(lines, started) <==>
      Malformed(lines, started, 0) || SomeMalformed(lines[1..], after)
  {
    if i: nat :| Malformed(lines, started, i) {
      if i > 0 {
        MalformedShift(lines, started, after, i - 1);
        assert Malformed(lines[1..], after, i - 1);
      }
    }
    if i: nat :| Malformed(lines[1..], after, i) {
      MalformedShift(lines, started, after, i);
      assert Malformed(lines, started, i + 1);
    }
  }

  lemma MalformedShift(lines: seq<string>, started: bool, after: bool, i: nat)
    requires lines != [] && after == (started || IsHeader(lines[0])) && i < |lines| - 1
    ensures Malformed(lines, started, i + 1) <==> Malformed(lines[1..], after, i)
  {
    assert lines[1..][i] == lines[i + 1];
    if j: nat :| j < i + 1 && j < |lines| && Starts(lines[j], "diff --git ") {
      if j > 0 { assert lines[1..][j - 1] == lines[j]; }
    }
    if j: nat :| j < i && j < |lines[1..]| && Starts(lines[1..][j], "diff --git ") {
      assert lines[j + 1] == lines[1..][j];
    }
  }

  lemma FirstMalformed(lines: seq<string>, started: bool)
    requires lines != []
    ensures Malformed(lines, started, 0) <==>
      if IsHeader(lines[0]) then HeaderChange(lines[0]).Err?
      else started && Starts(lines[0], "@@") && HunkOf(lines[0]).Err?
    ensures Malformed(lines, started, 0) ==> SomeMalformed(lines, started)
  {
    assert !HeaderBefore(lines, 0);
  }

  /** Behind a good header and the lines that belong to it. */
  lemma BehindHeader(lines: seq<string>, started: bool)
    requires lines != [] && Starts(lines[0], "diff --git ") && HeaderChange(lines[0]).Ok?
    ensures var n := Scan(HeaderChange(lines[0]).value, lines[1..]).1;
      SomeMalformed(lines, started) <==> SomeMalformed(lines[1 + n..], true)
  {
    var n := Scan(HeaderChange(lines[0]).value, lines[1..]).1;
    MalformedFirst(lines, started, true);
    ScannedAreMeta(HeaderChange(lines[0]).value, lines[1..]);
    MalformedBehind(lines[1..], true, n);
    assert lines[1..][n..] == lines[1 + n..];
  }

  /** A diff is refused exactly when a header is malformed, or a hunk behind some header is. */
  lemma {:induction false} DiffFailsIff(current: Option<FileChange>, lines: seq<string>)
    ensures ParsedDiff(current, lines).Err? <==> SomeMalformed(lines, current.Some?)
    decreases |lines|
  {
    if lines != [] {
      MalformedFirst(lines, current.Some?, current.Some? || IsHeader(lines[0]));
      FirstMalformed(lines, current.Some?);
      if Starts(lines[0], "diff --git ") {
        if HeaderChange(lines[0]).Ok? {
          var (d, n) := Scan(HeaderChange(lines[0]).value, lines[1..]);
          BehindHeader(lines, current.Some?);
          DiffFailsIff(Some(d), lines[1 + n..]);
        }
      } else if current.Some? && Starts(lines[0], "@@") {
        if HunkOf(lines[0]).Ok? {
          DiffFailsIff(Some(WithHunk(current.value, HunkOf(lines[0]).value)), lines[1..]);
        }
      } else {
        DiffFailsIff(current, lines[1..]);
      }
    }
  }

  /** A diff that is accepted has one change for each header. */
  lemma {:induction false} ChangesAreHeaders(current: Option<FileChange>, lines: seq<string>)
    requires ParsedDiff(current, lines).Ok?
    ensures |ParsedDiff(current, lines).value| == |Listed(current)| + |Places(lines, IsHeader)|
    decreases |lines|
  {
    PlacesCons(lines, IsHeader);
    if lines != [] {
      if Starts(lines[0], "diff --git ") {
        var (d, n) := Scan(HeaderChange(lines[0]).value, lines[1..]);
        ScannedAreMeta(HeaderChange(lines[0]).value, lines[1..]);
        PlacesBehind(lines[1..], IsHeader, n);
        assert lines[1..][n..] == lines[1 + n..];
        ChangesAreHeaders(Some(d), lines[1 + n..]);
      } else if current.Some? && Starts(lines[0], "@@") {
        ChangesAreHeaders(Some(WithHunk(current.value, HunkOf(lines[0]).value)), lines[1..]);
      } else {
        ChangesAreHeaders(current, lines[1..]);
      }
    }
  }
}
