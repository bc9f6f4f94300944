/** Reading the two outputs of git diff (gitdiff/gitdiff.go): name-status lists and unified diffs. */
module DiffParser {
  import opened Basics
  import opened GitDiff
  import opened Text

  function TrimNewlines(s: string): string {
    if s != "" && s[|s| - 1] == '\n' then TrimNewlines(s[..|s| - 1]) else s
  }

  predicate Starts(line: string, prefix: string) { prefix <= line }

  // ----- name-status

  function Change(status: Status, path: string, oldPath: string): FileChange {
    FileChange(status, path, oldPath, [])
  }

  function LineChange(line: string): Result<FileChange> {
    var parts := Split(line, '\t');
    if |parts| < 2 then Err
    else if parts[0] == "A" then Ok(Change(Added, parts[1], ""))
    else if parts[0] == "M" then Ok(Change(Modified, parts[1], ""))
    else if parts[0] == "D" then Ok(Change(Deleted, parts[1], ""))
    else if Starts(parts[0], "R") && |parts| >= 3 then Ok(Change(Renamed, parts[2], parts[1]))
    else if Starts(parts[0], "C") && |parts| >= 3 then Ok(Change(Copied, parts[2], parts[1]))
    else Err
  }

  function Prepend(changes: seq<FileChange>, r: Result<seq<FileChange>>): Result<seq<FileChange>> {
    match r
    case Err => Err
    case Ok(more) => Ok(changes + more)
  }

  /** One result for all: the first error, or every value in order. */
  function Collected(rs: seq<Result<FileChange>>): Result<seq<FileChange>> {
    if rs == [] then Ok([])
    else match rs[0]
      case Err => Err
      case Ok(c) => Prepend([c], Collected(rs[1..]))
  }

  lemma {:induction false} CollectedIff(rs: seq<Result<FileChange>>, cs: seq<FileChange>)
    requires |rs| == |cs|
    ensures Collected(rs) == Ok(cs) <==> forall i :: 0 <= i < |rs| ==> rs[i] == Ok(cs[i])
  {
    if rs != [] {
      CollectedIff(rs[1..], cs[1..]);
      assert [cs[0]] + cs[1..] == cs;
      if rs[0].Ok? && Collected(rs[1..]).Ok? {
        var first, more := rs[0].value, Collected(rs[1..]).value;
        assert ([first] + more)[0] == first && ([first] + more)[1..] == more;
      }
      if rs[0] == Ok(cs[0]) && forall i :: 0 <= i < |rs[1..]| ==> rs[1..][i] == Ok(cs[1..][i]) {
        forall i | 0 <= i < |rs| ensures rs[i] == Ok(cs[i]) {
          if i > 0 { assert rs[i] == rs[1..][i - 1]; }
        }
      }
    }
  }

  lemma {:induction false} CollectedFails(rs: seq<Result<FileChange>>, i: nat)
    requires i < |rs| && rs[i].Err?
    ensures Collected(rs).Err?
  {
    if i > 0 { CollectedFails(rs[1..], i - 1); }
  }

  function ParsedNames(lines: seq<string>): Result<seq<FileChange>> {
    if lines == [] then Ok([])
    else if lines[0] == "" then ParsedNames(lines[1..])
    else match LineChange(lines[0])
      case Err => Err
      case Ok(c) => Prepend([c], ParsedNames(lines[1..]))
  }

  lemma NamesStep(changes: seq<FileChange>, lines: seq<string>)
    requires lines != [] && lines[0] != "" && LineChange(lines[0]).Ok?
    ensures Prepend(changes, ParsedNames(lines)) ==
      Prepend(changes + [LineChange(lines[0]).value], ParsedNames(lines[1..]))
  {
    var c, rest := LineChange(lines[0]).value, ParsedNames(lines[1..]);
    if rest.Ok? { assert changes + ([c] + rest.value) == changes + [c] + rest.value; }
  }

  method ParseNameStatus(output: string) returns (r: Result<seq<FileChange>>)
    ensures r == ParsedNames(Split(output, '\n'))
  {
    TrimmedReadsSame(output);
    if output == "" { return Ok([]); }
    var changes := [];
    var lines := Split(TrimNewlines(output), '\n');
    assert Prepend([], ParsedNames(lines)) == ParsedNames(lines) by {
      if ParsedNames(lines).Ok? { assert [] + ParsedNames(lines).value == ParsedNames(lines).value; }
    }
    for i := 0 to |lines|
      invariant ParsedNames(lines) == Prepend(changes, ParsedNames(lines[i..]))
    {
      var line := lines[i];
      assert lines[i..][1..] == lines[i + 1..];
      if line != "" {
        var parts := Split(line, '\t');
        if |parts| < 2 { return Err; }
        var code := parts[0];
        var c;
        if code == "A" {
          c := Change(Added, parts[1], "");
        } else if code == "M" {
          c := Change(Modified, parts[1], "");
        } else if code == "D" {
          c := Change(Deleted, parts[1], "");
        } else if Starts(code, "R") {
          if |parts| < 3 { return Err; }
          c := Change(Renamed, parts[2], parts[1]);
        } else if Starts(code, "C") {
          if |parts| < 3 { return Err; }
          c := Change(Copied, parts[2], parts[1]);
        } else {
          return Err;
        }
        NamesStep(changes, lines[i..]);
        changes := changes + [c];
      }
    }
    assert changes + [] == changes;
    r := Ok(changes);
  }

  lemma {:induction false} BlankLast(lines: seq<string>)
    ensures ParsedNames(lines + [""]) == ParsedNames(lines)
  {
    if lines != [] {
      assert (lines + [""])[1..] == lines[1..] + [""];
      BlankLast(lines[1..]);
    }
  }

  lemma {:induction false} TrimmedReadsSame(s: string)
    ensures ParsedNames(Split(TrimNewlines(s), '\n')) == ParsedNames(Split(s, '\n'))
  {
    if s != "" && s[|s| - 1] == '\n' {
      var front := s[..|s| - 1];
      TrimmedReadsSame(front);
      assert s == front + ['\n'] + "";
      SplitAt(front, '\n', "");
      BlankLast(Split(front, '\n'));
    }
  }

  // ----- the files of a commit, for a diff against nothing

  function ListedFiles(lines: seq<string>): seq<FileChange> {
    if lines == [] then []
    else (if lines[0] == "" then [] else [Change(Added, lines[0], "")]) + ListedFiles(lines[1..])
  }

  lemma {:induction false} ListedAppend(a: seq<string>, b: seq<string>)
    ensures ListedFiles(a + b) == ListedFiles(a) + ListedFiles(b)
  {
    if a == [] {
      assert a + b == b;
    } else {
      assert (a + b)[1..] == a[1..] + b;
      ListedAppend(a[1..], b);
    }
  }

  lemma {:induction false} TrimmedListsSame(s: string)
    ensures ListedFiles(Split(TrimNewlines(s), '\n')) == ListedFiles(Split(s, '\n'))
  {
    if s != "" && s[|s| - 1] == '\n' {
      var front := s[..|s| - 1];
      TrimmedListsSame(front);
      assert s == front + ['\n'] + "";
      SplitAt(front, '\n', "");
      ListedAppend(Split(front, '\n'), [""]);
    }
  }

  /** Every line of the listing is an added file. */
  method ListAllFiles(output: string) returns (changes: seq<FileChange>)
    ensures changes == ListedFiles(Split(output, '\n'))
  {
    changes := [];
    var lines := Split(TrimNewlines(output), '\n');
    for i := 0 to |lines|
      invariant changes == ListedFiles(lines[..i])
    {
      assert lines[..i + 1] == lines[..i] + [lines[i]];
      ListedAppend(lines[..i], [lines[i]]);
      if lines[i] != "" { changes := changes + [Change(Added, lines[i], "")]; }
    }
    assert lines[..|lines|] == lines;
    TrimmedListsSame(output);
  }
}
