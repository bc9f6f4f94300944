/** Reading a unified diff: one change per file header, with the line ranges of its hunks (gitdiff/gitdiff.go). */
module UnifiedDiff {
  import opened Basics
  import opened GitDiff
  import opened DiffParser
  import opened Text

  // ----- hunk headers: @@ -start[,count] +start[,count] @@

  predicate IsDigit(c: char) { '0' <= c <= '9' }

  /** The digits in front, and what follows them. */
  function TakeDigits(s: string): (r: (string, string))
    ensures r.0 + r.1 == s && |r.1| <= |s|
  {
    if s != "" && IsDigit(s[0]) then
      var (ds, rest) := TakeDigits(s[1..]);
      ([s[0]] + ds, rest)
    else ("", s)
  }

  function Number(digits: string): nat {
    if digits == "" then 0
    else
      var front, last := digits[..|digits| - 1], digits[|digits| - 1];
      10 * Number(front) + if IsDigit(last) then (last - '0') as nat else 0
  }

  /** A start and, after a comma, a count; without one the count is 1. */
  function TakeRange(s: string): Option<(nat, nat, string)> {
    var (start, rest) := TakeDigits(s);
    if start == "" then None
    else if rest != "" && rest[0] == ',' && TakeDigits(rest[1..]).0 != "" then
      Some((Number(start), Number(TakeDigits(rest[1..]).0), TakeDigits(rest[1..]).1))
    else Some((Number(start), 1, rest))
  }

  function HunkOf(line: string): Result<Hunk> {
    if !Starts(line, "@@ -") then Err
    else match TakeRange(line[4..])
      case None => Err
      case Some((oldStart, oldCount, rest)) =>
        if !Starts(rest, " +") then Err
        else match TakeRange(rest[2..])
          case None => Err
          case Some((newStart, newCount, tail)) =>
            if Starts(tail, " @@") then Ok(Hunk(oldStart, oldCount, newStart, newCount)) else Err
  }

  // ----- file headers

  function Spaces(s: string): nat {
    if s == "" then 0 else (if s[0] == ' ' then 1 else 0) + Spaces(s[1..])
  }

  /** What follows the last " b/". */
  function AfterLast(s: string): (r: Option<string>)
    ensures r.Some? ==> |r.value| < |s|
  {
    if s == "" then None
    else match AfterLast(s[1..])
      case Some(t) => Some(t)
      case None => if Starts(s, " b/") then Some(s[3..]) else None
  }

  /** The change a file header announces, before the lines that follow it are read. */
  function HeaderChange(line: string): Result<FileChange> {
    if Spaces(line) < 3 then Err
    else match AfterLast(line)
      case None => Err
      case Some(path) => Ok(Change(Modified, path, ""))
  }

  predicate Neutral(line: string) {
    || Starts(line, "similarity index")
    || Starts(line, "dissimilarity index")
    || Starts(line, "index ")
    || Starts(line, "--- ")
    || Starts(line, "+++ ")
  }

  /** One line after the header, if it still belongs to it. */
  function Meta(c: FileChange, line: string): Option<FileChange> {
    if Starts(line, "new file mode") then Some(c.(status := Added))
    else if Starts(line, "deleted file mode") then Some(c.(status := Deleted))
    else if Starts(line, "rename from ") then Some(c.(oldPath := line[|"rename from "|..], status := Renamed))
    else if Starts(line, "rename to ") then Some(c.(path := line[|"rename to "|..]))
    else if Neutral(line) then Some(c)
    else None
  }

  /** The change after its header lines, and how many there are. */
  function Scan(c: FileChange, lines: seq<string>): (r: (FileChange, nat))
    ensures r.1 <= |lines|
    decreases |lines|
  {
    if lines == [] then (c, 0)
    else match Meta(c, lines[0])
      case None => (c, 0)
      case Some(c') => var (d, n) := Scan(c', lines[1..]); (d, n + 1)
  }

  function Listed(current: Option<FileChange>): seq<FileChange> {
    if current.Some? then [current.value] else []
  }

  function WithHunk(c: FileChange, h: Hunk): FileChange { c.(hunks := c.hunks + [h]) }

  /** The changes that the lines describe, `current` being the file in progress. */
  function ParsedDiff(current: Option<FileChange>, lines: seq<string>): Result<seq<FileChange>>
    decreases |lines|
  {
    if lines == [] then Ok(Listed(current))
    else if Starts(lines[0], "diff --git ") then
      match HeaderChange(lines[0])
      case Err => Err
      case Ok(c) =>
        var (d, n) := Scan(c, lines[1..]);
        Prepend(Listed(current), ParsedDiff(Some(d), lines[1 + n..]))
    else if current.Some? && Starts(lines[0], "@@") then
      match HunkOf(lines[0])
      case Err => Err
      case Ok(h) => ParsedDiff(Some(WithHunk(current.value, h)), lines[1..])
    else ParsedDiff(current, lines[1..])
  }

  lemma PrependTwice(a: seq<FileChange>, b: seq<FileChange>, r: Result<seq<FileChange>>)
    ensures Prepend(a, Prepend(b, r)) == Prepend(a + b, r) && Prepend([], r) == r
  {
    if r.Ok? { assert a + (b + r.value) == a + b + r.value && [] + r.value == r.value; }
  }

  /** Read the header at `at` and the lines that belong to it; `next` is the first line after them. */
  method ParseDiffHeader(lines: seq<string>, at: nat) returns (r: Result<FileChange>, next: nat)
    requires at < |lines|
    ensures at < next <= |lines|
    ensures match HeaderChange(lines[at])
            case Err => r == Err
            case Ok(c) => r == Ok(Scan(c, lines[at + 1..]).0) && next == at + 1 + Scan(c, lines[at + 1..]).1
  {
    next := at + 1;
    var path := AfterLast(lines[at]);
    if Spaces(lines[at]) < 3 || path.None? { return Err, next; }
    var c := Change(Modified, path.value, "");
    ghost var start := c;
    while next < |lines|
      invariant at < next <= |lines|
      invariant Scan(start, lines[at + 1..]) == (Scan(c, lines[next..]).0, next - at - 1 + Scan(c, lines[next..]).1)
    {
      var line := lines[next];
      assert lines[next..][1..] == lines[next + 1..];
      if Starts(line, "new file mode") {
        c := c.(status := Added);
      } else if Starts(line, "deleted file mode") {
        c := c.(status := Deleted);
      } else if Starts(line, "rename from ") {
        c := c.(oldPath := line[|"rename from "|..], status := Renamed);
      } else if Starts(line, "rename to ") {
        c := c.(path := line[|"rename to "|..]);
      } else if !Neutral(line) {
        return Ok(c), next;
      }
      next := next + 1;
    }
    r := Ok(c);
  }

  method ParseUnifiedDiff(output: string) returns (r: Result<seq<FileChange>>)
    ensures r == ParsedDiff(None, Split(output, '\n'))
  {
    if output == "" {
      assert ParsedDiff(None, [""][1..]) == Ok([]);
      return Ok([]);
    }
    var changes, current: Option<FileChange> := [], None;
    var lines := Split(output, '\n');
    var i := 0;
    PrependTwice([], [], ParsedDiff(None, lines));
    while i < |lines|
      invariant i <= |lines| && ParsedDiff(None, lines) == Prepend(changes, ParsedDiff(current, lines[i..]))
      decreases |lines| - i
    {
      var line := lines[i];
      assert lines[i..][1..] == lines[i + 1..];
      if Starts(line, "diff --git ") {
        var header, next := ParseDiffHeader(lines, i);
        if header.Err? { return Err; }
        assert lines[i..][1 + (next - i - 1)..] == lines[next..];
        PrependTwice(changes, Listed(current), ParsedDiff(Some(header.value), lines[next..]));
        if current.Some? { changes := changes + [current.value]; }
        current := Some(header.value);
        i := next;
      } else {
        if current.Some? && Starts(line, "@@") {
          var h := HunkOf(line);
          if h.Err? { return Err; }
          current := Some(WithHunk(current.value, h.value));
        }
        i := i + 1;
      }
    }
    assert changes + [] == changes;
    if current.Some? { changes := changes + [current.value]; }
    r := Ok(changes);
  }
}
