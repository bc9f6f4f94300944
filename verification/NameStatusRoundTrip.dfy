/**
 What git prints as a name-status list or a list of files, and when reading it gives the changes back
 (gitdiff/gitdiff.go).
 */
module NameStatusRoundTrip {
  import opened Basics
  import opened DiffParser
  import opened GitDiff
  import opened GitQuoting
  import opened Text

  // ----- the text git prints

  /** A line of the list: a change, with the score of a rename or copy, or a file that became another kind of file. */
  datatype Entry = Listed(change: FileChange, score: string) | TypeChange(path: string)

  predicate HasOldPath(c: FileChange) { c.status.Renamed? || c.status.Copied? }

  function Code(c: FileChange, score: string): string {
    match c.status
    case Added => "A"
    case Modified => "M"
    case Deleted => "D"
    case Renamed => "R" + score
    case Copied => "C" + score
  }

  function NameLine(e: Entry, full: bool): string {
    match e
    case TypeChange(path) => "T" + ['\t'] + Quoted(path, full)
    case Listed(c, score) =>
      Code(c, score) + ['\t'] +
      (if HasOldPath(c) then Quoted(c.oldPath, full) + ['\t'] + Quoted(c.path, full) else Quoted(c.path, full))
  }

  function NameList(es: seq<Entry>, full: bool): string {
    if es == [] then "" else NameLine(es[0], full) + ['\n'] + NameList(es[1..], full)
  }

  /** Scores are numbers; any text without a separator will do. */
  predicate PlainScore(e: Entry) { e.Listed? ==> '\t' !in e.score && '\n' !in e.score }

  ghost predicate PlainScores(es: seq<Entry>) {
    forall i :: 0 <= i < |es| ==> PlainScore(es[i])
  }

  /** The change a line stands for. */
  function Meant(e: Entry): FileChange {
    match e
    case Listed(c, _) => c
    case TypeChange(path) => Change(Modified, path, "")
  }

  function MeantBy(es: seq<Entry>): (r: seq<FileChange>)
    ensures |r| == |es| && forall i :: 0 <= i < |es| ==> r[i] == Meant(es[i])
  {
    seq(|es|, i requires 0 <= i < |es| => Meant(es[i]))
  }

  // ----- and how it reads

  /** The change with its paths as they are printed. */
  function WithPrinted(c: FileChange, full: bool): FileChange {
    Change(c.status, Quoted(c.path, full), if HasOldPath(c) then Quoted(c.oldPath, full) else "")
  }

  function Seen(e: Entry, full: bool): Result<FileChange> {
    match e
    case Listed(c, _) => Ok(WithPrinted(c, full))
    case TypeChange(_) => Err
  }

  function SeenList(es: seq<Entry>, full: bool): (rs: seq<Result<FileChange>>)
    ensures |rs| == |es| && forall i :: 0 <= i < |es| ==> rs[i] == Seen(es[i], full)
  {
    seq(|es|, i requires 0 <= i < |es| => Seen(es[i], full))
  }

  lemma TypeLineFails(rest: string)
    requires '\t' !in rest
    ensures LineChange("T" + ['\t'] + rest) == Err
  {
    SplitTwo("T", '\t', rest);
    assert "T"[0] == 'T';
  }

  lemma NameLineReads(e: Entry, full: bool)
    requires PlainScore(e)
    ensures NameLine(e, full) != "" && LineChange(NameLine(e, full)) == Seen(e, full)
  {
    match e
    case TypeChange(path) =>
      QuotedOneLine(path, full);
      TypeLineFails(Quoted(path, full));
    case Listed(c, score) =>
      var code, from, path := Code(c, score), Quoted(c.oldPath, full), Quoted(c.path, full);
      QuotedOneLine(c.path, full);
      QuotedOneLine(c.oldPath, full);
      if HasOldPath(c) {
        assert NameLine(e, full) == code + ['\t'] + from + ['\t'] + path;
        SplitThree(code, '\t', from, path);
        assert c.status.Renamed? ==> code[0] == 'R';
        assert c.status.Copied? ==> code[0] == 'C';
      } else {
        SplitTwo(code, '\t', path);
      }
  }

  lemma NameLineIsLine(e: Entry, full: bool)
    requires PlainScore(e)
    ensures '\n' !in NameLine(e, full)
  {
    match e
    case TypeChange(path) => QuotedOneLine(path, full);
    case Listed(c, _) =>
      QuotedOneLine(c.path, full);
      QuotedOneLine(c.oldPath, full);
  }

  /** What any printed list reads as: the changes with their paths as printed, or an error for a type change. */
  lemma {:induction false} NameListReads(es: seq<Entry>, full: bool)
    requires PlainScores(es)
    ensures ParsedNames(Split(NameList(es, full), '\n')) == Collected(SeenList(es, full))
  {
    if es != [] {
      var line, rest := NameLine(es[0], full), NameList(es[1..], full);
      NameLineReads(es[0], full);
      NameLineIsLine(es[0], full);
      SplitAt(line, '\n', rest);
      SplitPlain(line, '\n');
      assert ([line] + Split(rest, '\n'))[1..] == Split(rest, '\n');
      NameListReads(es[1..], full);
      assert SeenList(es, full)[0] == Seen(es[0], full) && SeenList(es, full)[1..] == SeenList(es[1..], full);
    }
  }

  /** The line shows the change: it is no type change, and its paths are printed as they are. */
  predicate Shown(e: Entry, full: bool) {
    && e.Listed? && e.change.hunks == [] && !NeedsQuotes(e.change.path, full)
    && (if HasOldPath(e.change) then !NeedsQuotes(e.change.oldPath, full) else e.change.oldPath == "")
  }

  ghost predicate AllShown(es: seq<Entry>, full: bool) {
    forall i :: 0 <= i < |es| ==> Shown(es[i], full)
  }

  lemma SeenIff(e: Entry, full: bool)
    ensures Seen(e, full) == Ok(Meant(e)) <==> Shown(e, full)
  {
    if e.Listed? {
      QuotedShape(e.change.path, full);
      QuotedShape(e.change.oldPath, full);
    }
  }

  /** Reading a printed list gives its changes back if and only if no path needs quotes and no line is a type change. */
  lemma NameStatusRoundTripIff(es: seq<Entry>, full: bool)
    requires PlainScores(es)
    ensures ParsedNames(Split(NameList(es, full), '\n')) == Ok(MeantBy(es)) <==> AllShown(es, full)
  {
    NameListReads(es, full);
    CollectedIff(SeenList(es, full), MeantBy(es));
    forall i | 0 <= i < |es| ensures SeenList(es, full)[i] == Ok(MeantBy(es)[i]) <==> Shown(es[i], full) {
      SeenIff(es[i], full);
    }
  }

  // ----- when the changes that are read describe the commits

  /** A correct diff that lists only real changes. */
  ghost predicate ExactDiff(before: Tree, cs: seq<FileChange>, after: Tree) {
    && CorrectDiff(before, cs, after)
    && (forall p :: Changes(cs, p) ==> p !in before || before[p] != after[p])
    && (forall p :: Leaves(cs, p) ==> p in before)
  }

  /** The paths that matter to a run. */
  ghost predicate Names(cs: seq<FileChange>, p: string) { Changes(cs, p) || Leaves(cs, p) }

  function Printed(cs: seq<FileChange>, full: bool): (r: seq<FileChange>)
    ensures |r| == |cs| && forall i :: 0 <= i < |cs| ==> r[i] == WithPrinted(cs[i], full)
  {
    seq(|cs|, i requires 0 <= i < |cs| => WithPrinted(cs[i], full))
  }

  lemma PrintedChanges(cs: seq<FileChange>, full: bool, q: string)
    ensures Changes(Printed(cs, full), q) <==> exists p :: Changes(cs, p) && Quoted(p, full) == q
  {
    var r := Printed(cs, full);
    if i :| 0 <= i < |r| && NamesChanged(r[i], q) {
      assert NamesChanged(cs[i], cs[i].path);
      assert Changes(cs, cs[i].path) && Quoted(cs[i].path, full) == q;
    }
    if p :| Changes(cs, p) && Quoted(p, full) == q {
      var i :| 0 <= i < |cs| && NamesChanged(cs[i], p);
      assert NamesChanged(r[i], q);
    }
  }

  lemma PrintedLeaves(cs: seq<FileChange>, full: bool, q: string)
    ensures Leaves(Printed(cs, full), q) <==> exists p :: Leaves(cs, p) && Quoted(p, full) == q
  {
    var r := Printed(cs, full);
    forall i | 0 <= i < |cs| ensures NamesLeaving(r[i], q) ==> exists p :: Leaves(cs, p) && Quoted(p, full) == q {
      if NamesLeaving(r[i], q) {
        QuotedShape(cs[i].oldPath, full);
        var p := if cs[i].status.Deleted? then cs[i].path else cs[i].oldPath;
        assert NamesLeaving(cs[i], p);
        assert Leaves(cs, p) && Quoted(p, full) == q;
      }
    }
    if p :| Leaves(cs, p) && Quoted(p, full) == q {
      var i :| 0 <= i < |cs| && NamesLeaving(cs[i], p);
      QuotedShape(p, full);
      assert NamesLeaving(r[i], q);
    }
  }

  /** A quoted path that is taken for another's name would have to be longer than that one: there is no shortest. */
  lemma {:induction false} NamedUnquoted(before: Tree, cs: seq<FileChange>, after: Tree, full: bool, q: string)
    requires ExactDiff(before, cs, after) && CorrectDiff(before, Printed(cs, full), after) && Names(cs, q)
    ensures !NeedsQuotes(q, full)
    decreases |q|
  {
    var p: string;
    if Changes(cs, q) {
      PrintedChanges(cs, full, q);
      p :| Changes(cs, p) && Quoted(p, full) == q;
    } else {
      PrintedLeaves(cs, full, q);
      p :| Leaves(cs, p) && Quoted(p, full) == q;
    }
    QuotedShape(p, full);
    if NeedsQuotes(p, full) { NamedUnquoted(before, cs, after, full, p); }
  }

  /**
   What a run is told about two commits is right if and only if no path that changed or left needs quotes.
   The paths that copies come from do not matter.
   */
  lemma ReadDiffCorrectIff(before: Tree, es: seq<Entry>, after: Tree, full: bool)
    requires PlainScores(es) && ExactDiff(before, MeantBy(es), after) && forall i :: 0 <= i < |es| ==> es[i].Listed?
    ensures ParsedNames(Split(NameList(es, full), '\n')) == Ok(Printed(MeantBy(es), full))
    ensures CorrectDiff(before, Printed(MeantBy(es), full), after) <==>
      forall p :: Names(MeantBy(es), p) ==> !NeedsQuotes(p, full)
  {
    var cs := MeantBy(es);
    NameListReads(es, full);
    CollectedIff(SeenList(es, full), Printed(cs, full));
    if CorrectDiff(before, Printed(cs, full), after) {
      forall p | Names(cs, p) ensures !NeedsQuotes(p, full) { NamedUnquoted(before, cs, after, full, p); }
    }
    if forall p :: Names(cs, p) ==> !NeedsQuotes(p, full) { UnquotedCorrect(before, cs, after, full); }
  }

  lemma UnquotedCorrect(before: Tree, cs: seq<FileChange>, after: Tree, full: bool)
    requires CorrectDiff(before, cs, after) && forall p :: Names(cs, p) ==> !NeedsQuotes(p, full)
    ensures CorrectDiff(before, Printed(cs, full), after)
  {
    var r := Printed(cs, full);
    forall q ensures (Changes(r, q) <==> Changes(cs, q)) && (Leaves(r, q) <==> Leaves(cs, q)) {
      PrintedChanges(cs, full, q);
      PrintedLeaves(cs, full, q);
      QuotedShape(q, full);
      forall p | Names(cs, p) ensures Quoted(p, full) == p { QuotedShape(p, full); }
    }
  }

  // ----- the files of a commit

  function TreeList(paths: seq<string>, full: bool): string {
    if paths == [] then "" else Quoted(paths[0], full) + ['\n'] + TreeList(paths[1..], full)
  }

  function AddedAll(paths: seq<string>): (cs: seq<FileChange>)
    ensures |cs| == |paths| && forall i :: 0 <= i < |paths| ==> cs[i] == Change(Added, paths[i], "")
  {
    seq(|paths|, i requires 0 <= i < |paths| => Change(Added, paths[i], ""))
  }

  lemma {:induction false} TreeListReads(paths: seq<string>, full: bool)
    requires "" !in paths
    ensures ListedFiles(Split(TreeList(paths, full), '\n')) == Printed(AddedAll(paths), full)
  {
    if paths != [] {
      var line, rest := Quoted(paths[0], full), TreeList(paths[1..], full);
      assert paths[0] in paths;
      QuotedOneLine(paths[0], full);
      QuotedShape(paths[0], full);
      SplitAt(line, '\n', rest);
      SplitPlain(line, '\n');
      assert ([line] + Split(rest, '\n'))[1..] == Split(rest, '\n');
      TreeListReads(paths[1..], full);
      AddedCons(paths, full);
    }
  }

  lemma AddedCons(paths: seq<string>, full: bool)
    requires paths != []
    ensures Printed(AddedAll(paths), full)
            == [Change(Added, Quoted(paths[0], full), "")] + Printed(AddedAll(paths[1..]), full)
  {
  }

  lemma AddedIsExact(paths: seq<string>, tree: Tree)
    requires Members(paths) == tree.Keys
    ensures ExactDiff(map[], AddedAll(paths), tree)
    ensures forall p :: (Changes(AddedAll(paths), p) <==> p in tree) && !Leaves(AddedAll(paths), p)
  {
    var cs := AddedAll(paths);
    forall p ensures (Changes(cs, p) <==> p in tree) && !Leaves(cs, p) {
      assert p in tree <==> p in Members(paths);
      if i :| 0 <= i < |paths| && paths[i] == p { assert NamesChanged(cs[i], p); }
    }
  }

  /** A first run is told the files of its commit if and only if none of their paths needs quotes. */
  lemma ReadTreeCorrectIff(paths: seq<string>, tree: Tree, full: bool)
    requires Members(paths) == tree.Keys && "" !in tree
    ensures CorrectDiff(map[], ListedFiles(Split(TreeList(paths, full), '\n')), tree) <==>
      forall p :: p in tree ==> !NeedsQuotes(p, full)
  {
    var cs := AddedAll(paths);
    AddedIsExact(paths, tree);
    forall p ensures Names(cs, p) <==> p in tree {}
    assert "" !in paths by { assert "" !in Members(paths); }
    TreeListReads(paths, full);
    if CorrectDiff(map[], Printed(cs, full), tree) {
      forall p | p in tree ensures !NeedsQuotes(p, full) { NamedUnquoted(map[], cs, tree, full, p); }
    }
    if forall p :: p in tree ==> !NeedsQuotes(p, full) { UnquotedCorrect(map[], cs, tree, full); }
  }
}
