/** Changes between two commits (gitdiff/gitdiff.go). */
module GitDiff {
  import opened Basics

  datatype Status = Added | Modified | Deleted | Renamed | Copied

  /** A diff hunk: first line and line count, in the old file and in the new one. */
  datatype Hunk = Hunk(oldStart: int, oldCount: int, newStart: int, newCount: int)

  /** `oldPath` is empty unless the file was renamed or copied. */
  datatype FileChange = FileChange(status: Status, path: string, oldPath: string, hunks: seq<Hunk>)

  type Tree = map<string, string>   // path -> content

  predicate NamesLeaving(c: FileChange, p: string) {
    (c.status.Deleted? && c.path == p) || (c.status.Renamed? && c.oldPath != "" && c.oldPath == p)
  }

  predicate NamesChanged(c: FileChange, p: string) {
    !c.status.Deleted? && c.path == p
  }

  ghost predicate Leaves(changes: seq<FileChange>, p: string) {
    exists i :: 0 <= i < |changes| && NamesLeaving(changes[i], p)
  }

  ghost predicate Changes(changes: seq<FileChange>, p: string) {
    exists i :: 0 <= i < |changes| && NamesChanged(changes[i], p)
  }

  /** Paths that need re-extraction. */
  method ChangedPaths(changes: seq<FileChange>) returns (paths: seq<string>)
    ensures forall p :: p in paths <==> Changes(changes, p)
  {
    paths := [];
    for i := 0 to |changes|
      invariant forall p :: p in paths <==> exists k :: 0 <= k < i && NamesChanged(changes[k], p)
    {
      if changes[i].status != Deleted {
        assert NamesChanged(changes[i], changes[i].path);
        paths := paths + [changes[i].path];
      }
    }
  }

  /** Paths that no longer exist, the old names of renamed files among them. */
  method DeletedPaths(changes: seq<FileChange>) returns (paths: seq<string>)
    ensures forall p :: p in paths <==> Leaves(changes, p)
  {
    paths := [];
    for i := 0 to |changes|
      invariant forall p :: p in paths <==> exists k :: 0 <= k < i && NamesLeaving(changes[k], p)
    {
      var c := changes[i];
      if c.status == Deleted {
        assert NamesLeaving(c, c.path);
        paths := paths + [c.path];
      }
      if c.status == Renamed && c.oldPath != "" {
        assert NamesLeaving(c, c.oldPath);
        paths := paths + [c.oldPath];
      }
    }
  }

  /**
   What a name-status diff from `before` to `after` says: every file whose content is new is
   listed as changed, every file that is gone is listed as leaving, and nothing else is, except
   that an old name of a rename may at once be the new name of another file.
   It fails of what the program reads about commits whose changed paths git quotes: NameStatusRoundTrip
   gives the exact condition, for the list of the files of a first commit as well.
   */
  ghost predicate CorrectDiff(before: Tree, changes: seq<FileChange>, after: Tree) {
    && (forall p :: p in after && (p !in before || before[p] != after[p]) ==> Changes(changes, p))
    && (forall p :: p in before && p !in after ==> Leaves(changes, p))
    && (forall p :: Changes(changes, p) ==> p in after)
    && (forall p :: Leaves(changes, p) && p in after ==> Changes(changes, p))
  }

  // ----- what git means by a line of a diff

  /** One line of a diff, read by its status letter, paths and the two trees alone. */
  ghost predicate LineHolds(before: Tree, c: FileChange, after: Tree) {
    match c.status
    case Added => c.path !in before && c.path in after
    case Modified => c.path in before && c.path in after
    case Deleted => c.path in before && c.path !in after
    case Renamed => c.oldPath != "" && c.oldPath in before && c.path in after
    case Copied => c.oldPath in before && c.path in after
  }

  /** The line gives the path a content: it adds, edits, renames or copies to it. */
  predicate GivesContent(c: FileChange, p: string) {
    c.path == p && c.status in {Added, Modified, Renamed, Copied}
  }

  /** The line takes the path away: it deletes it, or renames it to another. */
  predicate TakesAway(c: FileChange, p: string) {
    (c.status == Deleted && c.path == p) || (c.status == Renamed && c.oldPath == p)
  }

  /**
   A diff as git prints it: every line holds, every file that is new or edited and every file that is gone has
   a line, and an old name that is there again has a line that gives it its content.
   */
  ghost predicate PlainDiff(before: Tree, cs: seq<FileChange>, after: Tree) {
    && (forall i :: 0 <= i < |cs| ==> LineHolds(before, cs[i], after))
    && (forall p :: p in after && (p !in before || before[p] != after[p]) ==>
          exists i :: 0 <= i < |cs| && GivesContent(cs[i], p))
    && (forall p :: p in before && p !in after ==> exists i :: 0 <= i < |cs| && TakesAway(cs[i], p))
    && (forall p :: p in after && (exists i :: 0 <= i < |cs| && TakesAway(cs[i], p)) ==>
          exists i :: 0 <= i < |cs| && GivesContent(cs[i], p))
  }

  /** The paths that a run is told to look at, and to tombstone, are those that the lines say. */
  lemma LinesName(cs: seq<FileChange>, p: string)
    requires p != ""
    ensures Changes(cs, p) <==> exists i :: 0 <= i < |cs| && GivesContent(cs[i], p)
    ensures Leaves(cs, p) <==> exists i :: 0 <= i < |cs| && TakesAway(cs[i], p)
  {
    forall i | 0 <= i < |cs| ensures NamesChanged(cs[i], p) <==> GivesContent(cs[i], p) {}
    forall i | 0 <= i < |cs| ensures NamesLeaving(cs[i], p) <==> TakesAway(cs[i], p) {}
  }

  /** What git prints about two commits is a correct diff, swapped names, edits and copies included. */
  lemma PlainDiffCorrect(before: Tree, cs: seq<FileChange>, after: Tree)
    requires PlainDiff(before, cs, after) && "" !in before && "" !in after
    ensures CorrectDiff(before, cs, after)
  {
    forall p ensures p != "" ==>
      && (Changes(cs, p) <==> exists i :: 0 <= i < |cs| && GivesContent(cs[i], p))
      && (Leaves(cs, p) <==> exists i :: 0 <= i < |cs| && TakesAway(cs[i], p))
    {
      if p != "" { LinesName(cs, p); }
    }
    forall p | Changes(cs, p) ensures p in after {
      var i :| 0 <= i < |cs| && NamesChanged(cs[i], p);
      assert LineHolds(before, cs[i], after);
    }
  }
}
