/** Files that import a symbol of a changed file (pipeline/reversedep.go). */
module ReverseDeps {
  import opened Basics
  import opened ClaimsStore

  /** Import paths of the symbols that the listed files define. */
  ghost predicate DefinedBy(cs: seq<Claim>, changed: seq<string>, importPath: string) {
    exists c :: c in cs && c.body.predicateName == "defines" && c.body.sourceFile in changed
                && c.subject.importPath == importPath
  }

  /** An `imports` claim of the file names one of those import paths. */
  ghost predicate ImportsChanged(cs: seq<Claim>, changed: seq<string>, file: string) {
    exists c :: c in cs && c.body.predicateName == "imports" && c.body.sourceFile == file
                && DefinedBy(cs, changed, c.subject.name)
  }

  /** Exactly the importers that are not already listed, each once. */
  ghost predicate IsReverseDeps(cs: seq<Claim>, changed: seq<string>, result: seq<string>) {
    && NoDuplicates(result)
    && forall f :: f in result <==> ImportsChanged(cs, changed, f) && f !in changed
  }

  /** File by file: an importer has a claim that imports, by name, the import path of what a changed file defines. */
  lemma ImportersIff(cs: seq<Claim>, changed: seq<string>, result: seq<string>, f: string)
    requires IsReverseDeps(cs, changed, result)
    ensures f in result <==>
      f !in changed && exists g, c, d ::
        && g in changed && d in FileClaims(cs, g) && d.body.predicateName == "defines"
        && c in FileClaims(cs, f) && c.body.predicateName == "imports" && c.subject.name == d.subject.importPath
  {
    forall p, x ensures x in FileClaims(cs, p) <==> x in cs && x.body.sourceFile == p { FileClaimsIff(cs, p, x); }
    if ImportsChanged(cs, changed, f) {
      var c :| c in cs && c.body.predicateName == "imports" && c.body.sourceFile == f
               && DefinedBy(cs, changed, c.subject.name);
      var d :| d in cs && d.body.predicateName == "defines" && d.body.sourceFile in changed
               && d.subject.importPath == c.subject.name;
      assert d in FileClaims(cs, d.body.sourceFile) && c in FileClaims(cs, f);
    }
  }

  lemma {:induction false} FileClaimsIff(cs: seq<Claim>, path: string, c: Claim)
    ensures c in FileClaims(cs, path) <==> c in cs && c.body.sourceFile == path
  {
    if cs != [] {
      FileClaimsIff(cs[1..], path, c);
      assert c in cs <==> c == cs[0] || c in cs[1..];
    }
  }

  ghost predicate DefinedByFirst(cs: seq<Claim>, n: nat, changed: seq<string>, importPath: string)
    requires n <= |cs|
  {
    exists k :: 0 <= k < n && cs[k].body.predicateName == "defines" && cs[k].body.sourceFile in changed
                && cs[k].subject.importPath == importPath
  }

  ghost predicate ImportsAnyFirst(cs: seq<Claim>, n: nat, importPaths: set<string>, file: string)
    requires n <= |cs|
  {
    exists k :: 0 <= k < n && cs[k].body.predicateName == "imports" && cs[k].body.sourceFile == file
                && cs[k].subject.name in importPaths
  }

  lemma DefinedByAll(cs: seq<Claim>, changed: seq<string>, importPath: string)
    ensures DefinedByFirst(cs, |cs|, changed, importPath) <==> DefinedBy(cs, changed, importPath)
  {
    if DefinedBy(cs, changed, importPath) {
      var c :| c in cs && c.body.predicateName == "defines" && c.body.sourceFile in changed
               && c.subject.importPath == importPath;
      var k :| 0 <= k < |cs| && cs[k] == c;
    }
  }

  lemma ImportsAnyAll(cs: seq<Claim>, changed: seq<string>, importPaths: set<string>, file: string)
    requires forall ip :: ip in importPaths <==> DefinedBy(cs, changed, ip)
    ensures ImportsAnyFirst(cs, |cs|, importPaths, file) <==> ImportsChanged(cs, changed, file)
  {
    if ImportsChanged(cs, changed, file) {
      var c :| c in cs && c.body.predicateName == "imports" && c.body.sourceFile == file
               && DefinedBy(cs, changed, c.subject.name);
      var k :| 0 <= k < |cs| && cs[k] == c;
    }
  }

  /** Two passes over the claims, as the two queries make them; the seen set keeps files distinct. */
  method ReverseDepPaths(cs: seq<Claim>, changed: seq<string>) returns (result: seq<string>)
    ensures IsReverseDeps(cs, changed, result)
  {
    result := [];
    var importPaths: set<string> := {};
    for i := 0 to |cs|
      invariant forall ip :: ip in importPaths <==> DefinedByFirst(cs, i, changed, ip)
    {
      if cs[i].body.predicateName == "defines" && cs[i].body.sourceFile in changed {
        importPaths := importPaths + {cs[i].subject.importPath};
      }
    }
    forall ip ensures ip in importPaths <==> DefinedBy(cs, changed, ip) { DefinedByAll(cs, changed, ip); }
    for i := 0 to |cs|
      invariant NoDuplicates(result)
      invariant forall f :: f in result <==> ImportsAnyFirst(cs, i, importPaths, f) && f !in changed
    {
      var f := cs[i].body.sourceFile;
      if cs[i].body.predicateName == "imports" && cs[i].subject.name in importPaths && f !in changed && f !in result {
        result := result + [f];
      }
    }
    forall f ensures f in result <==> ImportsChanged(cs, changed, f) && f !in changed {
      ImportsAnyAll(cs, changed, importPaths, f);
    }
  }
}
