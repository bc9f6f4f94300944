/**
 The per-repository claims database (db/claims.go): symbols, claims and source files.

 Rows refer to symbols by numeric id. Two databases are compared by subject key, so the
 abstract value of the claims table replaces every id by the key of the symbol it names.
 */
module ClaimsStore {
  import opened Basics
  import opened CacheStore

  /** UNIQUE(repo, import_path, symbol_name). */
  datatype SymbolKey = SymbolKey(repo: string, importPath: string, name: string)

  /** The mutable columns of a symbol. */
  datatype SymbolInfo = SymbolInfo(language: string, kind: string, visibility: string,
                                   displayName: string, scipSymbol: string)

  datatype SymbolRow = SymbolRow(key: SymbolKey, info: SymbolInfo)

  /** What a claim says, apart from its subject. */
  datatype Assertion = Assertion(predicateName: string, objectText: string, sourceFile: string, sourceLine: int,
                                 confidence: real, tier: string, extractor: string, extractorVersion: string)

  datatype ClaimRow = ClaimRow(subjectId: int, body: Assertion)

  /** A claim compared by subject key. */
  datatype Claim = Claim(subject: SymbolKey, body: Assertion)

  datatype FileRow = FileRow(stamp: Stamp, deleted: bool)

  type Files = map<Key, FileRow>

  // ----- statements on the abstract claims table, in insertion order

  /** SELECT ... WHERE source_file = path. */
  function FileClaims(cs: seq<Claim>, path: string): seq<Claim> {
    if cs == [] then []
    else (if cs[0].body.sourceFile == path then [cs[0]] else []) + FileClaims(cs[1..], path)
  }

  /** DELETE ... WHERE extractor = name AND source_file = path. */
  function DropClaims(cs: seq<Claim>, name: string, path: string): seq<Claim> {
    if cs == [] then []
    else (if cs[0].body.extractor == name && cs[0].body.sourceFile == path then [] else [cs[0]])
         + DropClaims(cs[1..], name, path)
  }

  predicate IsDropped(c: Claim, name: string, path: string) {
    c.body.extractor == name && c.body.sourceFile == path
  }

  lemma {:induction false} DropNothing(cs: seq<Claim>, name: string, path: string)
    requires forall c :: c in cs ==> !IsDropped(c, name, path)
    ensures DropClaims(cs, name, path) == cs
  {
    if cs != [] {
      assert cs[0] in cs;
      DropNothing(cs[1..], name, path);
    }
  }

  lemma {:induction false} FileClaimsAppend(a: seq<Claim>, b: seq<Claim>, path: string)
    ensures FileClaims(a + b, path) == FileClaims(a, path) + FileClaims(b, path)
  {
    if a == [] {
      assert a + b == b;
    } else {
      assert (a + b)[1..] == a[1..] + b;
      FileClaimsAppend(a[1..], b, path);
    }
  }

  lemma {:induction false} FileClaimsAll(cs: seq<Claim>, path: string)
    requires forall i :: 0 <= i < |cs| ==> cs[i].body.sourceFile == path
    ensures FileClaims(cs, path) == cs
    ensures forall q :: q != path ==> FileClaims(cs, q) == []
  {
    if cs != [] {
      FileClaimsAll(cs[1..], path);
    }
  }

  lemma {:induction false} FileClaimsMember(cs: seq<Claim>, path: string, c: Claim)
    ensures c in FileClaims(cs, path) <==> c in cs && c.body.sourceFile == path
  {
    if cs != [] {
      FileClaimsMember(cs[1..], path, c);
      assert c in cs <==> c == cs[0] || c in cs[1..];
    }
  }

  /** A delete leaves the other files alone, and at its own file keeps the foreign stamps. */
  lemma {:induction false} DropClaimsEffect(cs: seq<Claim>, name: string, path: string, q: string)
    ensures q != path ==> FileClaims(DropClaims(cs, name, path), q) == FileClaims(cs, q)
    ensures FileClaims(DropClaims(cs, name, path), path) == [] <==>
            forall c :: c in cs && c.body.sourceFile == path ==> c.body.extractor == name
    ensures forall c :: c in DropClaims(cs, name, path) ==> c in cs
  {
    if cs != [] {
      DropClaimsEffect(cs[1..], name, path, q);
      var head := if cs[0].body.extractor == name && cs[0].body.sourceFile == path then [] else [cs[0]];
      FileClaimsAppend(head, DropClaims(cs[1..], name, path), q);
      FileClaimsAppend(head, DropClaims(cs[1..], name, path), path);
      assert forall c :: c in cs <==> c == cs[0] || c in cs[1..];
    }
  }

  // ----- the rows

  datatype Tables = Tables(symbols: map<int, SymbolRow>, ids: map<SymbolKey, int>, claims: seq<ClaimRow>, files: Files)

  /** The unique index agrees with the rows, and every claim names a symbol. */
  ghost predicate Consistent(t: Tables) {
    && (forall k :: k in t.ids ==> t.ids[k] in t.symbols && t.symbols[t.ids[k]].key == k)
    && (forall i :: i in t.symbols ==> t.symbols[i].key in t.ids && t.ids[t.symbols[i].key] == i)
    && (forall c :: c in t.claims ==> c.subjectId in t.symbols)
  }

  ghost function Resolve(t: Tables, rows: seq<ClaimRow>): (cs: seq<Claim>)
    requires forall c :: c in rows ==> c.subjectId in t.symbols
    ensures |cs| == |rows|
    ensures forall i :: 0 <= i < |rows| ==> cs[i] == Claim(t.symbols[rows[i].subjectId].key, rows[i].body)
  {
    seq(|rows|, i requires 0 <= i < |rows| => Claim(t.symbols[rows[i].subjectId].key, rows[i].body))
  }

  function KeepOthers(rows: seq<ClaimRow>, name: string, path: string): (kept: seq<ClaimRow>)
    ensures forall c :: c in kept ==> c in rows
  {
    if rows == [] then []
    else (if rows[0].body.extractor == name && rows[0].body.sourceFile == path then [] else [rows[0]])
         + KeepOthers(rows[1..], name, path)
  }

  lemma {:induction false} ResolveDrop(t: Tables, rows: seq<ClaimRow>, name: string, path: string)
    requires forall c :: c in rows ==> c.subjectId in t.symbols
    ensures Resolve(t, KeepOthers(rows, name, path)) == DropClaims(Resolve(t, rows), name, path)
  {
    if rows != [] {
      ResolveDrop(t, rows[1..], name, path);
      assert Resolve(t, rows)[1..] == Resolve(t, rows[1..]);
      var keep := KeepOthers(rows, name, path);
      if rows[0].body.extractor == name && rows[0].body.sourceFile == path {
        assert keep == KeepOthers(rows[1..], name, path);
      } else {
        assert Resolve(t, keep) == [Resolve(t, rows)[0]] + Resolve(t, KeepOthers(rows[1..], name, path));
      }
    }
  }

  /** There is always an id above every id in use. */
  lemma {:induction false} FreshIdExists(used: set<int>) returns (id: int)
    ensures forall i :: i in used ==> i < id
  {
    id := 1;
    if x :| x in used {
      var rest := used - {x};
      var below := FreshIdExists(rest);
      id := if x >= below then x + 1 else below;
      assert forall i :: i in used ==> i == x || i in rest;
    }
  }

  class ClaimsDB {
    var tables: Tables
    var backup: Option<Tables>   // the state a rollback restores; Some while a transaction is open

    constructor ()
      ensures Valid() && backup == None && Claims() == [] && tables.files == map[]
    {
      tables := Tables(map[], map[], [], map[]);
      backup := None;
    }

    ghost predicate Valid()
      reads this
    {
      Consistent(tables) && (backup.Some? ==> Consistent(backup.value))
    }

    /** The claims table by subject key. */
    ghost function Claims(): seq<Claim>
      requires Valid()
      reads this
    {
      Resolve(tables, tables.claims)
    }

    method Begin(fails: bool) returns (r: Result<()>)
      requires Valid() && backup.None?
      modifies this
      ensures r.Err? <==> fails
      ensures Valid() && tables == old(tables)
      ensures if r.Ok? then backup == Some(tables) else backup == None
    {
      if fails { return Err; }
      backup := Some(tables);
      r := Ok(());
    }

    method Rollback()
      requires Valid() && backup.Some?
      modifies this
      ensures Valid() && tables == old(backup.value) && backup == None
    {
      tables := backup.value;
      backup := None;
    }

    /** A commit that fails leaves nothing of the transaction behind. */
    method Commit(fails: bool) returns (r: Result<()>)
      requires Valid() && backup.Some?
      modifies this
      ensures r.Err? <==> fails
      ensures Valid() && backup == None
      ensures tables == if r.Ok? then old(tables) else old(backup.value)
    {
      if fails {
        tables := backup.value;
        r := Err;
      } else {
        r := Ok(());
      }
      backup := None;
    }

    /** Insert or update by composite key; claims keep the subjects they had. */
    method UpsertSymbol(row: SymbolRow, fails: bool) returns (r: Result<int>)
      requires Valid()
      modifies this`tables
      ensures r.Err? <==> fails
      ensures Valid()
      ensures r.Err? ==> tables == old(tables)
      ensures Claims() == old(Claims())
      ensures tables.claims == old(tables.claims) && tables.files == old(tables.files)
      ensures r.Ok? ==> r.value in tables.symbols && tables.symbols[r.value] == row
      ensures r.Ok? ==> tables.symbols - {r.value} == old(tables.symbols) - {r.value}
      ensures r.Ok? && row.key in old(tables.ids) ==> r.value == old(tables.ids[row.key])
    {
      if fails { return Err; }
      var id: int;
      if row.key in tables.ids {
        id := tables.ids[row.key];
      } else {
        ghost var unused := FreshIdExists(tables.symbols.Keys);
        assert unused !in tables.symbols;
        id :| id !in tables.symbols;
      }
      ghost var before := tables;
      tables := tables.(symbols := tables.symbols[id := row], ids := tables.ids[row.key := id]);
      forall i | i in tables.symbols
        ensures tables.symbols[i].key in tables.ids && tables.ids[tables.symbols[i].key] == i
      {
        if i != id { assert before.symbols[i].key in before.ids && before.ids[before.symbols[i].key] == i; }
      }
      r := Ok(id);
    }

    method InsertClaim(row: ClaimRow, fails: bool) returns (r: Result<()>)
      requires Valid() && row.subjectId in tables.symbols
      modifies this`tables
      ensures r.Err? <==> fails
      ensures Valid()
      ensures tables.symbols == old(tables.symbols) && tables.ids == old(tables.ids)
      ensures tables.files == old(tables.files)
      ensures r.Err? ==> tables == old(tables)
      ensures r.Ok? ==> Claims() == old(Claims()) + [Claim(tables.symbols[row.subjectId].key, row.body)]
    {
      if fails { return Err; }
      tables := tables.(claims := tables.claims + [row]);
      r := Ok(());
    }

    method DeleteClaimsByExtractorAndFile(name: string, path: string, fails: bool) returns (r: Result<()>)
      requires Valid()
      modifies this`tables
      ensures r.Err? <==> fails
      ensures Valid()
      ensures tables.symbols == old(tables.symbols) && tables.ids == old(tables.ids)
      ensures tables.files == old(tables.files)
      ensures r.Err? ==> tables == old(tables)
      ensures r.Ok? ==> Claims() == DropClaims(old(Claims()), name, path)
    {
      if fails { return Err; }
      ResolveDrop(tables, tables.claims, name, path);
      tables := tables.(claims := KeepOthers(tables.claims, name, path));
      r := Ok(());
    }

    method UpsertSourceFile(k: Key, stamp: Stamp, deleted: bool, fails: bool) returns (r: Result<()>)
      requires Valid()
      modifies this`tables
      ensures r.Err? <==> fails
      ensures Valid() && Claims() == old(Claims())
      ensures r.Err? ==> tables == old(tables)
      ensures r.Ok? ==> tables.files == old(tables.files)[k := FileRow(stamp, deleted)]
    {
      if fails { return Err; }
      tables := tables.(files := tables.files[k := FileRow(stamp, deleted)]);
      r := Ok(());
    }

    /** The result says whether a row was found; only a failing statement is an error. */
    method MarkFileDeleted(k: Key, fails: bool) returns (r: Result<bool>)
      requires Valid()
      modifies this`tables
      ensures r.Err? <==> fails
      ensures Valid() && Claims() == old(Claims())
      ensures r.Err? ==> tables == old(tables)
      ensures r.Ok? ==> tables.files == FileTombstoned(old(tables.files), k) && r.value == (k in old(tables.files))
    {
      if fails { return Err; }
      r := Ok(k in tables.files);
      tables := tables.(files := FileTombstoned(tables.files, k));
    }
  }

  function FileTombstoned(fs: Files, k: Key): Files {
    if k in fs then fs[k := fs[k].(deleted := true)] else fs
  }
}
