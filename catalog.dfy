/**
 The listing of every declared `"<METHOD> <PATH>"` pair of a definition
 (`loadApiPaths`): paths in ascending byte order, and within a path the methods
 in field order.
 */
module Catalog {
  import opened Text
  import opened Operations
  import opened Locator

  /** The path table of the canonical document. */
  type Paths = map<string, PathItem>

  /** Some enumeration of a set, in an order nobody relies on (Go's map iteration order). */
  ghost function Enumerate(ks: set<string>): (r: seq<string>)
    ensures multiset(r) == multiset(ks)
  {
    if ks == {} then []
    else
      var k :| k in ks;
      var r := [k] + Enumerate(ks - {k});
      assert multiset(ks) == multiset{k} + multiset(ks - {k});
      r
  }

  /** The path keys in ascending order, each once. */
  ghost function SortedKeys(paths: Paths): (r: seq<string>)
    ensures StrictlySorted(r)
    ensures forall k :: k in r <==> k in paths
  {
    var r := SortStrings(Enumerate(paths.Keys));
    assert forall k :: k in r <==> k in multiset(r);
    assert forall x :: multiset(r)[x] <= 1;
    DistinctFromMultiset(r);
    SortedDistinct(r);
    r
  }

  /** The listing lines of one path: each method followed by a space and the path. */
  function Lines(ops: seq<string>, path: string): (r: seq<string>)
    ensures |r| == |ops|
    ensures forall i :: 0 <= i < |ops| ==> r[i] == ops[i] + " " + path
  {
    seq(|ops|, i requires 0 <= i < |ops| => ops[i] + " " + path)
  }

  /** The listing for the given keys, in the given order. */
  function Entries(keys: seq<string>, paths: Paths): seq<string>
    requires forall k :: k in keys ==> k in paths
  {
    if |keys| == 0 then []
    else
      var path := keys[|keys| - 1];
      Entries(keys[..|keys| - 1], paths) + Lines(DeclaredOperations(paths[path].fields), path)
  }

  /** What `loadApiPaths` returns for a path table. */
  ghost function Catalogue(paths: Paths): seq<string>
  {
    Entries(SortedKeys(paths), paths)
  }

  /** The first loop of `loadApiPaths`: the path keys in map iteration order. */
  method CollectPaths(paths: Paths) returns (keys: seq<string>)
    ensures multiset(keys) == multiset(paths.Keys)
  {
    keys := [];
    var rest := paths.Keys;
    while rest != {}
      invariant rest <= paths.Keys
      invariant multiset(keys) == multiset(paths.Keys - rest)
      decreases |rest|
    {
      var s :| s in rest;
      assert paths.Keys - (rest - {s}) == (paths.Keys - rest) + {s};
      keys := keys + [s];
      rest := rest - {s};
    }
    assert paths.Keys - rest == paths.Keys;
  }

  /** The nested loops of `loadApiPaths`: one line per method of each path, in the given path order. */
  method ListPaths(keys: seq<string>, paths: Paths) returns (entries: seq<string>)
    requires forall k :: k in keys ==> k in paths
    ensures entries == Entries(keys, paths)
  {
    entries := [];
    for i := 0 to |keys|
      invariant entries == Entries(keys[..i], paths)
    {
      var path := keys[i];
      var ops := GetOperations(paths[path]);
      ghost var before := entries;
      for j := 0 to |ops|
        invariant entries == before + Lines(ops[..j], path)
      {
        LinesSnoc(ops, j, path);
        entries := entries + [ops[j] + " " + path];
      }
      assert ops[..|ops|] == ops;
      EntriesSnoc(keys, i, paths);
    }
    assert keys[..|keys|] == keys;
  }

  lemma EntriesSnoc(keys: seq<string>, i: nat, paths: Paths)
    requires i < |keys| && forall k :: k in keys ==> k in paths
    ensures Entries(keys[..i + 1], paths) == Entries(keys[..i], paths) + Lines(DeclaredOperations(paths[keys[i]].fields), keys[i])
  {
    assert keys[..i + 1][..i] == keys[..i];
  }

  lemma LinesSnoc(ops: seq<string>, j: nat, path: string)
    requires j < |ops|
    ensures Lines(ops[..j + 1], path) == Lines(ops[..j], path) + [ops[j] + " " + path]
  {
  }

  /** `loadApiPaths`: collects the path keys, sorts them, then lists every
      declared method of every path. Whatever order the map yields its keys in,
      the listing is the same. */
  method LoadApiPaths(paths: Paths) returns (entries: seq<string>)
    ensures entries == Catalogue(paths)
  {
    var sortedPaths := CollectPaths(paths);
    sortedPaths := SortStrings(sortedPaths);
    SortedUnique(sortedPaths, SortedKeys(paths));
    entries := ListPaths(sortedPaths, paths);
  }

  /** Total number of declared operations over the given keys. */
  function OperationCount(keys: seq<string>, paths: Paths): nat
    requires forall k :: k in keys ==> k in paths
  {
    if |keys| == 0 then 0
    else OperationCount(keys[..|keys| - 1], paths) + |DeclaredOperations(paths[keys[|keys| - 1]].fields)|
  }

  lemma {:induction false} EntriesLength(keys: seq<string>, paths: Paths)
    requires forall k :: k in keys ==> k in paths
    ensures |Entries(keys, paths)| == OperationCount(keys, paths)
    decreases |keys|
  {
    if |keys| > 0 {
      EntriesLength(keys[..|keys| - 1], paths);
    }
  }

  /** The listing has one line per declared operation. */
  lemma CatalogueLength(paths: Paths)
    ensures |Catalogue(paths)| == OperationCount(SortedKeys(paths), paths)
  {
    EntriesLength(SortedKeys(paths), paths);
  }

  lemma {:induction false} EntriesAppend(a: seq<string>, b: seq<string>, paths: Paths)
    requires forall k :: k in a ==> k in paths
    requires forall k :: k in b ==> k in paths
    ensures Entries(a + b, paths) == Entries(a, paths) + Entries(b, paths)
    decreases |b|
  {
    if |b| == 0 {
      assert a + b == a;
    } else {
      var init, last := b[..|b| - 1], b[|b| - 1];
      var block := Lines(DeclaredOperations(paths[last].fields), last);
      assert (a + b)[..|a + b| - 1] == a + init;
      assert (a + b)[|a + b| - 1] == last;
      assert forall k :: k in init ==> k in b;
      assert Entries(a + b, paths) == Entries(a + init, paths) + block;
      EntriesAppend(a, init, paths);
      assert Entries(b, paths) == Entries(init, paths) + block;
      assert (Entries(a, paths) + Entries(init, paths)) + block == Entries(a, paths) + (Entries(init, paths) + block);
    }
  }

  /** The block of each path sits after the blocks of all smaller paths and
      before those of all larger ones. */
  lemma CatalogueOrder(paths: Paths, n: nat)
    requires n < |SortedKeys(paths)|
    ensures var keys := SortedKeys(paths);
      Catalogue(paths) ==
        Entries(keys[..n], paths) + Lines(DeclaredOperations(paths[keys[n]].fields), keys[n]) + Entries(keys[n + 1..], paths)
  {
    var keys := SortedKeys(paths);
    assert keys == keys[..n] + [keys[n]] + keys[n + 1..];
    EntriesAppend(keys[..n] + [keys[n]], keys[n + 1..], paths);
    EntriesAppend(keys[..n], [keys[n]], paths);
    assert [keys[n]][..0] == [];
  }

  /** `e` is one of the lines listed for path `k`. */
  predicate ListedUnder(paths: Paths, k: string, e: string)
  {
    k in paths && e in Lines(DeclaredOperations(paths[k].fields), k)
  }

  /** A line is listed exactly when it is listed for one of the given keys. */
  lemma EntriesMembers(keys: seq<string>, paths: Paths, e: string)
    requires forall k :: k in keys ==> k in paths
    ensures e in Entries(keys, paths) <==> exists k :: k in keys && ListedUnder(paths, k, e)
  {
    if e in Entries(keys, paths) {
      EntriesListed(keys, paths, e);
    }
    if exists k :: k in keys && ListedUnder(paths, k, e) {
      var k :| k in keys && ListedUnder(paths, k, e);
      ListedEntries(keys, paths, k, e);
    }
  }

  lemma {:induction false} EntriesListed(keys: seq<string>, paths: Paths, e: string)
    requires forall k :: k in keys ==> k in paths
    requires e in Entries(keys, paths)
    ensures exists k :: k in keys && ListedUnder(paths, k, e)
    decreases |keys|
  {
    var init, path := keys[..|keys| - 1], keys[|keys| - 1];
    if e in Entries(init, paths) {
      EntriesListed(init, paths, e);
      var k :| k in init && ListedUnder(paths, k, e);
      assert k in keys;
    } else {
      assert ListedUnder(paths, path, e);
    }
  }

  lemma {:induction false} ListedEntries(keys: seq<string>, paths: Paths, k: string, e: string)
    requires forall k :: k in keys ==> k in paths
    requires k in keys && ListedUnder(paths, k, e)
    ensures e in Entries(keys, paths)
    decreases |keys|
  {
    var init, path := keys[..|keys| - 1], keys[|keys| - 1];
    if k != path {
      assert k in init;
      ListedEntries(init, paths, k, e);
    }
  }

  lemma LinesMembers(ops: seq<string>, path: string, e: string)
    ensures e in Lines(ops, path) <==> exists op :: op in ops && e == op + " " + path
  {
    var lines := Lines(ops, path);
    if e in lines {
      var i :| 0 <= i < |lines| && lines[i] == e;
      assert ops[i] in ops;
    }
    if exists op :: op in ops && e == op + " " + path {
      var op :| op in ops && e == op + " " + path;
      var i :| 0 <= i < |ops| && ops[i] == op;
      assert lines[i] == e;
    }
  }

  /** The listing holds exactly the declared method/path pairs; a path without
      operations contributes nothing. */
  lemma CatalogueMembers(paths: Paths, e: string)
    ensures e in Catalogue(paths) <==>
      exists k, op :: k in paths && op in DeclaredOperations(paths[k].fields) && e == op + " " + k
  {
    EntriesMembers(SortedKeys(paths), paths, e);
    if e in Catalogue(paths) {
      var k :| k in SortedKeys(paths) && ListedUnder(paths, k, e);
      LinesMembers(DeclaredOperations(paths[k].fields), k, e);
    }
    if exists k, op :: k in paths && op in DeclaredOperations(paths[k].fields) && e == op + " " + k {
      var k, op :| k in paths && op in DeclaredOperations(paths[k].fields) && e == op + " " + k;
      LinesMembers(DeclaredOperations(paths[k].fields), k, e);
      assert k in SortedKeys(paths) && ListedUnder(paths, k, e);
    }
  }

  /** For well-formed path items and paths that are non-empty and free of spaces,
      every listed line is a locator that splits back into a declared method and
      its path. */
  lemma CatalogueSplitsBack(paths: Paths)
    requires forall k :: k in paths ==> k != "" && ' ' !in k && WellFormed(paths[k])
    ensures forall e :: e in Catalogue(paths) ==>
      var parts := SplitPathString(e);
      parts.Some? && parts.value[1] in paths && parts.value[0] in DeclaredOperations(paths[parts.value[1]].fields)
  {
    forall e | e in Catalogue(paths)
      ensures var parts := SplitPathString(e);
        parts.Some? && parts.value[1] in paths && parts.value[0] in DeclaredOperations(paths[parts.value[1]].fields)
    {
      CatalogueMembers(paths, e);
      var k, op :| k in paths && op in DeclaredOperations(paths[k].fields) && e == op + " " + k;
      DeclaredOperationsShape(paths[k]);
      SplitPathStringOfLocator(op, k);
    }
  }
}
