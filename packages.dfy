/**
 * The package entries a workspace records, and the upsert both add flows
 * perform on them (bin/index.js:133-158 and 509-543): an entry is identified
 * by its package name together with the directory it was added from; adding
 * an entry overwrites the first entry with the same identity, or appends.
 */
module Packages {

  /** One entry of a workspace's `packages` list. */
  datatype PackageEntry = PackageEntry(
    name: string,
    version: string,
    gitHash: string,
    path: string,
    timestamp: string,
    description: string,
    published: bool)

  /** Whether two entries describe the same package added from the same directory. */
  predicate SameKey(a: PackageEntry, b: PackageEntry) {
    a.name == b.name && a.path == b.path
  }

  /** The index of the first entry with the identity of `e`, or -1: the `findIndex` of the add flows. */
  function KeyIndex(ps: seq<PackageEntry>, e: PackageEntry): (r: int)
    ensures -1 <= r < |ps|
    ensures r >= 0 ==> SameKey(ps[r], e) && forall k :: 0 <= k < r ==> !SameKey(ps[k], e)
    ensures r == -1 ==> forall k :: 0 <= k < |ps| ==> !SameKey(ps[k], e)
  {
    if ps == [] then -1
    else if SameKey(ps[0], e) then 0
    else
      var r := KeyIndex(ps[1..], e);
      if r == -1 then -1 else r + 1
  }

  /** The list after adding `e`: the first entry with its identity is overwritten, otherwise `e` is pushed. */
  function Upserted(ps: seq<PackageEntry>, e: PackageEntry): (r: seq<PackageEntry>)
    ensures |r| == if KeyIndex(ps, e) >= 0 then |ps| else |ps| + 1
    ensures KeyIndex(r, e) >= 0 && r[KeyIndex(r, e)] == e
    ensures forall k :: 0 <= k < |ps| && !SameKey(ps[k], e) ==> r[k] == ps[k]
  {
    var i := KeyIndex(ps, e);
    if i >= 0 then
      assert SameKey(ps[i := e][i], e);
      ps[i := e]
    else
      assert SameKey((ps + [e])[|ps|], e);
      ps + [e]
  }

  /** `ps.findIndex(p => p.name === e.name && p.path === e.path)`, as the loop it is. */
  method FindIndex(ps: seq<PackageEntry>, e: PackageEntry) returns (i: int)
    ensures i == KeyIndex(ps, e)
  {
    i := 0;
    while i < |ps|
      invariant 0 <= i <= |ps|
      invariant forall k :: 0 <= k < i ==> !SameKey(ps[k], e)
    {
      if SameKey(ps[i], e) {
        return;
      }
      i := i + 1;
    }
    i := -1;
  }

  /** Whether no two entries share an identity. */
  predicate UniqueKeys(ps: seq<PackageEntry>) {
    forall j, k :: 0 <= j < k < |ps| ==> !SameKey(ps[j], ps[k])
  }

  /**
   * With an entry of the same identity present, the upsert overwrites the
   * first one: the length is unchanged and every other index keeps its entry.
   */
  lemma UpsertReplacesFirst(ps: seq<PackageEntry>, e: PackageEntry, i: nat)
    requires i < |ps| && SameKey(ps[i], e)
    requires forall k :: 0 <= k < i ==> !SameKey(ps[k], e)
    ensures var r := Upserted(ps, e);
      |r| == |ps| && r[i] == e && forall k :: 0 <= k < |ps| && k != i ==> r[k] == ps[k]
  {
  }

  /** With no entry of the same identity, the upsert appends: the list grows by one. */
  lemma UpsertAppends(ps: seq<PackageEntry>, e: PackageEntry)
    requires forall k :: 0 <= k < |ps| ==> !SameKey(ps[k], e)
    ensures Upserted(ps, e) == ps + [e]
  {
  }

  /** After an upsert the list holds `e`, and every identity it held before. */
  lemma UpsertContains(ps: seq<PackageEntry>, e: PackageEntry)
    ensures e in Upserted(ps, e)
    ensures forall p :: p in ps && !SameKey(p, e) ==> p in Upserted(ps, e)
  {
    var r := Upserted(ps, e);
    var i := KeyIndex(ps, e);
    forall p | p in ps && !SameKey(p, e) ensures p in r {
      var k :| 0 <= k < |ps| && ps[k] == p;
      assert r[k] == p;
    }
    if i >= 0 {
      assert r[i] == e;
    } else {
      assert r[|ps|] == e;
    }
  }

  /** Identities that were unique before an upsert are unique after it. */
  lemma UpsertKeepsKeysUnique(ps: seq<PackageEntry>, e: PackageEntry)
    requires UniqueKeys(ps)
    ensures UniqueKeys(Upserted(ps, e))
  {
    var r := Upserted(ps, e);
    var i := KeyIndex(ps, e);
    forall j, k | 0 <= j < k < |r| ensures !SameKey(r[j], r[k]) {
      if i >= 0 {
        if j == i {
          assert !SameKey(ps[i], ps[k]);
        } else if k == i {
          assert !SameKey(ps[j], ps[i]);
        }
      } else if k == |ps| {
        assert r[j] == ps[j];
      }
    }
  }

  /** Two upserts of the same identity leave the later entry where the first one put it. */
  lemma UpsertTwice(ps: seq<PackageEntry>, e1: PackageEntry, e2: PackageEntry)
    requires SameKey(e1, e2)
    ensures Upserted(Upserted(ps, e1), e2) == Upserted(ps, e2)
  {
    var i := KeyIndex(ps, e1);
    var r := Upserted(ps, e1);
    if i >= 0 {
      assert KeyIndex(r, e2) == i by {
        assert SameKey(r[i], e2);
        assert forall k :: 0 <= k < i ==> r[k] == ps[k];
      }
    } else {
      assert KeyIndex(r, e2) == |ps| by {
        assert SameKey(r[|ps|], e2);
        assert forall k :: 0 <= k < |ps| ==> r[k] == ps[k];
      }
      assert r[|ps| := e2] == ps + [e2];
    }
  }
}
