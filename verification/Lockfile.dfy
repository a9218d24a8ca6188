/** `prune_lockfile` in scripts/bench-cargo-debug.py: keeps exactly the packages a workspace
    crate needs, without ever choosing another version. The lockfile is taken as parsed:
    packages in file order, dependency strings as name with optional version and source. */
module Lockfile {
  import opened Common

  datatype Key = Key(name: string, version: string, source: Option<string>)

  /** `Unsupported` is a string the dependency pattern does not match. */
  datatype Dependency = Dependency(name: string, version: Option<string>, source: Option<string>) | Unsupported

  datatype Package = Package(key: Key, dependencies: seq<Dependency>)

  datatype Pruned =
    | Kept(packages: seq<Package>)
    | DuplicateIdentity
    | NoSingleRoot
    | Unresolved(dependency: Dependency)

  predicate IsRoot(k: Key) {
    k.name == "lucene-util" && k.source == None
  }

  // ---------------------------------------------------------------------------
  // Resolution
  // ---------------------------------------------------------------------------

  predicate Matches(k: Key, d: Dependency) {
    && d.Dependency? && k.name == d.name
    && (d.version.None? || k.version == d.version.value)
    && (d.source.None? || k.source == d.source)
  }

  function Candidates(ps: seq<Package>, d: Dependency): (keys: seq<Key>) {
    if ps == [] then []
    else
      var k := ps[|ps| - 1].key;
      Candidates(ps[..|ps| - 1], d) + if Matches(k, d) then [k] else []
  }

  /** `resolve`: the only candidate, or none. */
  function Resolve(ps: seq<Package>, d: Dependency): (k: Option<Key>) {
    var keys := Candidates(ps, d);
    if |keys| == 1 then Some(keys[0]) else None
  }

  ghost function KeysOf(ps: seq<Package>): set<Key> {
    set p | p in ps :: p.key
  }

  ghost predicate DistinctKeys(ps: seq<Package>) {
    forall i, j :: 0 <= i < j < |ps| ==> ps[i].key != ps[j].key
  }

  lemma {:induction false} CandidatesExact(ps: seq<Package>, d: Dependency)
    ensures forall k :: k in Candidates(ps, d) <==> k in KeysOf(ps) && Matches(k, d)
    decreases |ps|
  {
    hide Matches;
    if ps != [] {
      var init, last := ps[..|ps| - 1], ps[|ps| - 1];
      CandidatesExact(init, d);
      assert ps == init + [last];
      assert KeysOf(ps) == KeysOf(init) + {last.key};
    }
  }

  lemma {:induction false} CandidatesDistinct(ps: seq<Package>, d: Dependency)
    requires DistinctKeys(ps)
    ensures forall i, j :: 0 <= i < j < |Candidates(ps, d)| ==> Candidates(ps, d)[i] != Candidates(ps, d)[j]
    decreases |ps|
  {
    hide Matches;
    if ps != [] {
      var init, last := ps[..|ps| - 1], ps[|ps| - 1];
      CandidatesDistinct(init, d);
      CandidatesExact(init, d);
      var c := Candidates(init, d);
      assert forall i :: 0 <= i < |c| ==> c[i] in c;
    }
  }

  /** A dependency resolves to the only identity with its name and, where it gives them, its
      version and source. */
  lemma ResolveExact(ps: seq<Package>, d: Dependency, k: Key)
    requires DistinctKeys(ps)
    ensures Resolve(ps, d) == Some(k) <==>
            && d.Dependency? && k in KeysOf(ps) && k.name == d.name
            && (d.version == None || d.version == Some(k.version)) && (d.source == None || d.source == k.source)
            && forall x ::
                 (x in KeysOf(ps) && x.name == d.name && (d.version == None || d.version == Some(x.version)) &&
                  (d.source == None || d.source == x.source)) ==> x == k
  {
    hide Candidates;
    CandidatesExact(ps, d);
    CandidatesDistinct(ps, d);
    var c := Candidates(ps, d);
    assert forall x :: x in c ==> exists i :: 0 <= i < |c| && c[i] == x;
    if |c| >= 2 {
      assert c[0] in c && c[1] in c;
    } else if |c| == 1 {
      assert c[0] in c;
    }
    assert forall x :: x in c <==> x in KeysOf(ps) && Matches(x, d);
  }

  lemma ResolvedIsKey(ps: seq<Package>, d: Dependency)
    requires Resolve(ps, d).Some?
    ensures Resolve(ps, d).value in KeysOf(ps)
  {
    hide Candidates;
    CandidatesExact(ps, d);
    assert Candidates(ps, d)[0] in Candidates(ps, d);
  }

  /** The package with a given key. */
  function Find(ps: seq<Package>, k: Key): (p: Package)
    requires exists i :: 0 <= i < |ps| && ps[i].key == k
    ensures p in ps && p.key == k
  {
    if ps[0].key == k then ps[0]
    else
      assert exists i :: 0 <= i < |ps[1..]| && ps[1..][i].key == k by {
        var i :| 0 <= i < |ps| && ps[i].key == k;
        assert ps[1..][i - 1].key == k;
      }
      Find(ps[1..], k)
  }

  // ---------------------------------------------------------------------------
  // Closed sets
  // ---------------------------------------------------------------------------

  /** Every dependency of a member resolves to a member. */
  ghost predicate Closed(ps: seq<Package>, s: set<Key>) {
    && s <= KeysOf(ps)
    && forall p, d :: p in ps && p.key in s && d in p.dependencies ==>
         Resolve(ps, d).Some? && Resolve(ps, d).value in s
  }

  /** The least closed set that contains the root. */
  ghost predicate IsClosure(ps: seq<Package>, root: Key, r: set<Key>) {
    && Closed(ps, r) && root in r
    && forall s :: Closed(ps, s) && root in s ==> r <= s
  }

  /** One worklist state: what is reachable needs nothing outside what is reachable or
      pending, and all of it is in every closed set around the root. */
  ghost predicate Progress(ps: seq<Package>, root: Key, reachable: set<Key>, pending: seq<Key>) {
    && reachable <= KeysOf(ps)
    && (forall k :: k in pending ==> k in KeysOf(ps))
    && (root in reachable || root in pending)
    && (forall p, d :: p in ps && p.key in reachable && d in p.dependencies ==>
          Resolve(ps, d).Some? && (Resolve(ps, d).value in reachable || Resolve(ps, d).value in pending))
    && (forall s, k :: Closed(ps, s) && root in s && (k in reachable || k in pending) ==> k in s)
  }

  /** The targets of the given dependencies, or the first one that has none. */
  method ResolveAll(ps: seq<Package>, ds: seq<Dependency>) returns (keys: seq<Key>, bad: Option<Dependency>)
    ensures bad.None? ==> |keys| == |ds| && forall i :: 0 <= i < |ds| ==> Resolve(ps, ds[i]) == Some(keys[i])
    ensures bad.Some? ==> bad.value in ds && Resolve(ps, bad.value).None?
  {
    hide Resolve;
    keys := [];
    for i := 0 to |ds|
      invariant |keys| == i && forall j :: 0 <= j < i ==> Resolve(ps, ds[j]) == Some(keys[j])
    {
      var k := Resolve(ps, ds[i]);
      if k.None? {
        return keys, Some(ds[i]);
      }
      keys := keys + [k.value];
    }
    return keys, None;
  }

  /** The worklist loop: the closure of the root, or a dependency of some package in every
      closed set that does not resolve, so that there is no closed set at all. */
  method Reach(ps: seq<Package>, root: Key) returns (reachable: set<Key>, bad: Option<Dependency>)
    requires DistinctKeys(ps) && root in KeysOf(ps)
    ensures bad.None? ==> IsClosure(ps, root, reachable)
    ensures bad.Some? ==> Resolve(ps, bad.value).None? && !exists s :: Closed(ps, s) && root in s
  {
    hide Resolve, Closed;
    reachable := {};
    var pending := [root];
    while pending != []
      invariant Progress(ps, root, reachable, pending)
      decreases KeysOf(ps) - reachable, |pending|
    {
      var key := pending[|pending| - 1];
      ghost var before := pending;
      pending := pending[..|pending| - 1];
      assert before == pending + [key];
      if key in reachable {
        continue;
      }
      KeyHasPackage(ps, key);
      var package := Find(ps, key);
      var keys, failed := ResolveAll(ps, package.dependencies);
      if failed.Some? {
        NoClosedSet(ps, root, reachable, before, key, package, failed.value);
        return reachable, failed;
      }
      Advance(ps, root, reachable, pending, key, package, keys);
      reachable := reachable + {key};
      pending := pending + keys;
    }
    FinishedIsClosure(ps, root, reachable);
    return reachable, None;
  }

  lemma KeyHasPackage(ps: seq<Package>, k: Key)
    requires k in KeysOf(ps)
    ensures exists i :: 0 <= i < |ps| && ps[i].key == k
  {
    var p :| p in ps && p.key == k;
    var i :| 0 <= i < |ps| && ps[i] == p;
  }

  lemma NoClosedSet(
    ps: seq<Package>, root: Key, reachable: set<Key>, pending: seq<Key>, key: Key, package: Package, d: Dependency)
    requires Progress(ps, root, reachable, pending) && key in pending
    requires package in ps && package.key == key && d in package.dependencies && Resolve(ps, d).None?
    ensures !exists s :: Closed(ps, s) && root in s
  {
    hide Resolve;
    forall s: set<Key>
      ensures !(Closed(ps, s) && root in s)
    {
      assert Closed(ps, s) && root in s ==> key in s;
    }
  }

  lemma Advance(
    ps: seq<Package>, root: Key, reachable: set<Key>, pending: seq<Key>, key: Key, package: Package, keys: seq<Key>)
    requires DistinctKeys(ps) && Progress(ps, root, reachable, pending + [key])
    requires package in ps && package.key == key && |keys| == |package.dependencies|
    requires forall i :: 0 <= i < |keys| ==> Resolve(ps, package.dependencies[i]) == Some(keys[i])
    ensures Progress(ps, root, reachable + {key}, pending + keys)
  {
    hide Resolve;
    var old', new' := pending + [key], pending + keys;
    assert key in old' && forall k :: k in old' <==> k in pending || k == key;
    assert forall k :: k in new' <==> k in pending || k in keys;
    forall k | k in keys
      ensures exists i :: 0 <= i < |keys| && keys[i] == k && package.dependencies[i] in package.dependencies
    {
      var i :| 0 <= i < |keys| && keys[i] == k;
    }
    forall k | k in keys
      ensures k in KeysOf(ps)
    {
      var i :| 0 <= i < |keys| && keys[i] == k;
      ResolvedIsKey(ps, package.dependencies[i]);
    }
    forall p, d | p in ps && p.key in reachable + {key} && d in p.dependencies
      ensures Resolve(ps, d).Some? && (Resolve(ps, d).value in reachable + {key} || Resolve(ps, d).value in new')
    {
      if p.key !in reachable {
        SameKeySamePackage(ps, p, package);
        var i :| 0 <= i < |package.dependencies| && package.dependencies[i] == d;
        assert keys[i] in keys;
      }
    }
    forall s, k | Closed(ps, s) && root in s && (k in reachable + {key} || k in new')
      ensures k in s
    {
      assert key in s;
      if k in keys {
        var i :| 0 <= i < |keys| && keys[i] == k;
        assert package.dependencies[i] in package.dependencies;
      }
    }
  }

  lemma SameKeySamePackage(ps: seq<Package>, p: Package, q: Package)
    requires DistinctKeys(ps) && p in ps && q in ps && p.key == q.key
    ensures p == q
  {
    var i :| 0 <= i < |ps| && ps[i] == p;
    var j :| 0 <= j < |ps| && ps[j] == q;
  }

  lemma FinishedIsClosure(ps: seq<Package>, root: Key, reachable: set<Key>)
    requires Progress(ps, root, reachable, [])
    ensures IsClosure(ps, root, reachable)
  {
    hide Resolve;
    forall s | Closed(ps, s) && root in s
      ensures reachable <= s
    {
    }
  }

  // ---------------------------------------------------------------------------
  // Pruning
  // ---------------------------------------------------------------------------

  function Roots(ps: seq<Package>): (keys: seq<Key>) {
    if ps == [] then []
    else Roots(ps[..|ps| - 1]) + if IsRoot(ps[|ps| - 1].key) then [ps[|ps| - 1].key] else []
  }

  lemma {:induction false} RootsExact(ps: seq<Package>)
    ensures forall k :: k in Roots(ps) <==> k in KeysOf(ps) && k.name == "lucene-util" && k.source == None
    decreases |ps|
  {
    if ps != [] {
      var init, last := ps[..|ps| - 1], ps[|ps| - 1];
      RootsExact(init);
      assert ps == init + [last];
      assert KeysOf(ps) == KeysOf(init) + {last.key};
    }
  }

  /** The records with a reachable key, in file order. */
  function Filter(ps: seq<Package>, r: set<Key>): (kept: seq<Package>) {
    if ps == [] then []
    else Filter(ps[..|ps| - 1], r) + if ps[|ps| - 1].key in r then [ps[|ps| - 1]] else []
  }

  lemma {:induction false} FilterMembers(ps: seq<Package>, r: set<Key>)
    ensures forall p :: p in Filter(ps, r) <==> p in ps && p.key in r
    ensures DistinctKeys(ps) ==> DistinctKeys(Filter(ps, r))
    decreases |ps|
  {
    if ps != [] {
      var init, last := ps[..|ps| - 1], ps[|ps| - 1];
      FilterMembers(init, r);
      var f := Filter(init, r);
      assert ps == init + [last];
      assert forall i :: 0 <= i < |f| ==> f[i] in f;
    }
  }

  lemma {:induction false} DistinctCount(ps: seq<Package>)
    requires DistinctKeys(ps)
    ensures |KeysOf(ps)| == |ps|
    decreases |ps|
  {
    if ps == [] {
      assert KeysOf(ps) == {};
    } else {
      var init, last := ps[..|ps| - 1], ps[|ps| - 1];
      DistinctCount(init);
      assert ps == init + [last];
      assert KeysOf(ps) == KeysOf(init) + {last.key};
      assert last.key !in KeysOf(init);
    }
  }

  lemma {:induction false} FilterExact(ps: seq<Package>, r: set<Key>)
    ensures forall p :: p in Filter(ps, r) <==> p in ps && p.key in r
    ensures KeysOf(Filter(ps, r)) == KeysOf(ps) * r
    ensures DistinctKeys(ps) ==> DistinctKeys(Filter(ps, r)) && |Filter(ps, r)| == |KeysOf(ps) * r|
  {
    hide Filter;
    FilterMembers(ps, r);
    assert KeysOf(Filter(ps, r)) == KeysOf(ps) * r;
    if DistinctKeys(ps) {
      DistinctCount(Filter(ps, r));
    }
  }

  method HasDuplicate(ps: seq<Package>) returns (dup: bool)
    ensures dup <==> !DistinctKeys(ps)
  {
    var byKey: set<Key> := {};
    for i := 0 to |ps|
      invariant DistinctKeys(ps[..i]) && byKey == KeysOf(ps[..i])
    {
      assert ps[..i + 1] == ps[..i] + [ps[i]];
      if ps[i].key in byKey {
        var p :| p in ps[..i] && p.key == ps[i].key;
        return true;
      }
      byKey := byKey + {ps[i].key};
    }
    assert ps[..|ps|] == ps;
    return false;
  }

  /** When pruning can succeed: one identity per record, one root, and a closed set around it. */
  ghost predicate Prunable(ps: seq<Package>) {
    DistinctKeys(ps) && |Roots(ps)| == 1 && exists s :: Closed(ps, s) && Roots(ps)[0] in s
  }

  /** `prune_lockfile` succeeds exactly on prunable lockfiles, and then keeps exactly the
      records of the least closed set around the root, in file order. */
  method Prune(ps: seq<Package>) returns (r: Pruned, closure: set<Key>)
    ensures r.Kept? <==> Prunable(ps)
    ensures r.Kept? ==>
              && Roots(ps)[0].name == "lucene-util" && Roots(ps)[0].source == None
              && IsClosure(ps, Roots(ps)[0], closure)
              && r.packages == Filter(ps, closure) && |r.packages| == |closure|
    ensures r.DuplicateIdentity? <==> !DistinctKeys(ps)
    ensures r.NoSingleRoot? ==> |Roots(ps)| != 1
    ensures r.Unresolved? ==> Resolve(ps, r.dependency).None?
  {
    hide Resolve, Closed, Filter;
    closure := {};
    var dup := HasDuplicate(ps);
    if dup {
      return DuplicateIdentity, closure;
    }
    var roots := Roots(ps);
    if |roots| != 1 {
      return NoSingleRoot, closure;
    }
    RootsExact(ps);
    assert roots[0] in roots;
    var reachable, bad := Reach(ps, roots[0]);
    closure := reachable;
    if bad.Some? {
      return Unresolved(bad.value), closure;
    }
    FilterExact(ps, reachable);
    ClosureInside(ps, roots[0], reachable);
    assert KeysOf(ps) * reachable == reachable;
    return Kept(Filter(ps, reachable)), closure;
  }

  lemma ClosureInside(ps: seq<Package>, root: Key, r: set<Key>)
    requires IsClosure(ps, root, r)
    ensures r <= KeysOf(ps) && exists s :: Closed(ps, s) && root in s
  {
  }

  // ---------------------------------------------------------------------------
  // No re-resolution
  // ---------------------------------------------------------------------------

  lemma {:induction false} CandidatesOfFilter(ps: seq<Package>, r: set<Key>, d: Dependency)
    ensures |Candidates(Filter(ps, r), d)| <= |Candidates(ps, d)|
    decreases |ps|
  {
    hide Matches;
    if ps != [] {
      var init, last := ps[..|ps| - 1], ps[|ps| - 1];
      CandidatesOfFilter(init, r, d);
      var f := Filter(init, r);
      if last.key in r {
        assert (f + [last])[..|f|] == f;
      } else {
        assert f + [] == f;
      }
    }
  }

  /** In the pruned file every dependency of a kept record resolves to the package it
      resolved to in the original. */
  lemma ResolvesTheSame(ps: seq<Package>, root: Key, r: set<Key>, p: Package, d: Dependency)
    requires IsClosure(ps, root, r) && p in Filter(ps, r) && d in p.dependencies
    ensures Resolve(ps, d).Some? && Resolve(Filter(ps, r), d) == Resolve(ps, d)
  {
    hide Filter, Candidates;
    FilterExact(ps, r);
    var k := Resolve(ps, d).value;
    CandidatesExact(ps, d);
    CandidatesExact(Filter(ps, r), d);
    CandidatesOfFilter(ps, r, d);
    assert k in Candidates(ps, d);
    assert k in Candidates(Filter(ps, r), d);
    assert Candidates(Filter(ps, r), d) == [k];
  }

  /** The pruned file needs nothing it does not hold. */
  lemma PrunedIsClosed(ps: seq<Package>, root: Key, r: set<Key>)
    requires IsClosure(ps, root, r)
    ensures Closed(Filter(ps, r), r)
  {
    hide Filter, Resolve;
    FilterExact(ps, r);
    forall p, d | p in Filter(ps, r) && p.key in r && d in p.dependencies
      ensures Resolve(Filter(ps, r), d).Some? && Resolve(Filter(ps, r), d).value in r
    {
      ResolvesTheSame(ps, root, r, p, d);
    }
  }

  lemma {:induction false} FilterAgain(ps: seq<Package>, r: set<Key>)
    ensures Filter(Filter(ps, r), r) == Filter(ps, r)
    decreases |ps|
  {
    if ps != [] {
      var init, last := ps[..|ps| - 1], ps[|ps| - 1];
      FilterAgain(init, r);
      var f := Filter(init, r);
      if last.key in r {
        assert (f + [last])[..|f|] == f;
      } else {
        assert f + [] == f;
      }
    }
  }

  /** Pruning a pruned lockfile changes nothing: the closure of its root is the same set, and
      the same records are kept. */
  lemma PruneIdempotent(ps: seq<Package>, root: Key, r: set<Key>)
    requires IsClosure(ps, root, r)
    ensures IsClosure(Filter(ps, r), root, r) && Filter(Filter(ps, r), r) == Filter(ps, r)
  {
    hide Filter, Resolve;
    var kept := Filter(ps, r);
    FilterExact(ps, r);
    PrunedIsClosed(ps, root, r);
    FilterAgain(ps, r);
    forall s | Closed(kept, s) && root in s
      ensures r <= s
    {
      forall p, d | p in ps && p.key in s && d in p.dependencies
        ensures Resolve(ps, d).Some? && Resolve(ps, d).value in s
      {
        KeptByKey(ps, root, r, s, p, d);
      }
      assert Closed(ps, s);
    }
  }

  /** A closed set of the pruned file is closed in the original. */
  lemma KeptByKey(ps: seq<Package>, root: Key, r: set<Key>, s: set<Key>, p: Package, d: Dependency)
    requires IsClosure(ps, root, r) && Closed(Filter(ps, r), s)
    requires p in ps && p.key in s && d in p.dependencies
    ensures Resolve(ps, d).Some? && Resolve(ps, d).value in s
  {
    hide Filter, Resolve;
    FilterExact(ps, r);
    assert p.key in KeysOf(Filter(ps, r));
    ResolvesTheSame(ps, root, r, p, d);
  }
}
