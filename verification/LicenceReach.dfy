/** `reachable` in scripts/check-licences.py: the packages a workspace links, through the
    dependency kinds asked for. Workspace members follow those kinds; every other package
    follows normal and build dependencies only. */
module LicenceReach {

  datatype Kind = Normal | Build | Dev

  datatype Edge = Edge(pkg: string, kinds: seq<Kind>)

  /** The resolved graph. A package without a node makes the walk stop with an error. */
  datatype Graph = Graph(nodes: map<string, seq<Edge>>, ws: set<string>)

  datatype Reached = Seen(packages: set<string>) | NoNode(package: string)

  function Wanted(g: Graph, from: set<Kind>, i: string): set<Kind> {
    if i in g.ws then from else {Normal, Build}
  }

  predicate Follows(e: Edge, wanted: set<Kind>) {
    exists k :: k in e.kinds && k in wanted
  }

  /** There is a followed edge from i to j. */
  ghost predicate Step(g: Graph, from: set<Kind>, i: string, j: string) {
    i in g.nodes && exists e :: e in g.nodes[i] && e.pkg == j && Follows(e, Wanted(g, from, i))
  }

  ghost predicate Closed(g: Graph, from: set<Kind>, s: set<string>) {
    forall i, j :: (i in g.ws || i in s) && Step(g, from, i, j) ==> j in s || j in g.ws
  }

  /** The least closed set of packages outside the workspace. */
  ghost predicate IsLeast(g: Graph, from: set<Kind>, r: set<string>) {
    && r !! g.ws && Closed(g, from, r)
    && forall s :: Closed(g, from, s) ==> r <= s
  }

  ghost function Targets(g: Graph): set<string> {
    set i, e | i in g.nodes && e in g.nodes[i] :: e.pkg
  }

  // ---------------------------------------------------------------------------
  // The worklist
  // ---------------------------------------------------------------------------

  /** Everything found lies in every closed set, and a package that is no longer on the stack
      has a node and all its followed edges land in what was found. */
  ghost predicate Progress(g: Graph, from: set<Kind>, seen: set<string>, stack: seq<string>) {
    && seen !! g.ws && seen <= Targets(g)
    && (forall i :: i in stack ==> i in g.ws || i in seen)
    && (forall i :: (i in g.ws || i in seen) && i !in stack ==> i in g.nodes)
    && (forall i, j :: (i in g.ws || i in seen) && i !in stack && Step(g, from, i, j) ==> j in seen || j in g.ws)
    && (forall s :: Closed(g, from, s) ==> seen <= s)
  }

  /** Whether one pass over the edges of a package may push its target. */
  predicate Fresh(g: Graph, from: set<Kind>, seen: set<string>, i: string, e: Edge) {
    Follows(e, Wanted(g, from, i)) && e.pkg !in seen && e.pkg !in g.ws
  }

  /** The inner loop over one package's dependencies. */
  method Expand(g: Graph, from: set<Kind>, i: string, seen: set<string>, stack: seq<string>)
    returns (seen': set<string>, stack': seq<string>)
    requires i in g.nodes && (i in g.ws || i in seen)
    requires Progress(g, from, seen, stack + [i])
    ensures Progress(g, from, seen', stack')
    ensures seen < seen' || (seen' == seen && stack' == stack)
  {
    hide Follows, Closed;
    var deps := g.nodes[i];
    seen', stack' := seen, stack;
    for n := 0 to |deps|
      invariant seen <= seen' && (seen' == seen ==> stack' == stack)
      invariant Progress(g, from, seen', stack' + [i])
      invariant forall m :: 0 <= m < n && Follows(deps[m], Wanted(g, from, i)) ==>
                  deps[m].pkg in seen' || deps[m].pkg in g.ws
    {
      var d := deps[n];
      if Fresh(g, from, seen', i, d) {
        Push(g, from, seen', stack', i, d);
        seen', stack' := seen' + {d.pkg}, stack' + [d.pkg];
      }
    }
    Popped(g, from, seen', stack', i);
  }

  lemma Push(g: Graph, from: set<Kind>, seen: set<string>, stack: seq<string>, i: string, d: Edge)
    requires i in g.nodes && d in g.nodes[i] && (i in g.ws || i in seen)
    requires Progress(g, from, seen, stack + [i]) && Fresh(g, from, seen, i, d)
    ensures Progress(g, from, seen + {d.pkg}, stack + [d.pkg] + [i])
  {
    hide Follows;
    var before, after := stack + [i], stack + [d.pkg] + [i];
    assert forall x :: x in before <==> x in stack || x == i;
    assert forall x :: x in after <==> x in before || x == d.pkg;
    assert Step(g, from, i, d.pkg);
  }

  lemma Popped(g: Graph, from: set<Kind>, seen: set<string>, stack: seq<string>, i: string)
    requires i in g.nodes && Progress(g, from, seen, stack + [i])
    requires forall m :: 0 <= m < |g.nodes[i]| && Follows(g.nodes[i][m], Wanted(g, from, i)) ==>
               g.nodes[i][m].pkg in seen || g.nodes[i][m].pkg in g.ws
    ensures Progress(g, from, seen, stack)
  {
    hide Follows, Closed;
    assert forall x :: x in stack + [i] <==> x in stack || x == i;
    forall j | Step(g, from, i, j)
      ensures j in seen || j in g.ws
    {
      var e :| e in g.nodes[i] && e.pkg == j && Follows(e, Wanted(g, from, i));
      var m :| 0 <= m < |g.nodes[i]| && g.nodes[i][m] == e;
    }
  }

  /** `reachable`, with the workspace members in any order: the least closed set, exactly when
      all of it and of the workspace has nodes; otherwise it stops at a package that has none. */
  method Reachable(g: Graph, from: set<Kind>, members: seq<string>) returns (r: Reached, ghost least: set<string>)
    requires g.ws == set m | m in members
    ensures r.Seen? ==> IsLeast(g, from, r.packages)
    ensures r.NoNode? ==> r.package !in g.nodes
    ensures IsLeast(g, from, least)
    ensures r.Seen? <==> g.ws + least <= g.nodes.Keys
    ensures r.Seen? ==> r.packages == least
    ensures r.NoNode? ==> r.package in g.ws + least
  {
    hide Follows, Closed;
    LeastExists(g, from);
    least :| IsLeast(g, from, least);
    var seen: set<string>, stack := {}, members;
    while stack != []
      invariant Progress(g, from, seen, stack)
      decreases Targets(g) - seen, |stack|
    {
      var i := stack[|stack| - 1];
      ghost var before := stack;
      stack := stack[..|stack| - 1];
      assert before == stack + [i] && i in before;
      if i !in g.nodes {
        return NoNode(i), least;
      }
      ghost var old' := seen;
      seen, stack := Expand(g, from, i, seen, stack);
      if old' < seen {
        Shrinks(Targets(g), old', seen);
      }
    }
    Finished(g, from, seen);
    LeastUnique(g, from, seen, least);
    return Seen(seen), least;
  }

  lemma Shrinks(all: set<string>, small: set<string>, large: set<string>)
    requires small < large <= all
    ensures all - large < all - small
  {
    var x :| x in large && x !in small;
    assert x in all - small && x !in all - large;
  }

  lemma Finished(g: Graph, from: set<Kind>, seen: set<string>)
    requires Progress(g, from, seen, [])
    ensures IsLeast(g, from, seen) && g.ws + seen <= g.nodes.Keys
  {
    hide Follows, Step;
  }

  // ---------------------------------------------------------------------------
  // What the least set is
  // ---------------------------------------------------------------------------

  /** The least set on the edges themselves: a workspace member follows an edge with a kind asked
      for, any other package one that is normal or build, and nothing gets in but over such an
      edge. */
  lemma LeastOnEdges(g: Graph, from: set<Kind>, r: set<string>)
    requires IsLeast(g, from, r)
    ensures forall i, e :: i in g.ws && i in g.nodes && e in g.nodes[i] && (exists k :: k in e.kinds && k in from) ==>
              e.pkg in r || e.pkg in g.ws
    ensures forall i, e :: i in r && i in g.nodes && e in g.nodes[i] && (Normal in e.kinds || Build in e.kinds) ==>
              e.pkg in r || e.pkg in g.ws
    ensures forall j :: j in r ==> j !in g.ws && exists i, e ::
              && i in g.nodes && e in g.nodes[i] && e.pkg == j
              && if i in g.ws then exists k :: k in e.kinds && k in from
                 else i in r && (Normal in e.kinds || Build in e.kinds)
  {
    forall i, e | i in g.nodes && e in g.nodes[i] && (i in g.ws || i in r)
      ensures (if i in g.ws then exists k :: k in e.kinds && k in from else Normal in e.kinds || Build in e.kinds)
              ==> e.pkg in r || e.pkg in g.ws
    {
      if Follows(e, Wanted(g, from, i)) {
        assert Step(g, from, i, e.pkg);
      } else {
        assert i !in g.ws && Normal in e.kinds ==> Normal in Wanted(g, from, i);
        assert i !in g.ws && Build in e.kinds ==> Build in Wanted(g, from, i);
      }
    }
    forall j | j in r
      ensures exists i, e ::
                && i in g.nodes && e in g.nodes[i] && e.pkg == j
                && if i in g.ws then exists k :: k in e.kinds && k in from
                   else i in r && (Normal in e.kinds || Build in e.kinds)
    {
      var i := Entered(g, from, r, j);
      var e :| e in g.nodes[i] && e.pkg == j && Follows(e, Wanted(g, from, i));
    }
  }

  /** Something leads into every package of the least set: without it the rest is closed. */
  lemma Entered(g: Graph, from: set<Kind>, r: set<string>, j: string) returns (i: string)
    requires IsLeast(g, from, r) && j in r
    ensures (i in g.ws || i in r) && Step(g, from, i, j)
  {
    hide Step;
    assert !Closed(g, from, r - {j});
    i :| (i in g.ws || i in r) && Step(g, from, i, j);
  }

  lemma LeastUnique(g: Graph, from: set<Kind>, r: set<string>, s: set<string>)
    requires IsLeast(g, from, r) && IsLeast(g, from, s)
    ensures r == s
  {
    hide Closed;
  }

  /** More kinds never reach less. */
  lemma KindsMonotone(g: Graph, few: set<Kind>, many: set<Kind>, r: set<string>, s: set<string>)
    requires few <= many && IsLeast(g, few, r) && IsLeast(g, many, s)
    ensures r <= s
  {
    forall i, j | Step(g, few, i, j)
      ensures Step(g, many, i, j)
    {
      var e :| e in g.nodes[i] && e.pkg == j && Follows(e, Wanted(g, few, i));
      var k :| k in e.kinds && k in Wanted(g, few, i);
      assert k in Wanted(g, many, i);
      assert Follows(e, Wanted(g, many, i));
    }
    assert Closed(g, few, s) by { hide Step; }
  }

  /** So what ships is among what the gate goes through: a shipped package without an allowed
      licence cannot escape it. */
  lemma ShippedIsInspected(g: Graph, shipped: set<string>, everything: set<string>)
    requires IsLeast(g, {Normal, Build}, shipped) && IsLeast(g, {Normal, Build, Dev}, everything)
    ensures shipped <= everything
  {
    hide Closed;
    KindsMonotone(g, {Normal, Build}, {Normal, Build, Dev}, shipped, everything);
  }

  /** A chain of followed edges that starts at a workspace member. */
  ghost predicate Path(g: Graph, from: set<Kind>, p: seq<string>) {
    p != [] && p[0] in g.ws && forall n :: 0 < n < |p| ==> Step(g, from, p[n - 1], p[n])
  }

  ghost predicate AtEndOfPath(g: Graph, from: set<Kind>, j: string) {
    exists p :: Path(g, from, p) && p[|p| - 1] == j
  }

  lemma {:induction false} PathStaysInside(g: Graph, from: set<Kind>, s: set<string>, p: seq<string>)
    requires Closed(g, from, s) && Path(g, from, p)
    ensures p[|p| - 1] in s || p[|p| - 1] in g.ws
    decreases |p|
  {
    hide Step;
    if |p| > 1 {
      var init := p[..|p| - 1];
      PathStaysInside(g, from, s, init);
      assert Step(g, from, p[|p| - 2], p[|p| - 1]);
    }
  }

  lemma PathGrows(g: Graph, from: set<Kind>, i: string, j: string)
    requires (i in g.ws || AtEndOfPath(g, from, i)) && Step(g, from, i, j)
    ensures AtEndOfPath(g, from, j)
  {
    hide Step;
    var p: seq<string>;
    if i in g.ws {
      p := [i];
    } else {
      p :| Path(g, from, p) && p[|p| - 1] == i;
    }
    assert Path(g, from, p + [j]);
    assert (p + [j])[|p + [j]| - 1] == j;
  }

  lemma StepTarget(g: Graph, from: set<Kind>, i: string, j: string)
    requires Step(g, from, i, j)
    ensures j in Targets(g)
  {
  }

  /** The result is exactly what a chain of followed edges from the workspace ends at, outside
      the workspace. */
  lemma LeastIsPathEnds(g: Graph, from: set<Kind>, r: set<string>, j: string)
    requires IsLeast(g, from, r)
    ensures j in r <==> j !in g.ws && AtEndOfPath(g, from, j)
  {
    hide Step, Targets;
    if AtEndOfPath(g, from, j) {
      EndInside(g, from, r, j);
    }
    var ends := set i | i in Targets(g) && AtEndOfPath(g, from, i);
    forall i, k | (i in g.ws || i in ends) && Step(g, from, i, k)
      ensures k in ends
    {
      hide AtEndOfPath;
      PathGrows(g, from, i, k);
      StepTarget(g, from, i, k);
    }
    assert Closed(g, from, ends);
  }

  /** Whether or not every package has a node, the least set exists: so a walk that stops with
      an error stops at a package it really had to visit. */
  lemma LeastExists(g: Graph, from: set<Kind>)
    ensures exists r :: IsLeast(g, from, r)
  {
    hide Step, Targets, AtEndOfPath;
    var r := set i | i in Targets(g) && AtEndOfPath(g, from, i) && i !in g.ws;
    forall i, k | (i in g.ws || i in r) && Step(g, from, i, k)
      ensures k in r || k in g.ws
    {
      PathGrows(g, from, i, k);
      StepTarget(g, from, i, k);
    }
    forall s, j | Closed(g, from, s) && j in r
      ensures j in s
    {
      hide Closed;
      EndInside(g, from, s, j);
    }
    assert IsLeast(g, from, r);
  }

  lemma EndInside(g: Graph, from: set<Kind>, s: set<string>, j: string)
    requires Closed(g, from, s) && AtEndOfPath(g, from, j)
    ensures j in s || j in g.ws
  {
    hide Step, Closed;
    var p :| Path(g, from, p) && p[|p| - 1] == j;
    PathStaysInside(g, from, s, p);
  }
}
