/** Reachability over the two edge relations of the sheet. The reference
    relation maps each cell to the list of positions its formula reads; the
    dependents relation maps each cell to the set of cells that read it.
    Paths, acyclicity, the condition under which rebinding one cell's
    references keeps the relation acyclic, and the set of caches a change
    makes stale. */
module Graphs {
  import opened Common

  /** Reference lists, keyed by the referencing position. */
  type RefGraph = map<Position, seq<Position>>

  /** Dependent sets, keyed by the referenced position. */
  type DepGraph = map<Position, set<Position>>

  function Next(g: RefGraph, x: Position): seq<Position> {
    if x in g then g[x] else []
  }

  /** All positions some list of the graph mentions. */
  ghost function Targets(g: RefGraph): set<Position> {
    set x, y | x in g && y in g[x] :: y
  }

  /** A non-empty walk along reference edges. */
  ghost predicate IsPath(g: RefGraph, s: seq<Position>) {
    |s| > 0 && forall i :: 0 <= i < |s| - 1 ==> s[i + 1] in Next(g, s[i])
  }

  /** b can be reached from a by following zero or more reference edges. */
  ghost predicate Reaches(g: RefGraph, a: Position, b: Position) {
    exists s :: IsPath(g, s) && s[0] == a && s[|s| - 1] == b
  }

  /** No walk of one edge or more returns to where it started. */
  ghost predicate Acyclic(g: RefGraph) {
    forall s :: IsPath(g, s) && |s| > 1 ==> s[0] != s[|s| - 1]
  }

  /** Giving c the reference list refs would close a cycle: c is reachable
      from one of refs, c itself included. */
  ghost predicate ClosesCycle(g: RefGraph, c: Position, refs: seq<Position>) {
    exists r :: r in refs && Reaches(g, r, c)
  }

  /** Every edge of h is an edge of g. */
  ghost predicate SubGraph(h: RefGraph, g: RefGraph) {
    forall x, y :: y in Next(h, x) ==> y in Next(g, x)
  }

  lemma SubGraphPath(h: RefGraph, g: RefGraph, s: seq<Position>)
    requires SubGraph(h, g) && IsPath(h, s)
    ensures IsPath(g, s)
  {
    forall i | 0 <= i < |s| - 1 ensures s[i + 1] in Next(g, s[i]) {
      assert s[i + 1] in Next(h, s[i]);
    }
  }

  /** Removing edges keeps a graph acyclic. */
  lemma SubGraphAcyclic(h: RefGraph, g: RefGraph)
    requires SubGraph(h, g) && Acyclic(g)
    ensures Acyclic(h)
  {
    forall s | IsPath(h, s) && |s| > 1 ensures s[0] != s[|s| - 1] {
      SubGraphPath(h, g, s);
    }
  }

  /** A path that leaves c nowhere uses no edge of c, so it is a path of the
      graph before c's list was replaced. */
  lemma AvoidingPath(g: RefGraph, c: Position, refs: seq<Position>, s: seq<Position>)
    requires IsPath(g[c := refs], s)
    requires forall k :: 0 <= k < |s| - 1 ==> s[k] != c
    ensures IsPath(g, s)
  {
    forall i | 0 <= i < |s| - 1 ensures s[i + 1] in Next(g, s[i]) {
      assert s[i + 1] in Next(g[c := refs], s[i]);
    }
  }

  /** Rotating a closed walk so that it starts at one of its nodes. */
  lemma Rotate(h: RefGraph, s: seq<Position>, i: int) returns (d: seq<Position>)
    requires IsPath(h, s) && |s| > 1 && s[0] == s[|s| - 1]
    requires 0 <= i < |s| - 1
    ensures IsPath(h, d) && |d| == |s| && d[0] == s[i] && d[|d| - 1] == s[i]
  {
    d := s[i..] + s[1..i + 1];
    var n := |s|;
    forall k | 0 <= k < |d| - 1 ensures d[k + 1] in Next(h, d[k]) {
      if k < n - i - 1 {
        assert d[k] == s[i + k] && d[k + 1] == s[i + k + 1];
      } else if k == n - i - 1 {
        assert d[k] == s[n - 1] == s[0] && d[k + 1] == s[1];
      } else {
        assert d[k] == s[k - (n - i) + 1] && d[k + 1] == s[k - (n - i) + 2];
      }
    }
  }

  /** A slice of a path is a path. */
  lemma SlicePath(h: RefGraph, d: seq<Position>, a: int, b: int)
    requires IsPath(h, d) && 0 <= a < b <= |d|
    ensures IsPath(h, d[a..b])
  {
    var t := d[a..b];
    forall k | 0 <= k < |t| - 1 ensures t[k + 1] in Next(h, t[k]) {
      assert t[k] == d[a + k] && t[k + 1] == d[a + k + 1];
    }
  }

  /** A closed walk of the rebound graph from c back to c yields a walk of
      the old graph from one of the new references to c. */
  lemma ReturnCloses(g: RefGraph, c: Position, refs: seq<Position>, d: seq<Position>)
    requires IsPath(g[c := refs], d) && |d| > 1 && d[0] == c && d[|d| - 1] == c
    ensures ClosesCycle(g, c, refs)
  {
    var h := g[c := refs];
    var j := 1;
    while d[j] != c
      invariant 1 <= j <= |d| - 1
      invariant forall k :: 1 <= k < j ==> d[k] != c
      decreases |d| - j
    {
      j := j + 1;
    }
    SlicePath(h, d, 1, j + 1);
    var t := d[1..j + 1];
    assert forall k :: 0 <= k < |t| - 1 ==> t[k] == d[k + 1];
    AvoidingPath(g, c, refs, t);
    assert d[1] in Next(h, d[0]);
    assert t[0] == d[1] && t[|t| - 1] == c;
    assert Reaches(g, d[1], c);
  }

  lemma NoNewCycle(g: RefGraph, c: Position, refs: seq<Position>, s: seq<Position>)
    requires Acyclic(g)
    requires !ClosesCycle(g, c, refs)
    requires IsPath(g[c := refs], s) && |s| > 1
    ensures s[0] != s[|s| - 1]
  {
    var h := g[c := refs];
    if s[0] == s[|s| - 1] {
      if i :| 0 <= i < |s| - 1 && s[i] == c {
        var d := Rotate(h, s, i);
        ReturnCloses(g, c, refs, d);
      } else {
        AvoidingPath(g, c, refs, s);
      }
    }
  }

  /** The commit rule: if the graph is acyclic and none of the new
      references reaches c, replacing c's reference list by them leaves the
      graph acyclic. */
  lemma {:induction false} RebindKeepsAcyclic(g: RefGraph, c: Position, refs: seq<Position>)
    requires Acyclic(g)
    requires !ClosesCycle(g, c, refs)
    ensures Acyclic(g[c := refs])
  {
    forall s | IsPath(g[c := refs], s) && |s| > 1 ensures s[0] != s[|s| - 1] {
      NoNewCycle(g, c, refs, s);
    }
  }

  /** A set closed under the reference edges holds every node reachable from
      one of its members. */
  lemma {:induction false} ClosedHoldsPath(g: RefGraph, closed: set<Position>, s: seq<Position>)
    requires forall x :: x in closed ==> forall y :: y in Next(g, x) ==> y in closed
    requires IsPath(g, s) && s[0] in closed
    ensures s[|s| - 1] in closed
  {
    if |s| > 1 {
      var s' := s[..|s| - 1];
      assert IsPath(g, s') by {
        forall i | 0 <= i < |s'| - 1 ensures s'[i + 1] in Next(g, s'[i]) {
          assert s'[i] == s[i] && s'[i + 1] == s[i + 1];
        }
      }
      ClosedHoldsPath(g, closed, s');
      assert s[|s| - 1] in Next(g, s[|s| - 2]);
    }
  }

  lemma ExtendPath(g: RefGraph, p: seq<Position>, y: Position)
    requires IsPath(g, p) && y in Next(g, p[|p| - 1])
    ensures IsPath(g, p + [y])
  {
    var e := p + [y];
    forall i | 0 <= i < |e| - 1 ensures e[i + 1] in Next(g, e[i]) {
      if i < |p| - 1 {
        assert e[i] == p[i] && e[i + 1] == p[i + 1];
      }
    }
  }

  /** In an acyclic relation no node lists itself, and no node's own list
      leads back to it. */
  lemma AcyclicNoLoop(g: RefGraph, c: Position)
    requires Acyclic(g)
    ensures c !in Next(g, c)
    ensures !ClosesCycle(g, c, Next(g, c))
  {
    if c in Next(g, c) {
      assert IsPath(g, [c, c]);
    }
    if ClosesCycle(g, c, Next(g, c)) {
      var r :| r in Next(g, c) && Reaches(g, r, c);
      var s :| IsPath(g, s) && s[0] == r && s[|s| - 1] == c;
      var t := [c] + s;
      assert IsPath(g, t) by {
        forall i | 0 <= i < |t| - 1 ensures t[i + 1] in Next(g, t[i]) {
          if i > 0 {
            assert t[i] == s[i - 1] && t[i + 1] == s[i];
          }
        }
      }
      assert false;
    }
  }

  lemma NextInTargets(g: RefGraph, v: Position)
    ensures Elems(Next(g, v)) <= Targets(g)
  {
    forall y | y in Next(g, v) ensures y in Targets(g) {
      assert v in g;
    }
  }

  /** Once the stack is exhausted without meeting c, the visited set is
      closed, holds every new reference and misses c: no cycle closes. */
  lemma ExhaustedMeansNoCycle(g: RefGraph, c: Position, refs: seq<Position>, visited: set<Position>)
    requires c !in visited
    requires forall x :: x in visited ==> forall y :: y in Next(g, x) ==> y in visited
    requires forall r :: r in refs ==> r in visited
    ensures !ClosesCycle(g, c, refs)
  {
    forall r, s | r in refs && IsPath(g, s) && s[0] == r ensures s[|s| - 1] != c {
      ClosedHoldsPath(g, visited, s);
    }
  }

  lemma ShrinkingRest(universe: set<Position>, visited: set<Position>, v: Position)
    requires v in universe && v !in visited
    ensures |universe - (visited + {v})| < |universe - visited|
  {
    assert universe - visited == (universe - (visited + {v})) + {v};
  }

  function Deps(d: DepGraph, x: Position): set<Position> {
    if x in d then d[x] else {}
  }

  ghost function DepTargets(d: DepGraph): set<Position> {
    set x, y | x in d && y in d[x] :: y
  }

  /** The dependents of a set of nodes. */
  ghost function Image(d: DepGraph, nodes: set<Position>): (r: set<Position>)
    ensures forall y :: y in r <==> exists x :: x in nodes && y in Deps(d, x)
  {
    set x, y | x in nodes && x in d && y in d[x] :: y
  }

  /** A walk along dependent edges through nodes that all hold a cache. */
  ghost predicate IsStalePath(d: DepGraph, cached: set<Position>, s: seq<Position>) {
    && |s| > 0
    && (forall i :: 0 <= i < |s| ==> s[i] in cached)
    && (forall i :: 0 <= i < |s| - 1 ==> s[i + 1] in Deps(d, s[i]))
  }

  /** The caches an invalidation pass from `start` must clear: every cached
      node reachable from a start node through cached nodes only. A node
      without a cache stops the propagation. */
  ghost function Stale(d: DepGraph, cached: set<Position>, start: set<Position>): set<Position> {
    set x | x in cached && exists s :: IsStalePath(d, cached, s) && s[0] in start && s[|s| - 1] == x
  }

  /** A cached start node is stale, and so is a cached dependent of a stale
      node. */
  lemma StaleGrows(d: DepGraph, cached: set<Position>, start: set<Position>, x: Position, y: Position)
    ensures x in start && x in cached ==> x in Stale(d, cached, start)
    ensures x in Stale(d, cached, start) && y in Deps(d, x) && y in cached ==> y in Stale(d, cached, start)
  {
    if x in start && x in cached {
      assert IsStalePath(d, cached, [x]);
    }
    if x in Stale(d, cached, start) && y in Deps(d, x) && y in cached {
      var s :| IsStalePath(d, cached, s) && s[0] in start && s[|s| - 1] == x;
      var t := s + [y];
      assert IsStalePath(d, cached, t) by {
        assert forall i :: 0 <= i < |s| ==> t[i] == s[i];
      }
    }
  }

  /** The positions reachable from `from`. */
  ghost function ReachSet(g: RefGraph, from: Position): (r: set<Position>)
    ensures forall q :: q in r <==> Reaches(g, from, q)
  {
    forall q | Reaches(g, from, q) ensures q in Targets(g) + {from} {
      var s :| IsPath(g, s) && s[0] == from && s[|s| - 1] == q;
      if |s| > 1 {
        NextInTargets(g, s[|s| - 2]);
      }
    }
    set q | q in Targets(g) + {from} && Reaches(g, from, q)
  }

  /** What a reachable node lists is reachable too. */
  lemma ReachSetClosed(g: RefGraph, from: Position)
    ensures forall x, y :: x in ReachSet(g, from) && y in Next(g, x) ==> y in ReachSet(g, from)
  {
    forall x, y | x in ReachSet(g, from) && y in Next(g, x) ensures Reaches(g, from, y) {
      var s :| IsPath(g, s) && s[0] == from && s[|s| - 1] == x;
      ExtendPath(g, s, y);
      assert (s + [y])[0] == from;
    }
  }

  lemma {:induction false} ClosedHoldsStale(d: DepGraph, cached: set<Position>, start: set<Position>,
                                            visited: set<Position>, s: seq<Position>)
    requires start <= visited
    requires forall x :: x in visited * cached ==> Deps(d, x) <= visited
    requires IsStalePath(d, cached, s) && s[0] in start
    ensures s[|s| - 1] in visited
  {
    if |s| > 1 {
      var s' := s[..|s| - 1];
      assert IsStalePath(d, cached, s') by {
        assert forall i :: 0 <= i < |s'| ==> s'[i] == s[i];
      }
      ClosedHoldsStale(d, cached, start, visited, s');
      assert s[|s| - 1] in Deps(d, s[|s| - 2]);
    }
  }

}
