/** The two graph walks of cell.cpp. `HasCyclicDependence` is the check run
    before a formula is committed, a depth-first search that marks and prunes
    on the node being expanded. `InvalidationPass` walks the dependents from
    a changed cell's direct dependents, clears every cached formula it
    reaches and expands a node only if that node held a cache, processing
    each node at most once. */
module Dependencies {
  import opened Common
  import opened Graphs

  /** p is a path from one of refs to v. */
  ghost predicate Witness(g: RefGraph, refs: seq<Position>, v: Position, p: seq<Position>) {
    IsPath(g, p) && p[0] in refs && p[|p| - 1] == v
  }
  /** Every entry of the trail map is a witness path for its key. */
  ghost predicate Witnessed(g: RefGraph, refs: seq<Position>, trail: map<Position, seq<Position>>) {
    forall v :: v in trail ==> Witness(g, refs, v, trail[v])
  }
  /** Witness paths for the references of v, each extending v's own. */
  ghost function ExtendTrail(g: RefGraph, refs: seq<Position>, trail: map<Position, seq<Position>>, v: Position): (r: map<Position, seq<Position>>)
    requires Witnessed(g, refs, trail) && v in trail
    ensures Witnessed(g, refs, r)
    ensures trail.Keys <= r.Keys && Elems(Next(g, v)) <= r.Keys
  {
    var p := trail[v];
    assert forall y :: y in Next(g, v) ==> IsPath(g, p + [y]) by {
      forall y | y in Next(g, v) ensures IsPath(g, p + [y]) {
        ExtendPath(g, p, y);
      }
    }
    map y | y in trail.Keys + Elems(Next(g, v)) :: if y in trail then trail[y] else p + [y]
  }
  /** Every successor of an expanded node, and every new reference, is
      expanded or pending. */
  ghost predicate Frontier(g: RefGraph, refs: seq<Position>, visited: set<Position>, stack: seq<Position>) {
    && (forall x :: x in visited ==> forall y :: y in Next(g, x) ==> y in visited || y in stack)
    && (forall r :: r in refs ==> r in visited || r in stack)
  }
  lemma FrontierSkip(g: RefGraph, refs: seq<Position>, visited: set<Position>, stack: seq<Position>, v: Position)
    requires Frontier(g, refs, visited, stack + [v]) && v in visited
    ensures Frontier(g, refs, visited, stack)
  {
    assert forall y :: y in stack + [v] ==> y in stack || y == v;
  }
  lemma FrontierExpand(g: RefGraph, refs: seq<Position>, visited: set<Position>, stack: seq<Position>, v: Position)
    requires Frontier(g, refs, visited, stack + [v])
    ensures Frontier(g, refs, visited + {v}, stack + Next(g, v))
  {
    assert forall y :: y in stack + [v] ==> y in stack || y == v;
  }
  lemma WitnessCloses(g: RefGraph, c: Position, refs: seq<Position>, trail: map<Position, seq<Position>>)
    requires Witnessed(g, refs, trail) && c in trail
    ensures ClosesCycle(g, c, refs)
  {
    assert Reaches(g, trail[c][0], c);
  }

  lemma SplitLast(s: seq<Position>)
    requires |s| > 0
    ensures s == s[..|s| - 1] + [s[|s| - 1]]
  {
  }

  /** What the search keeps true between steps: pending and expanded nodes
      lie in a fixed finite universe; c was never expanded; every successor
      of an expanded node, and every reference, is expanded or pending; and
      each pending node has a witness path from one of the references. */
  ghost predicate SearchInv(g: RefGraph, c: Position, refs: seq<Position>, universe: set<Position>,
                            visited: set<Position>, stack: seq<Position>, trail: map<Position, seq<Position>>) {
    && universe == g.Keys + Targets(g) + Elems(refs)
    && Elems(stack) <= universe && visited <= universe
    && c !in visited
    && Frontier(g, refs, visited, stack)
    && Elems(stack) <= trail.Keys
    && Witnessed(g, refs, trail)
  }

  lemma SearchStart(g: RefGraph, c: Position, refs: seq<Position>)
    ensures SearchInv(g, c, refs, g.Keys + Targets(g) + Elems(refs), {}, refs, map r | r in refs :: [r])
  {
  }

  /** Expanding a popped node v other than c, not yet expanded: it is marked
      and its references are pushed. */
  lemma SearchExpand(g: RefGraph, c: Position, refs: seq<Position>, universe: set<Position>,
                     visited: set<Position>, stack: seq<Position>, trail: map<Position, seq<Position>>, v: Position)
    returns (trail': map<Position, seq<Position>>)
    requires SearchInv(g, c, refs, universe, visited, stack + [v], trail)
    requires v != c && v !in visited
    ensures SearchInv(g, c, refs, universe, visited + {v}, stack + Next(g, v), trail')
    ensures |universe - (visited + {v})| < |universe - visited|
  {
    assert v in universe;
    ShrinkingRest(universe, visited, v);
    NextInTargets(g, v);
    FrontierExpand(g, refs, visited, stack, v);
    trail' := ExtendTrail(g, refs, trail, v);
  }

  /** Popping a node v that was already expanded. */
  lemma SearchSkip(g: RefGraph, c: Position, refs: seq<Position>, universe: set<Position>,
                   visited: set<Position>, stack: seq<Position>, trail: map<Position, seq<Position>>, v: Position)
    requires SearchInv(g, c, refs, universe, visited, stack + [v], trail)
    requires v in visited
    ensures SearchInv(g, c, refs, universe, visited, stack, trail)
  {
    FrontierSkip(g, refs, visited, stack, v);
  }

  /** The cycle check, run before a formula with reference list `refs` is
      committed to cell c: true exactly when committing would close a cycle,
      direct self-reference included. Depth-first with an explicit stack; a
      fresh visited set per call, and a node already visited is a dead end. */
  method HasCyclicDependence(g: RefGraph, c: Position, refs: seq<Position>) returns (found: bool)
    ensures found <==> ClosesCycle(g, c, refs)
  {
    var visited: set<Position> := {};
    var stack := refs;
    ghost var universe := g.Keys + Targets(g) + Elems(refs);
    ghost var trail: map<Position, seq<Position>> := map r | r in refs :: [r];
    SearchStart(g, c, refs);
    while stack != []
      invariant SearchInv(g, c, refs, universe, visited, stack, trail)
      decreases |universe - visited|, |stack|
    {
      var v := stack[|stack| - 1];
      SplitLast(stack);
      stack := stack[..|stack| - 1];
      if v == c {
        WitnessCloses(g, c, refs, trail);
        return true;
      }
      if v in visited {
        SearchSkip(g, c, refs, universe, visited, stack, trail, v);
      } else {
        trail := SearchExpand(g, c, refs, universe, visited, stack, trail, v);
        visited := visited + {v};
        stack := stack + Next(g, v);
      }
    }
    ExhaustedMeansNoCycle(g, c, refs, visited);
    return false;
  }

  /** What the reachability walk keeps true between steps: pending and
      expanded nodes lie in a fixed finite universe; every successor of an
      expanded node, and the start node, is expanded or pending; and every
      expanded or pending node has a witness path from the start node. */
  ghost predicate ReachInv(g: RefGraph, from: Position, universe: set<Position>,
                           visited: set<Position>, stack: seq<Position>, trail: map<Position, seq<Position>>) {
    && universe == g.Keys + Targets(g) + {from}
    && Elems(stack) <= universe && visited <= universe
    && Frontier(g, [from], visited, stack)
    && Elems(stack) <= trail.Keys && visited <= trail.Keys
    && Witnessed(g, [from], trail)
  }

  lemma ReachStart(g: RefGraph, from: Position)
    ensures ReachInv(g, from, g.Keys + Targets(g) + {from}, {}, [from], map[from := [from]])
  {
    assert IsPath(g, [from]);
  }

  /** Expanding a popped node v not yet expanded: it is marked and its
      references are pushed. */
  lemma ReachExpand(g: RefGraph, from: Position, universe: set<Position>,
                    visited: set<Position>, stack: seq<Position>, trail: map<Position, seq<Position>>, v: Position)
    returns (trail': map<Position, seq<Position>>)
    requires ReachInv(g, from, universe, visited, stack + [v], trail)
    requires v !in visited
    ensures ReachInv(g, from, universe, visited + {v}, stack + Next(g, v), trail')
    ensures |universe - (visited + {v})| < |universe - visited|
  {
    assert v in universe;
    ShrinkingRest(universe, visited, v);
    NextInTargets(g, v);
    FrontierExpand(g, [from], visited, stack, v);
    trail' := ExtendTrail(g, [from], trail, v);
  }

  /** Popping a node that was already expanded. */
  lemma ReachSkip(g: RefGraph, from: Position, universe: set<Position>,
                  visited: set<Position>, stack: seq<Position>, trail: map<Position, seq<Position>>, v: Position)
    requires ReachInv(g, from, universe, visited, stack + [v], trail)
    requires v in visited
    ensures ReachInv(g, from, universe, visited, stack, trail)
  {
    FrontierSkip(g, [from], visited, stack, v);
  }

  /** With nothing pending, the expanded nodes are exactly those reachable
      from the start node. */
  lemma ReachEnd(g: RefGraph, from: Position, universe: set<Position>,
                 visited: set<Position>, trail: map<Position, seq<Position>>)
    requires ReachInv(g, from, universe, visited, [], trail)
    ensures forall q :: q in visited <==> Reaches(g, from, q)
  {
    forall q | Reaches(g, from, q) ensures q in visited {
      var s :| IsPath(g, s) && s[0] == from && s[|s| - 1] == q;
      ClosedHoldsPath(g, visited, s);
    }
    forall q | q in visited ensures Reaches(g, from, q) {
      assert Witness(g, [from], q, trail[q]);
    }
  }

  /** The cells a formula's evaluation reads, directly or through the
      formulas it reads: every position reachable from `from` along
      reference edges, `from` itself included. Depth-first with an explicit
      stack; each node is expanded once. */
  method Reachable(g: RefGraph, from: Position) returns (visited: set<Position>)
    ensures forall q :: q in visited <==> Reaches(g, from, q)
  {
    visited := {};
    var stack := [from];
    ghost var universe := g.Keys + Targets(g) + {from};
    ghost var trail: map<Position, seq<Position>> := map[from := [from]];
    ReachStart(g, from);
    while stack != []
      invariant ReachInv(g, from, universe, visited, stack, trail)
      decreases |universe - visited|, |stack|
    {
      var v := stack[|stack| - 1];
      SplitLast(stack);
      stack := stack[..|stack| - 1];
      if v in visited {
        ReachSkip(g, from, universe, visited, stack, trail, v);
      } else {
        trail := ReachExpand(g, from, universe, visited, stack, trail, v);
        visited := visited + {v};
        stack := stack + Next(g, v);
      }
    }
    ReachEnd(g, from, universe, visited, trail);
  }

  /** p is a stale path from a start node to x. */
  ghost predicate StaleWitness(d: DepGraph, cached: set<Position>, start: set<Position>, x: Position, p: seq<Position>) {
    IsStalePath(d, cached, p) && p[0] in start && p[|p| - 1] == x
  }

  ghost predicate StaleWitnessed(d: DepGraph, cached: set<Position>, start: set<Position>, trail: map<Position, seq<Position>>) {
    forall x :: x in trail ==> StaleWitness(d, cached, start, x, trail[x])
  }

  /** A witness for a cached node that is a start node or a dependent of a
      witnessed cleared node. */
  ghost function ExtendStale(d: DepGraph, cached: set<Position>, start: set<Position>,
                             trail: map<Position, seq<Position>>, cleared: set<Position>, x: Position)
    : (r: map<Position, seq<Position>>)
    requires StaleWitnessed(d, cached, start, trail) && cleared <= trail.Keys
    requires x in cached && x in start + Image(d, cleared)
    ensures StaleWitnessed(d, cached, start, r)
    ensures r.Keys == trail.Keys + {x}
  {
    if x in start then trail[x := [x]]
    else
      var y :| y in cleared && x in Deps(d, y);
      var p := trail[y] + [x];
      assert IsStalePath(d, cached, p) by {
        assert forall i :: 0 <= i < |p| - 1 ==> p[i] == trail[y][i];
      }
      trail[x := p]
  }

  lemma DepsInTargets(d: DepGraph, x: Position)
    ensures Deps(d, x) <= DepTargets(d)
  {
    forall y | y in Deps(d, x) ensures y in DepTargets(d) {
      assert x in d;
    }
  }

  /** Appending a node not yet in a repeat-free list keeps it repeat-free
      and adds exactly that node. */
  lemma AppendFresh(s: seq<Position>, x: Position)
    requires forall i, j :: 0 <= i < j < |s| ==> s[i] != s[j]
    requires x !in s
    ensures Elems(s + [x]) == Elems(s) + {x}
    ensures forall i, j :: 0 <= i < j < |s + [x]| ==> (s + [x])[i] != (s + [x])[j]
  {
    forall i, j | 0 <= i < j < |s + [x]| ensures (s + [x])[i] != (s + [x])[j] {
      if j < |s| {
        assert (s + [x])[i] == s[i] && (s + [x])[j] == s[j];
      } else {
        assert (s + [x])[i] == s[i] && (s + [x])[j] == x;
      }
    }
  }

  /** What the pass keeps true between steps: pending and processed nodes
      lie in a fixed finite universe; the processing order lists the
      processed nodes once each; the cleared nodes are the processed cached
      ones, each with a stale path from a start node; processed and pending
      nodes together are the start nodes and the dependents of cleared
      nodes. */
  ghost predicate PassInv(d: DepGraph, cached: set<Position>, start: set<Position>, universe: set<Position>,
                          work: set<Position>, visited: set<Position>, cleared: set<Position>,
                          order: seq<Position>, trail: map<Position, seq<Position>>) {
    && universe == start + DepTargets(d)
    && work <= universe && visited <= universe
    && Elems(order) == visited
    && (forall i, j :: 0 <= i < j < |order| ==> order[i] != order[j])
    && cleared == visited * cached
    && visited + work == start + Image(d, cleared)
    && (forall x :: x in cleared ==> Deps(d, x) <= visited + work)
    && cleared <= trail.Keys && StaleWitnessed(d, cached, start, trail)
  }

  lemma PassStart(d: DepGraph, cached: set<Position>, start: set<Position>)
    ensures PassInv(d, cached, start, start + DepTargets(d), start, {}, {}, [], map[])
  {
    assert Image(d, {}) == {};
  }

  /** Taking a node that was already processed. */
  lemma PassSkip(d: DepGraph, cached: set<Position>, start: set<Position>, universe: set<Position>,
                 work: set<Position>, visited: set<Position>, cleared: set<Position>,
                 order: seq<Position>, trail: map<Position, seq<Position>>, x: Position)
    requires PassInv(d, cached, start, universe, work, visited, cleared, order, trail)
    requires x in work && x in visited
    ensures PassInv(d, cached, start, universe, work - {x}, visited, cleared, order, trail)
  {
    assert visited + (work - {x}) == visited + work;
  }

  /** Processing a node without a cache: it is marked, nothing is cleared
      and the pass does not go beyond it. */
  lemma PassUncached(d: DepGraph, cached: set<Position>, start: set<Position>, universe: set<Position>,
                     work: set<Position>, visited: set<Position>, cleared: set<Position>,
                     order: seq<Position>, trail: map<Position, seq<Position>>, x: Position)
    requires PassInv(d, cached, start, universe, work, visited, cleared, order, trail)
    requires x in work && x !in visited && x !in cached
    ensures PassInv(d, cached, start, universe, work - {x}, visited + {x}, cleared, order + [x], trail)
    ensures |universe - (visited + {x})| < |universe - visited|
  {
    AppendFresh(order, x);
    assert (visited + {x}) + (work - {x}) == visited + work;
    ShrinkingRest(universe, visited, x);
  }

  /** Processing a node with a cache: it is marked and cleared, and its
      dependents become pending. */
  lemma PassCached(d: DepGraph, cached: set<Position>, start: set<Position>, universe: set<Position>,
                   work: set<Position>, visited: set<Position>, cleared: set<Position>,
                   order: seq<Position>, trail: map<Position, seq<Position>>, x: Position)
    returns (trail': map<Position, seq<Position>>)
    requires PassInv(d, cached, start, universe, work, visited, cleared, order, trail)
    requires x in work && x !in visited && x in cached
    ensures PassInv(d, cached, start, universe, work - {x} + Deps(d, x), visited + {x}, cleared + {x},
                    order + [x], trail')
    ensures |universe - (visited + {x})| < |universe - visited|
  {
    AppendFresh(order, x);
    trail' := ExtendStale(d, cached, start, trail, cleared, x);
    DepsInTargets(d, x);
    CachedSets(d, cached, start, work, visited, cleared, x);
    ShrinkingRest(universe, visited, x);
  }

  lemma ImageAdd(d: DepGraph, nodes: set<Position>, x: Position)
    ensures Image(d, nodes + {x}) == Image(d, nodes) + Deps(d, x)
  {
  }

  lemma CachedSets(d: DepGraph, cached: set<Position>, start: set<Position>,
                   work: set<Position>, visited: set<Position>, cleared: set<Position>, x: Position)
    requires cleared == visited * cached && visited + work == start + Image(d, cleared)
    requires forall y :: y in cleared ==> Deps(d, y) <= visited + work
    requires x in work && x in cached
    ensures cleared + {x} == (visited + {x}) * cached
    ensures (visited + {x}) + (work - {x} + Deps(d, x)) == start + Image(d, cleared + {x})
    ensures forall y :: y in cleared + {x} ==> Deps(d, y) <= (visited + {x}) + (work - {x} + Deps(d, x))
  {
    ImageAdd(d, cleared, x);
    assert (visited + {x}) + (work - {x} + Deps(d, x)) == visited + work + Deps(d, x);
  }

  /** When nothing is pending, the cleared set is exactly the stale set and
      the processed nodes are the start nodes and the cleared nodes'
      dependents. */
  lemma PassEnd(d: DepGraph, cached: set<Position>, start: set<Position>, universe: set<Position>,
                visited: set<Position>, cleared: set<Position>,
                order: seq<Position>, trail: map<Position, seq<Position>>)
    requires PassInv(d, cached, start, universe, {}, visited, cleared, order, trail)
    ensures cleared == Stale(d, cached, start)
    ensures Elems(order) == start + Image(d, cleared)
  {
    forall x | x in Stale(d, cached, start) ensures x in cleared {
      var s :| IsStalePath(d, cached, s) && s[0] in start && s[|s| - 1] == x;
      ClosedHoldsStale(d, cached, start, visited, s);
    }
    forall x | x in cleared ensures x in Stale(d, cached, start) {
      assert StaleWitness(d, cached, start, x, trail[x]);
    }
  }

  /** One invalidation pass from the direct dependents `start` of a changed
      cell. Returns the nodes whose caches it clears, which are exactly the
      stale ones, and the nodes it processes in order: each at most once,
      and they are the start nodes and the dependents of cleared nodes. */
  method InvalidationPass(d: DepGraph, cached: set<Position>, start: set<Position>)
    returns (cleared: set<Position>, order: seq<Position>)
    ensures cleared == Stale(d, cached, start)
    ensures Elems(order) == start + Image(d, cleared)
    ensures forall i, j :: 0 <= i < j < |order| ==> order[i] != order[j]
  {
    var work := start;
    var visited: set<Position> := {};
    cleared := {};
    order := [];
    ghost var universe := start + DepTargets(d);
    ghost var trail: map<Position, seq<Position>> := map[];
    PassStart(d, cached, start);
    while work != {}
      invariant PassInv(d, cached, start, universe, work, visited, cleared, order, trail)
      decreases |universe - visited|, |work|
    {
      var x :| x in work;
      if x in visited {
        PassSkip(d, cached, start, universe, work, visited, cleared, order, trail, x);
        work := work - {x};
      } else if x in cached {
        trail := PassCached(d, cached, start, universe, work, visited, cleared, order, trail, x);
        cleared := cleared + {x};
        work := work - {x} + Deps(d, x);
        visited := visited + {x};
        order := order + [x];
      } else {
        PassUncached(d, cached, start, universe, work, visited, cleared, order, trail, x);
        work := work - {x};
        visited := visited + {x};
        order := order + [x];
      }
    }
    PassEnd(d, cached, start, universe, visited, cleared, order, trail);
  }
}
