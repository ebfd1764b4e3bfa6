/** The sheet's cell records seen as the two edge relations of cell.h, the
    invariants the sheet keeps between public operations, and the elementary
    grid updates from which `Set`, `AddCellReferences`, `ClearCellReferences`
    and `ClearCell` are built, each with what it preserves.

    The invariant: references and dependents are exact inverses, every
    recorded reference set is the one the cell's formula names, formula
    references are valid positions, stored text is never empty and never a
    formula, and the reference relation is acyclic. Between public
    operations the sheet also keeps its caches closed: a formula holding a
    cached result reads only formulas that hold one too. */
module SheetState {
  import opened Common
  import opened Formulas
  import opened Cells
  import opened Graphs
  import opened Grids

  /** The content at p, if a cell is there. */
  function ContentAt(g: Grid, p: Position): Option<Content> {
    match Lookup(g, p)
    case None => None
    case Some(c) => Some(c.content)
  }

  /** The positions the formula at p names; none for any other slot. */
  function CellsAt(g: Grid, p: Position): seq<Position> {
    match ContentAt(g, p)
    case None => []
    case Some(c) => GetReferencedCells(c)
  }

  /** The recorded references of p (`referencing_cells_`). */
  function Refs(g: Grid, p: Position): set<Position> {
    match Lookup(g, p)
    case None => {}
    case Some(c) => c.refs
  }

  /** The recorded dependents of p (`dependent_cells_`). */
  function DepsAt(g: Grid, p: Position): set<Position> {
    match Lookup(g, p)
    case None => {}
    case Some(c) => c.deps
  }

  /** The cells whose recorded references include q. */
  function Readers(g: Grid, q: Position): (r: set<Position>)
    ensures forall p :: p in r <==> Present(g, p) && q in Refs(g, p)
  {
    set p | p in Occupied(g) && q in Refs(g, p)
  }

  /** The reference relation the cycle check walks: each cell's formula cells. */
  function RefGraphOf(g: Grid): (r: RefGraph)
    ensures r.Keys == Occupied(g)
    ensures forall p :: Next(r, p) == CellsAt(g, p)
  {
    map p | p in Occupied(g) :: CellsAt(g, p)
  }

  /** The dependents relation the invalidation pass walks. */
  function DepGraphOf(g: Grid): (r: DepGraph)
    ensures forall p :: Deps(r, p) == DepsAt(g, p)
  {
    map p | p in Occupied(g) :: DepsAt(g, p)
  }

  predicate IsFormulaAt(g: Grid, p: Position) {
    ContentAt(g, p).Some? && ContentAt(g, p).value.FormulaContent?
  }

  function FormulaAt(g: Grid, p: Position): Formula
    requires IsFormulaAt(g, p)
  {
    ContentAt(g, p).value.formula
  }

  /** The positions whose formula currently holds a cached result. */
  function CachedSet(g: Grid): (r: set<Position>)
    ensures forall p :: p in r <==> IsFormulaAt(g, p) && HasCache(FormulaAt(g, p))
  {
    set p | p in Occupied(g) && IsFormulaAt(g, p) && HasCache(FormulaAt(g, p))
  }

  /** The caches a change of p makes stale: those reachable from the cells
      that read p through cached formulas. */
  ghost function StaleAfter(g: Grid, p: Position): set<Position> {
    Stale(DepGraphOf(g), CachedSet(g), Readers(g, p))
  }

  /** Every cell's dependents are exactly the cells that record it as a reference. */
  ghost predicate DepsMatch(g: Grid) {
    forall q :: Present(g, q) ==> DepsAt(g, q) == Readers(g, q)
  }

  /** Every cell except possibly x records exactly its formula's cells. */
  ghost predicate RefsMatchExcept(g: Grid, x: Option<Position>) {
    forall p :: Present(g, p) && Some(p) != x ==> Refs(g, p) == Elems(CellsAt(g, p))
  }

  ghost predicate RefsMatch(g: Grid) {
    RefsMatchExcept(g, None)
  }

  ghost predicate RefsValid(g: Grid) {
    forall p, q :: q in CellsAt(g, p) ==> IsValid(q)
  }

  /** Stored text is exactly what the classification calls text. */
  ghost predicate TextsClassified(g: Grid) {
    forall p :: ContentAt(g, p).Some? && ContentAt(g, p).value.Text? ==>
      Classify(ContentAt(g, p).value.text) == TextKind
  }

  /** What holds between every elementary step. */
  ghost predicate Coherent(g: Grid) {
    Bounded(g) && DepsMatch(g) && RefsValid(g) && TextsClassified(g)
  }

  /** What holds between public operations. */
  ghost predicate WellFormed(g: Grid) {
    Coherent(g) && RefsMatch(g) && Acyclic(RefGraphOf(g))
  }

  /** References and dependents are exact inverses, and every dependent is
      a cell of the sheet. */
  lemma Inverse(g: Grid)
    requires WellFormed(g)
    ensures forall p, q :: Present(g, p) && Present(g, q) ==> (q in Refs(g, p) <==> p in DepsAt(g, q))
    ensures forall p, q :: p in DepsAt(g, q) ==> Present(g, p)
  {
  }

  /** No cell reads itself, directly or through others. */
  lemma NoSelfReference(g: Grid, p: Position)
    requires WellFormed(g)
    ensures p !in Refs(g, p)
    ensures !ClosesCycle(RefGraphOf(g), p, CellsAt(g, p))
  {
    AcyclicNoLoop(RefGraphOf(g), p);
  }

  /** Equal contents, position by position. */
  ghost predicate SameContents(g: Grid, h: Grid) {
    forall q :: ContentAt(g, q) == ContentAt(h, q)
  }

  /** Grids with the same contents have the same reference relation and the
      same formulas, and agree on every invariant that depends on contents. */
  lemma SameContentsKeep(g: Grid, h: Grid)
    requires SameContents(g, h)
    ensures Occupied(g) == Occupied(h)
    ensures RefGraphOf(g) == RefGraphOf(h)
    ensures forall p :: IsFormulaAt(g, p) == IsFormulaAt(h, p)
    ensures forall p :: IsFormulaAt(g, p) ==> FormulaAt(g, p) == FormulaAt(h, p)
    ensures RefsValid(g) == RefsValid(h)
    ensures TextsClassified(g) == TextsClassified(h)
  {
    assert forall q :: Present(g, q) == ContentAt(g, q).Some?;
    assert forall q :: Present(h, q) == ContentAt(h, q).Some?;
    assert forall q :: CellsAt(g, q) == CellsAt(h, q);
  }

  /** Adds the edge x -> y at both ends: y joins x's references and x joins
      y's dependents. */
  function Link(g: Grid, x: Position, y: Position): (r: Grid)
    requires InGrid(g, x) && Present(g, x) && InGrid(g, y) && Present(g, y)
    ensures SameShape(g, r) && SameContents(g, r)
    ensures forall q :: Refs(r, q) == if q == x then Refs(g, x) + {y} else Refs(g, q)
    ensures forall q :: DepsAt(r, q) == if q == y then DepsAt(g, y) + {x} else DepsAt(g, q)
    ensures forall q :: Present(r, q) == Present(g, q)
  {
    var cx := Lookup(g, x).value;
    var g1 := Store(g, x, Some(cx.(refs := cx.refs + {y})));
    var cy := Lookup(g1, y).value;
    Store(g1, y, Some(cy.(deps := cy.deps + {x})))
  }

  /** Removes the edge x -> y at both ends; a y that is no longer in the
      sheet only loses its place among x's references. */
  function Unlink(g: Grid, x: Position, y: Position): (r: Grid)
    requires InGrid(g, x) && Present(g, x)
    ensures SameShape(g, r) && SameContents(g, r)
    ensures forall q :: Refs(r, q) == if q == x then Refs(g, x) - {y} else Refs(g, q)
    ensures forall q :: DepsAt(r, q) == if q == y then DepsAt(g, y) - {x} else DepsAt(g, q)
    ensures forall q :: Present(r, q) == Present(g, q)
  {
    var cx := Lookup(g, x).value;
    var g1 := Store(g, x, Some(cx.(refs := cx.refs - {y})));
    if Present(g1, y) then
      var cy := Lookup(g1, y).value;
      Store(g1, y, Some(cy.(deps := cy.deps - {x})))
    else g1
  }

  lemma LinkKeeps(g: Grid, x: Position, y: Position)
    requires InGrid(g, x) && Present(g, x) && InGrid(g, y) && Present(g, y)
    requires Coherent(g)
    ensures Coherent(Link(g, x, y))
  {
    var r := Link(g, x, y);
    SameContentsKeep(g, r);
    forall q | Present(r, q) ensures DepsAt(r, q) == Readers(r, q) {
      EdgeReaders(g, r, x, y, q, true);
    }
  }

  /** The readers after adding (or removing) the edge x -> y at x's end. */
  lemma EdgeReaders(g: Grid, r: Grid, x: Position, y: Position, q: Position, add: bool)
    requires forall p :: Present(r, p) == Present(g, p)
    requires Present(g, x)
    requires forall p :: Refs(r, p) == if p == x then (if add then Refs(g, x) + {y} else Refs(g, x) - {y}) else Refs(g, p)
    ensures Readers(r, q) == if q != y then Readers(g, q) else if add then Readers(g, q) + {x} else Readers(g, q) - {x}
  {
  }

  lemma UnlinkKeeps(g: Grid, x: Position, y: Position)
    requires InGrid(g, x) && Present(g, x)
    requires Coherent(g)
    ensures Coherent(Unlink(g, x, y))
  {
    var r := Unlink(g, x, y);
    SameContentsKeep(g, r);
    forall q | Present(r, q) ensures DepsAt(r, q) == Readers(r, q) {
      EdgeReaders(g, r, x, y, q, false);
    }
  }

  /** A fresh Empty cell at an absent position, whose dependents are the
      cells that already record it as a reference. */
  function Placeholder(g: Grid, q: Position): (r: Grid)
    requires InGrid(g, q)
  {
    Store(g, q, Some(CellRec(Empty, {}, Readers(g, q))))
  }

  lemma PlaceholderKeeps(g: Grid, q: Position)
    requires InGrid(g, q) && !Present(g, q) && Coherent(g)
    ensures Coherent(Placeholder(g, q))
    ensures forall p :: ContentAt(Placeholder(g, q), p) == if p == q then Some(Empty) else ContentAt(g, p)
    ensures forall p :: Refs(Placeholder(g, q), p) == Refs(g, p)
  {
    var r := Placeholder(g, q);
    assert forall p :: ContentAt(r, p) == if p == q then Some(Empty) else ContentAt(g, p);
    assert forall p :: CellsAt(r, p) == if p == q then [] else CellsAt(g, p);
    forall p ensures Readers(r, p) == Readers(g, p) {
      assert forall x :: x in Readers(r, p) <==> x in Readers(g, p);
    }
  }

  /** Replaces the content of a present cell; its edge sets stay. */
  function Replace(g: Grid, p: Position, c: Content): (r: Grid)
    requires InGrid(g, p) && Present(g, p)
    ensures SameShape(g, r)
  {
    Store(g, p, Some(Lookup(g, p).value.(content := c)))
  }

  /** Replacing content keeps the edge sets, so dependents still match; it
      keeps the rest of the invariant when the new content is classified
      text, or a formula with valid cells. */
  lemma ReplaceKeeps(g: Grid, p: Position, c: Content)
    requires InGrid(g, p) && Present(g, p) && Coherent(g)
    requires c.Text? ==> Classify(c.text) == TextKind
    requires forall q :: q in GetReferencedCells(c) ==> IsValid(q)
    ensures Coherent(Replace(g, p, c))
    ensures forall q :: ContentAt(Replace(g, p, c), q) == if q == p then Some(c) else ContentAt(g, q)
    ensures forall q :: Refs(Replace(g, p, c), q) == Refs(g, q)
    ensures forall q :: DepsAt(Replace(g, p, c), q) == DepsAt(g, q)
  {
    var r := Replace(g, p, c);
    assert forall q :: ContentAt(r, q) == if q == p then Some(c) else ContentAt(g, q);
    forall x ensures Readers(r, x) == Readers(g, x) {
      assert forall y :: y in Readers(r, x) <==> y in Readers(g, x);
    }
    assert RefsValid(r) by {
      forall x, q | q in CellsAt(r, x) ensures IsValid(q) {
        if x != p {
          assert CellsAt(r, x) == CellsAt(g, x);
        }
      }
    }
  }

  /** Frees the slot of a cell that records no references. */
  function Remove(g: Grid, p: Position): (r: Grid)
    requires InGrid(g, p)
    ensures SameShape(g, r)
  {
    Store(g, p, None)
  }

  lemma RemoveKeeps(g: Grid, p: Position)
    requires InGrid(g, p) && Coherent(g) && Refs(g, p) == {}
    ensures Coherent(Remove(g, p))
    ensures forall q :: ContentAt(Remove(g, p), q) == if q == p then None else ContentAt(g, q)
    ensures forall q :: q != p ==> Refs(Remove(g, p), q) == Refs(g, q) && DepsAt(Remove(g, p), q) == DepsAt(g, q)
  {
    var r := Remove(g, p);
    assert forall q :: ContentAt(r, q) == if q == p then None else ContentAt(g, q);
    forall x ensures Readers(r, x) == Readers(g, x) {
      assert forall y :: y in Readers(r, x) <==> y in Readers(g, x);
    }
    assert RefsValid(r) by {
      forall x, q | q in CellsAt(r, x) ensures IsValid(q) {
        assert CellsAt(r, x) == CellsAt(g, x);
      }
    }
  }

  /** ClosesCycle only depends on the successors of each node and on which
      positions are named. */
  lemma ClosesCycleSame(g: RefGraph, h: RefGraph, c: Position, refs: seq<Position>, refs': seq<Position>)
    requires forall x :: Next(g, x) == Next(h, x)
    requires forall x :: x in refs <==> x in refs'
    ensures ClosesCycle(g, c, refs) == ClosesCycle(h, c, refs')
  {
    assert forall s :: IsPath(g, s) == IsPath(h, s);
  }

  /** The commit rule at sheet level: if the new references of p close no
      cycle, a grid whose reference relation only loses edges relative to
      the old one with p's list replaced is acyclic. */
  lemma CommitKeepsAcyclic(g: Grid, h: Grid, p: Position, cells: seq<Position>)
    requires Acyclic(RefGraphOf(g))
    requires !ClosesCycle(RefGraphOf(g), p, cells)
    requires forall x :: x != p ==> forall y :: y in CellsAt(h, x) ==> y in CellsAt(g, x)
    requires forall y :: y in CellsAt(h, p) ==> y in cells
    ensures Acyclic(RefGraphOf(h))
  {
    var G := RefGraphOf(g);
    RebindKeepsAcyclic(G, p, cells);
    assert SubGraph(RefGraphOf(h), G[p := cells]) by {
      forall x, y | y in Next(RefGraphOf(h), x) ensures y in Next(G[p := cells], x) {
        if x != p {
          assert y in CellsAt(g, x);
        }
      }
    }
    SubGraphAcyclic(RefGraphOf(h), G[p := cells]);
  }

  /** Grids that agree slot by slot have every view of the grid in common. */
  lemma LookupsKeep(g: Grid, h: Grid)
    requires forall q :: Lookup(g, q) == Lookup(h, q)
    ensures SameContents(g, h)
    ensures forall q :: Present(g, q) == Present(h, q)
    ensures forall q :: Refs(g, q) == Refs(h, q) && DepsAt(g, q) == DepsAt(h, q)
    ensures forall q :: Readers(g, q) == Readers(h, q)
    ensures DepGraphOf(g) == DepGraphOf(h)
  {
    assert Occupied(g) == Occupied(h);
  }

  /** ... and so the same invariants, given the new shape is in bounds. */
  lemma LookupsKeepInvariants(g: Grid, h: Grid)
    requires forall q :: Lookup(g, q) == Lookup(h, q)
    requires Bounded(h) && Coherent(g)
    ensures Coherent(h)
    ensures forall x :: RefsMatchExcept(g, x) ==> RefsMatchExcept(h, x)
    ensures Acyclic(RefGraphOf(g)) ==> Acyclic(RefGraphOf(h))
  {
    LookupsKeep(g, h);
    SameContentsKeep(g, h);
  }

  /** Dependents of uncached nodes play no part in which caches are stale. */
  lemma StaleOnlyCached(d: DepGraph, e: DepGraph, cached: set<Position>, start: set<Position>)
    requires forall x :: x in cached ==> Deps(d, x) == Deps(e, x)
    ensures Stale(d, cached, start) == Stale(e, cached, start)
  {
    assert forall s :: IsStalePath(d, cached, s) == IsStalePath(e, cached, s);
  }

  /** A slot with the memoised result of its formula dropped. */
  function UncachedSlot(slot: Option<CellRec>): (r: Option<CellRec>)
    ensures r.Some? <==> slot.Some?
    ensures r.Some? ==> r.value == slot.value.(content := Uncached(slot.value.content))
  {
    match slot
    case None => None
    case Some(c) => Some(c.(content := Uncached(c.content)))
  }

  /** g and h have the same shape and differ at most in memoised results. */
  ghost predicate SameButCaches(g: Grid, h: Grid) {
    SameShape(g, h) && forall q :: UncachedSlot(Lookup(g, q)) == UncachedSlot(Lookup(h, q))
  }

  /** Two slots that differ at most in a formula's memoised result. */
  lemma SlotButCache(a: Option<CellRec>, b: Option<CellRec>)
    requires UncachedSlot(a) == UncachedSlot(b)
    ensures a.Some? == b.Some?
    ensures a.Some? ==> a.value.refs == b.value.refs && a.value.deps == b.value.deps
    ensures a.Some? ==> GetReferencedCells(a.value.content) == GetReferencedCells(b.value.content)
    ensures a.Some? && (a.value.content.Text? || b.value.content.Text?) ==> a == b
  {
    if a.Some? {
      assert Uncached(a.value.content) == Uncached(b.value.content);
    }
  }

  /** Grids that differ only in memoised results agree on every edge set,
      on the reference relation and on every invariant. */
  lemma SameButCachesKeep(g: Grid, h: Grid)
    requires SameButCaches(g, h)
    ensures forall q :: Present(g, q) == Present(h, q)
    ensures forall q :: Refs(g, q) == Refs(h, q) && DepsAt(g, q) == DepsAt(h, q)
    ensures forall q :: CellsAt(g, q) == CellsAt(h, q)
    ensures Occupied(g) == Occupied(h)
    ensures forall q :: Readers(g, q) == Readers(h, q)
    ensures RefGraphOf(g) == RefGraphOf(h) && DepGraphOf(g) == DepGraphOf(h)
    ensures Coherent(g) == Coherent(h)
    ensures WellFormed(g) == WellFormed(h)
  {
    forall q ensures Present(g, q) == Present(h, q) && Refs(g, q) == Refs(h, q) && DepsAt(g, q) == DepsAt(h, q)
      && CellsAt(g, q) == CellsAt(h, q)
      && (ContentAt(g, q).Some? && ContentAt(g, q).value.Text? ==> ContentAt(h, q) == ContentAt(g, q))
      && (ContentAt(h, q).Some? && ContentAt(h, q).value.Text? ==> ContentAt(h, q) == ContentAt(g, q))
    {
      SlotButCache(Lookup(g, q), Lookup(h, q));
    }
    assert Occupied(g) == Occupied(h);
    assert forall q :: Readers(g, q) == Readers(h, q);
  }

  /** The grid with the memoised results at `clear` dropped. */
  ghost function ClearCachesIn(g: Grid, clear: set<Position>): (r: Grid)
    ensures SameShape(g, r)
    ensures forall q :: Lookup(r, q) == if q in clear then UncachedSlot(Lookup(g, q)) else Lookup(g, q)
  {
    seq(|g|, i requires 0 <= i < |g| =>
      seq(|g[i]|, j requires 0 <= j < |g[i]| =>
        if Position(i, j) in clear then UncachedSlot(g[i][j]) else g[i][j]))
  }

  /** Dropping memoised results keeps everything else, and leaves no cache
      at a cleared position; every other formula keeps its own. */
  lemma ClearCachesInKeeps(g: Grid, clear: set<Position>)
    ensures SameButCaches(g, ClearCachesIn(g, clear))
    ensures CachedSet(ClearCachesIn(g, clear)) == CachedSet(g) - clear
  {
    var r := ClearCachesIn(g, clear);
    forall q ensures UncachedSlot(Lookup(g, q)) == UncachedSlot(Lookup(r, q)) {
      if q in clear && Lookup(g, q).Some? {
        assert Uncached(Uncached(Lookup(g, q).value.content)) == Uncached(Lookup(g, q).value.content);
      }
    }
    assert forall q :: Present(r, q) == Present(g, q);
  }

  /** Grids of the same shape that agree slot by slot are equal. */
  lemma GridExt(g: Grid, h: Grid)
    requires SameShape(g, h)
    requires forall q :: Lookup(g, q) == Lookup(h, q)
    ensures g == h
  {
    forall i | 0 <= i < |g| ensures g[i] == h[i] {
      forall j | 0 <= j < |g[i]| ensures g[i][j] == h[i][j] {
        assert Lookup(g, Position(i, j)) == Lookup(h, Position(i, j));
      }
    }
  }

  /** Clearing one more position, one slot at a time. */
  lemma ClearStep(g0: Grid, done: set<Position>, p: Position)
    ensures InGrid(g0, p) ==>
      ClearCachesIn(g0, done + {p}) == Store(ClearCachesIn(g0, done), p, UncachedSlot(Lookup(g0, p)))
    ensures UncachedSlot(Lookup(g0, p)) == Lookup(g0, p) ==>
      ClearCachesIn(g0, done + {p}) == ClearCachesIn(g0, done)
  {
    var a := ClearCachesIn(g0, done + {p});
    var b := ClearCachesIn(g0, done);
    if InGrid(g0, p) {
      GridExt(a, Store(b, p, UncachedSlot(Lookup(g0, p))));
    }
    if UncachedSlot(Lookup(g0, p)) == Lookup(g0, p) {
      GridExt(a, b);
    }
  }

  /** A slot whose formula has been evaluated through its cache, `exec` being
      what its tree computes if it has to be executed. */
  function FilledSlot(slot: Option<CellRec>, exec: Execution): (r: Option<CellRec>)
    ensures UncachedSlot(r) == UncachedSlot(slot)
  {
    match slot
    case None => None
    case Some(c) =>
      if c.content.FormulaContent? then
        var f := c.content.formula;
        assert Uncached(FormulaContent(Evaluate(f, exec).1)) == Uncached(FormulaContent(f));
        Some(c.(content := FormulaContent(Evaluate(f, exec).1)))
      else slot
  }

  /** The grid with the formula at every position of `fill` evaluated
      through its cache, the formula at q by execution exec(q). */
  ghost function FillCachesIn(g: Grid, fill: set<Position>, exec: Position -> Execution): (r: Grid)
    ensures SameShape(g, r)
    ensures forall q :: Lookup(r, q) == if q in fill then FilledSlot(Lookup(g, q), exec(q)) else Lookup(g, q)
  {
    seq(|g|, i requires 0 <= i < |g| =>
      seq(|g[i]|, j requires 0 <= j < |g[i]| =>
        if Position(i, j) in fill then FilledSlot(g[i][j], exec(Position(i, j))) else g[i][j]))
  }

  /** Filling caches keeps everything but the caches; afterwards every
      formula of `fill` holds a cache, the one Evaluate gives it, and every
      other formula keeps its own. */
  lemma FillCachesInKeeps(g: Grid, fill: set<Position>, exec: Position -> Execution)
    ensures SameButCaches(g, FillCachesIn(g, fill, exec))
    ensures forall p :: p in CachedSet(FillCachesIn(g, fill, exec)) <==>
              p in CachedSet(g) || (p in fill && IsFormulaAt(g, p))
    ensures forall p :: IsFormulaAt(FillCachesIn(g, fill, exec), p) == IsFormulaAt(g, p)
    ensures forall p :: p in fill && IsFormulaAt(g, p) ==>
              FormulaAt(FillCachesIn(g, fill, exec), p) == Evaluate(FormulaAt(g, p), exec(p)).1
  {
    var r := FillCachesIn(g, fill, exec);
    assert forall q :: IsFormulaAt(r, q) == IsFormulaAt(g, q);
  }

  /** Filling one more position, one slot at a time. */
  lemma FillStep(g0: Grid, done: set<Position>, p: Position, exec: Position -> Execution)
    ensures InGrid(g0, p) ==>
      FillCachesIn(g0, done + {p}, exec) == Store(FillCachesIn(g0, done, exec), p, FilledSlot(Lookup(g0, p), exec(p)))
    ensures FilledSlot(Lookup(g0, p), exec(p)) == Lookup(g0, p) ==>
      FillCachesIn(g0, done + {p}, exec) == FillCachesIn(g0, done, exec)
  {
    var a := FillCachesIn(g0, done + {p}, exec);
    var b := FillCachesIn(g0, done, exec);
    if InGrid(g0, p) {
      GridExt(a, Store(b, p, FilledSlot(Lookup(g0, p), exec(p))));
    }
    if FilledSlot(Lookup(g0, p), exec(p)) == Lookup(g0, p) {
      GridExt(a, b);
    }
  }

  /** A formula holding a cached result reads only formulas that hold one:
      a cache is filled only after the formulas it was computed from. */
  ghost predicate CachesClosed(g: Grid) {
    forall p, q :: p in CachedSet(g) && q in CellsAt(g, p) && IsFormulaAt(g, q) ==> q in CachedSet(g)
  }

  /** No cached result was computed, directly or through other formulas,
      from the cell at pos. */
  ghost predicate NoCacheReads(g: Grid, pos: Position) {
    forall p :: p in CachedSet(g) ==> !Reaches(RefGraphOf(g), p, pos)
  }

  /** Along a walk from a cached formula in a grid whose caches are closed,
      every node but the last holds a cache. */
  lemma {:induction false} CachedPath(g: Grid, s: seq<Position>)
    requires CachesClosed(g) && IsPath(RefGraphOf(g), s) && s[0] in CachedSet(g)
    ensures forall i :: 0 <= i < |s| - 1 ==> s[i] in CachedSet(g)
  {
    if |s| > 2 {
      var s' := s[..|s| - 1];
      assert IsPath(RefGraphOf(g), s') by {
        forall i | 0 <= i < |s'| - 1 ensures s'[i + 1] in Next(RefGraphOf(g), s'[i]) {
          assert s'[i] == s[i] && s'[i + 1] == s[i + 1];
        }
      }
      CachedPath(g, s');
      var n := |s|;
      assert s[n - 1] in CellsAt(g, s[n - 2]) && s[n - 2] in CellsAt(g, s[n - 3]);
      assert IsFormulaAt(g, s[n - 2]);
      assert forall i :: 0 <= i < n - 2 ==> s[i] == s'[i];
    }
  }

  /** Every formula a cached formula reaches holds a cache. */
  lemma CachedReach(g: Grid, p: Position, q: Position)
    requires CachesClosed(g) && p in CachedSet(g) && Reaches(RefGraphOf(g), p, q) && IsFormulaAt(g, q)
    ensures q in CachedSet(g)
  {
    var s :| IsPath(RefGraphOf(g), s) && s[0] == p && s[|s| - 1] == q;
    CachedPath(g, s);
    if |s| > 1 {
      assert q in CellsAt(g, s[|s| - 2]);
    }
  }

  /** With closed caches, a cell that no cached formula reads directly and
      that holds no cache itself is reached by no cached formula. */
  lemma NoCachedReader(g: Grid, pos: Position)
    requires CachesClosed(g) && pos !in CachedSet(g)
    requires forall x :: x in CachedSet(g) ==> pos !in CellsAt(g, x)
    ensures NoCacheReads(g, pos)
  {
    forall p, s | p in CachedSet(g) && IsPath(RefGraphOf(g), s) && s[0] == p ensures s[|s| - 1] != pos {
      CachedPath(g, s);
      if |s| > 1 {
        assert s[|s| - 1] in CellsAt(g, s[|s| - 2]);
      }
    }
  }

  /** Filling the caches of a set closed under the reference edges keeps
      the caches closed. */
  lemma FillKeepsClosed(g: Grid, fill: set<Position>, exec: Position -> Execution)
    requires CachesClosed(g)
    requires forall x, y :: x in fill && y in CellsAt(g, x) ==> y in fill
    ensures CachesClosed(FillCachesIn(g, fill, exec))
  {
    var r := FillCachesIn(g, fill, exec);
    FillCachesInKeeps(g, fill, exec);
    SameButCachesKeep(g, r);
    assert forall q :: IsFormulaAt(r, q) == IsFormulaAt(g, q);
  }

  /** Reading a cached formula changes nothing: with closed caches, every
      formula it reaches already holds a cache. */
  lemma CachedReadKeeps(g: Grid, pos: Position, exec: Position -> Execution)
    requires CachesClosed(g) && pos in CachedSet(g)
    ensures FillCachesIn(g, ReachSet(RefGraphOf(g), pos), exec) == g
  {
    var fill := ReachSet(RefGraphOf(g), pos);
    var r := FillCachesIn(g, fill, exec);
    forall q ensures Lookup(r, q) == Lookup(g, q) {
      if q in fill && IsFormulaAt(g, q) {
        CachedReach(g, pos, q);
      }
    }
    GridExt(g, r);
  }

  /** What a grid that agrees with the stale-cleared grid away from pos,
      apart from new Empty cells, shares with the grid before the clear. */
  lemma StaleClearedView(g0: Grid, g: Grid, pos: Position)
    requires pos !in CachedSet(g)
    requires forall q :: q != pos ==>
               ContentAt(g, q) == ContentAt(ClearCachesIn(g0, StaleAfter(g0, pos)), q) || ContentAt(g, q) == Some(Empty)
    ensures forall p :: p in CachedSet(g) ==>
              p in CachedSet(g0) && p !in StaleAfter(g0, pos) && CellsAt(g, p) == CellsAt(g0, p)
    ensures forall q :: q != pos && IsFormulaAt(g, q) ==>
              IsFormulaAt(g0, q) && (q in CachedSet(g0) && q !in StaleAfter(g0, pos) ==> q in CachedSet(g))
  {
    var gi := ClearCachesIn(g0, StaleAfter(g0, pos));
    ClearCachesInKeeps(g0, StaleAfter(g0, pos));
    SameButCachesKeep(g0, gi);
    assert forall q :: q != pos && IsFormulaAt(g, q) ==> ContentAt(g, q) == ContentAt(gi, q);
    assert forall q :: IsFormulaAt(gi, q) ==> IsFormulaAt(g0, q) by {
      forall q | IsFormulaAt(gi, q) ensures IsFormulaAt(g0, q) {
        SlotButCache(Lookup(g0, q), Lookup(gi, q));
      }
    }
  }

  /** After the caches a change of pos makes stale are dropped, a grid
      whose formulas other than at pos are those of the cleared grid, whose
      new cells are Empty, and where pos holds no cache, has closed caches
      and no cached result computed from pos. */
  lemma StaleClearedKeeps(g0: Grid, g: Grid, pos: Position)
    requires WellFormed(g0) && CachesClosed(g0)
    requires pos !in CachedSet(g)
    requires forall q :: q != pos ==>
               ContentAt(g, q) == ContentAt(ClearCachesIn(g0, StaleAfter(g0, pos)), q) || ContentAt(g, q) == Some(Empty)
    ensures CachesClosed(g) && NoCacheReads(g, pos)
  {
    StaleClearedView(g0, g, pos);
    var d, cached, start := DepGraphOf(g0), CachedSet(g0), Readers(g0, pos);
    forall x | x in CachedSet(g) ensures pos !in CellsAt(g, x) {
      if pos in CellsAt(g, x) {
        assert x in start;
        StaleGrows(d, cached, start, x, x);
      }
    }
    forall p, q | p in CachedSet(g) && q in CellsAt(g, p) && IsFormulaAt(g, q) ensures q in CachedSet(g) {
      assert q in cached;
      if q in Stale(d, cached, start) {
        assert p in Deps(d, q);
        StaleGrows(d, cached, start, q, p);
      }
    }
    NoCachedReader(g, pos);
  }
}
