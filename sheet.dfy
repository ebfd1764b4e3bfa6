/** The sheet of sheet.cpp with the cell operations of cell.cpp: a jagged
    grid of cell records, written through `SetCell` and `ClearCell`, read
    through `GetCell`, sized for printing and rendered as text. Cell::Set and
    its helpers act on the record at a position of the grid. */
module Sheets {
  import opened Common
  import opened Formulas
  import opened Cells
  import opened Graphs
  import opened Dependencies
  import opened Grids
  import opened SheetState

  /** Part way through dropping the references of pos: `rest` are the ones
      still recorded; the edges to the others are gone at both ends and
      nothing else differs from g0. */
  ghost predicate Detaching(g0: Grid, g: Grid, pos: Position, rest: set<Position>) {
    && Coherent(g) && SameShape(g0, g) && SameContents(g0, g)
    && (forall q :: Present(g, q) == Present(g0, q))
    && rest <= Refs(g0, pos) && Refs(g, pos) == rest
    && (forall q :: q != pos ==> Refs(g, q) == Refs(g0, q))
    && (forall q :: DepsAt(g, q) ==
         (if q in Refs(g0, pos) - rest then DepsAt(g0, q) - {pos} else DepsAt(g0, q)))
  }

  lemma DetachStart(g: Grid, pos: Position)
    requires Coherent(g)
    ensures Detaching(g, g, pos, Refs(g, pos))
  {
  }

  lemma DetachStep(g0: Grid, g: Grid, pos: Position, rest: set<Position>, q: Position)
    requires Detaching(g0, g, pos, rest) && Present(g0, pos) && q in rest
    ensures Detaching(g0, Unlink(g, pos, q), pos, rest - {q})
  {
    UnlinkKeeps(g, pos, q);
  }

  /** One step of Cell::AddCellReferences at a position without a cell: grow
      the grid, create the Empty cell, link it. */
  lemma AttachNewStep(g0: Grid, g: Grid, pos: Position, done: seq<Position>, q: Position)
    requires Attaching(g0, g, pos, done) && SameShape(g, GrownFor(g0, done))
    requires IsValid(q) && !Present(g, q)
    ensures Attaching(g0, Link(Placeholder(Resized(g, q), q), pos, q), pos, done + [q])
    ensures SameShape(Link(Placeholder(Resized(g, q), q), pos, q), GrownFor(g0, done + [q]))
  {
    var h := Resized(g, q);
    ResizedBounded(g, q);
    AttachGrow(g0, g, h, pos, done);
    AttachNew(g0, h, pos, done, q);
    GrownForKeepsPace(g, g0, done, q, Link(Placeholder(h, q), pos, q));
  }

  /** One step of Cell::AddCellReferences at a position holding a cell. */
  lemma AttachLinkStep(g0: Grid, g: Grid, pos: Position, done: seq<Position>, q: Position)
    requires Attaching(g0, g, pos, done) && SameShape(g, GrownFor(g0, done))
    requires IsValid(q) && Present(g, q)
    ensures Attaching(g0, Link(g, pos, q), pos, done + [q])
    ensures SameShape(Link(g, pos, q), GrownFor(g0, done + [q]))
  {
    AttachLink(g0, g, pos, done, q);
    GrownForKeepsPace(g, g0, done, q, Link(g, pos, q));
  }

  /** Part way through adding the references `done` to a cell that had
      none: each of them holds a cell and is linked with pos at both ends,
      the cells created for them are Empty, and nothing else differs. */
  ghost predicate Attaching(g0: Grid, g: Grid, pos: Position, done: seq<Position>) {
    && Coherent(g) && Present(g, pos)
    && Refs(g, pos) == Elems(done)
    && (forall q :: q != pos ==> Refs(g, q) == Refs(g0, q))
    && (forall q :: Present(g, q) <==> Present(g0, q) || q in done)
    && (forall q :: ContentAt(g, q) ==
         (if q in done && !Present(g0, q) then Some(Empty) else ContentAt(g0, q)))
    && (forall q :: q in done ==> pos in DepsAt(g, q))
  }

  lemma AttachStart(g: Grid, pos: Position)
    requires Coherent(g) && Present(g, pos) && Refs(g, pos) == {}
    ensures Attaching(g, g, pos, [])
  {
  }

  /** Growing the grid without changing a slot keeps the progress. */
  lemma AttachGrow(g0: Grid, g: Grid, h: Grid, pos: Position, done: seq<Position>)
    requires Attaching(g0, g, pos, done)
    requires forall x :: Lookup(h, x) == Lookup(g, x)
    requires Bounded(h)
    ensures Attaching(g0, h, pos, done)
  {
    LookupsKeep(g, h);
    LookupsKeepInvariants(g, h);
  }

  /** Linking with a position that already holds a cell. */
  lemma AttachLink(g0: Grid, g: Grid, pos: Position, done: seq<Position>, q: Position)
    requires Attaching(g0, g, pos, done) && InGrid(g, q) && Present(g, q)
    ensures Attaching(g0, Link(g, pos, q), pos, done + [q])
  {
    LinkKeeps(g, pos, q);
    assert Present(g0, q) || q in done;
  }

  /** Linking with a position that holds no cell creates an Empty one first. */
  lemma AttachNew(g0: Grid, g: Grid, pos: Position, done: seq<Position>, q: Position)
    requires Attaching(g0, g, pos, done) && InGrid(g, q) && !Present(g, q)
    ensures Attaching(g0, Link(Placeholder(g, q), pos, q), pos, done + [q])
  {
    PlaceholderKeeps(g, q);
    var h := Placeholder(g, q);
    assert forall x :: Present(h, x) == (Present(g, x) || x == q) by {
      assert forall x :: Present(h, x) == ContentAt(h, x).Some?;
      assert forall x :: Present(g, x) == ContentAt(g, x).Some?;
    }
    LinkKeeps(h, pos, q);
  }

  /** What setting text at pos reports. Validation happens before any
      change: a parse error, then an invalid referenced position,
      then a reference that would close a cycle. */
  ghost function SetOutcome(g: Grid, pos: Position, text: string, parse: ParsedAst): Status {
    if Classify(text) != FormulaKind then Done
    else if parse.Malformed? then Failed(FormulaException(parse.what))
    else if exists q :: q in parse.astCells && !IsValid(q) then Failed(InvalidPosition)
    else if ClosesCycle(RefGraphOf(g), pos, parse.astCells) then Failed(CircularDependency)
    else Done
  }

  /** g is g0 after content c was committed at pos: c is stored, pos records
      exactly c's cells, each of which now holds a cell that lists pos among
      its dependents, cells created for them are Empty, pos keeps its
      dependents, and no other cell's content or references differ. */
  ghost predicate Committed(g0: Grid, g: Grid, pos: Position, c: Content) {
    && ContentAt(g, pos) == Some(c)
    && Refs(g, pos) == Elems(GetReferencedCells(c))
    && DepsAt(g, pos) == DepsAt(g0, pos)
    && (forall q :: q in GetReferencedCells(c) ==> Present(g, q) && pos in DepsAt(g, q))
    && (forall q :: q != pos ==> Refs(g, q) == Refs(g0, q))
    && (forall q :: q != pos ==>
          ContentAt(g, q) == (if q in GetReferencedCells(c) && !Present(g0, q) then Some(Empty) else ContentAt(g0, q)))
  }

  /** A reference list that contains its own cell closes a cycle. */
  lemma SelfCloses(g: RefGraph, c: Position, refs: seq<Position>)
    requires c in refs
    ensures ClosesCycle(g, c, refs)
  {
    assert IsPath(g, [c]);
  }

  /** The grid after the three steps of a commit (drop the old references,
      store c, add c's references), related slot by slot to where it began. */
  lemma CommitSlots(g0: Grid, g1: Grid, g3: Grid, pos: Position, c: Content)
    requires WellFormed(g0) && Present(g0, pos) && Detaching(g0, g1, pos, {})
    requires c.Text? ==> Classify(c.text) == TextKind
    requires forall q :: q in GetReferencedCells(c) ==> IsValid(q)
    requires Attaching(Replace(g1, pos, c), g3, pos, GetReferencedCells(c))
    ensures CommitShape(g0, g3, pos, c)
  {
    ReplaceKeeps(g1, pos, c);
    var g2 := Replace(g1, pos, c);
    assert forall q :: Present(g2, q) == ContentAt(g2, q).Some?;
    assert forall q :: Present(g1, q) == ContentAt(g1, q).Some?;
  }

  /** The slot-by-slot outcome of a commit of content c at pos. */
  ghost predicate CommitShape(g0: Grid, g3: Grid, pos: Position, c: Content) {
    && Coherent(g3) && Present(g3, pos) && ContentAt(g3, pos) == Some(c)
    && Refs(g3, pos) == Elems(GetReferencedCells(c))
    && (forall q :: q != pos ==> Refs(g3, q) == Refs(g0, q))
    && (forall q :: Present(g3, q) <==> Present(g0, q) || q in GetReferencedCells(c))
    && (forall q :: q != pos ==>
          ContentAt(g3, q) == (if q in GetReferencedCells(c) && !Present(g0, q) then Some(Empty) else ContentAt(g0, q)))
    && (forall q :: q in GetReferencedCells(c) ==> pos in DepsAt(g3, q))
  }

  lemma CommitDeps(g0: Grid, g3: Grid, pos: Position, c: Content)
    requires WellFormed(g0) && Present(g0, pos) && CommitShape(g0, g3, pos, c)
    requires pos !in GetReferencedCells(c)
    ensures DepsAt(g3, pos) == DepsAt(g0, pos)
  {
    NoSelfReference(g0, pos);
    forall x ensures x in Readers(g3, pos) <==> x in Readers(g0, pos) {
      if x != pos && !Present(g0, x) {
        assert Refs(g0, x) == {};
      }
    }
  }

  /** Away from pos, a commit's cells read what they read before; a cell
      created for a reference reads nothing. */
  lemma CommitCellsAt(g0: Grid, g3: Grid, pos: Position, c: Content)
    requires CommitShape(g0, g3, pos, c)
    ensures forall q :: q != pos ==>
              CellsAt(g3, q) == (if q in GetReferencedCells(c) && !Present(g0, q) then [] else CellsAt(g0, q))
  {
  }

  lemma CommitRefs(g0: Grid, g3: Grid, pos: Position, c: Content)
    requires WellFormed(g0) && Present(g0, pos) && CommitShape(g0, g3, pos, c)
    ensures RefsMatch(g3)
    ensures forall q :: q != pos ==> forall y :: y in CellsAt(g3, q) ==> y in CellsAt(g0, q)
  {
    CommitCellsAt(g0, g3, pos, c);
    forall p | Present(g3, p) ensures Refs(g3, p) == Elems(CellsAt(g3, p)) {
      if p != pos && !Present(g0, p) {
        assert Refs(g0, p) == {};
      }
    }
  }

  /** A commit whose cells close no cycle keeps the whole invariant and is
      the change Committed describes. */
  lemma CommitKeeps(g0: Grid, g3: Grid, pos: Position, c: Content)
    requires WellFormed(g0) && Present(g0, pos) && CommitShape(g0, g3, pos, c)
    requires !ClosesCycle(RefGraphOf(g0), pos, GetReferencedCells(c))
    ensures WellFormed(g3) && Committed(g0, g3, pos, c)
  {
    var cells := GetReferencedCells(c);
    if pos in cells {
      SelfCloses(RefGraphOf(g0), pos, cells);
      assert false;
    }
    CommitDeps(g0, g3, pos, c);
    CommitRefs(g0, g3, pos, c);
    CommitKeepsAcyclic(g0, g3, pos, cells);
  }

  /** Content c passed validation for pos: text that is not a formula, or a
      formula whose references are valid positions and close no cycle. */
  ghost predicate CanCommit(g: Grid, pos: Position, c: Content) {
    && (c.Text? ==> Classify(c.text) == TextKind)
    && (forall q :: q in GetReferencedCells(c) ==> IsValid(q))
    && !ClosesCycle(RefGraphOf(g), pos, GetReferencedCells(c))
  }

  /** What a successful Set of `text` stores: the plain content the text
      denotes, or a formula holding the parsed expression, the tree's cells
      sorted once each, and no cached result. */
  ghost predicate FitsInput(c: Content, text: string, parse: ParsedAst) {
    if Classify(text) != FormulaKind then c == PlainContent(text)
    else
      && c.FormulaContent? && parse.Ast?
      && c.formula.expression == parse.expression && c.formula.cache == None
      && StrictlySorted(c.formula.cells)
      && (forall q :: q in c.formula.cells <==> q in parse.astCells)
  }

  /** g is g0 after a successful Set of `text` at pos: the caches a change of
      pos makes stale are dropped, then the content the text denotes is
      committed at pos. The grid grows only to reach the cells the content
      reads. */
  ghost predicate SetApplied(g0: Grid, g: Grid, pos: Position, text: string, parse: ParsedAst) {
    && ContentAt(g, pos).Some?
    && FitsInput(ContentAt(g, pos).value, text, parse)
    && Committed(ClearCachesIn(g0, StaleAfter(g0, pos)), g, pos, ContentAt(g, pos).value)
    && SameShape(g, GrownFor(g0, GetReferencedCells(ContentAt(g, pos).value)))
  }

  /** The grid with a cell at pos: g itself if there is one, otherwise g grown
      to reach pos with an Empty cell there. */
  ghost function WithCell(g: Grid, pos: Position): Grid
    requires IsValid(pos)
  {
    if Present(g, pos) then g else Placeholder(Resized(g, pos), pos)
  }

  /** Creating the Empty cell keeps the invariant and adds no reference. */
  lemma WithCellKeeps(g: Grid, pos: Position)
    requires WellFormed(g) && IsValid(pos)
    ensures WellFormed(WithCell(g, pos)) && Present(WithCell(g, pos), pos)
    ensures forall x :: Next(RefGraphOf(WithCell(g, pos)), x) == Next(RefGraphOf(g), x)
  {
    if !Present(g, pos) {
      var h := Resized(g, pos);
      ResizedBounded(g, pos);
      LookupsKeepInvariants(g, h);
      LookupsKeep(g, h);
      PlaceholderKeeps(h, pos);
      var w := Placeholder(h, pos);
      assert forall x :: CellsAt(w, x) == CellsAt(g, x);
      assert forall x :: Present(w, x) == (Present(g, x) || x == pos) by {
        assert forall x :: Present(w, x) == ContentAt(w, x).Some?;
        assert forall x :: Present(g, x) == ContentAt(g, x).Some?;
      }
      assert forall x :: Next(RefGraphOf(w), x) == Next(RefGraphOf(g), x);
      assert forall t :: IsPath(RefGraphOf(w), t) == IsPath(RefGraphOf(g), t);
    }
  }

  /** Creating the Empty cell keeps the caches closed. */
  lemma WithCellKeepsClosed(g: Grid, pos: Position)
    requires IsValid(pos) && CachesClosed(g)
    ensures CachesClosed(WithCell(g, pos))
  {
    if !Present(g, pos) {
      var h := Resized(g, pos);
      var w := Placeholder(h, pos);
      assert forall x :: ContentAt(h, x) == ContentAt(g, x);
      assert forall x :: ContentAt(w, x) == if x == pos then Some(Empty) else ContentAt(h, x);
      assert forall x :: CellsAt(w, x) == CellsAt(g, x);
      assert forall x :: IsFormulaAt(w, x) == IsFormulaAt(g, x);
      assert forall x :: x in CachedSet(w) <==> x in CachedSet(g);
    }
  }

  /** Sheet::SetCell as written, at a position that holds no cell
      (sheet.cpp:14-16): the grid is grown and a cell is created before
      Cell::Set runs. The created cell's `impl_` starts null, since the
      constructor (cell.cpp:95-97) never sets it, and only a Set that
      succeeds gives it content. The result is the grid holding the created
      cell, and whether that cell ends up with any content. */
  ghost function FirstSetAsWritten(g: Grid, pos: Position, text: string, parse: ParsedAst): (r: (Grid, bool))
    requires WellFormed(g) && IsValid(pos) && !Present(g, pos)
    ensures Present(r.0, pos)
    ensures r.1 <==> SetOutcome(g, pos, text, parse) == Done
  {
    WithCellKeeps(g, pos);
    var w := WithCell(g, pos);
    var cells := if parse.Ast? then parse.astCells else [];
    ClosesCycleSame(RefGraphOf(w), RefGraphOf(g), pos, cells, cells);
    (w, SetOutcome(w, pos, text, parse) == Done)
  }

  /** Setting "=A1" at A1 of an empty sheet, as written: the Set fails, yet
      A1, which held no cell before, now holds a cell without content. */
  lemma FirstSetSelfReferenceAsWritten()
    ensures WellFormed([])
    ensures var a := Position(0, 0);
            var r := FirstSetAsWritten([], a, "=A1", Ast("A1", [a]));
            !Present([], a) && Present(r.0, a) && !r.1
  {
    var a := Position(0, 0);
    EmptyWellFormed();
    SelfCloses(RefGraphOf([]), a, [a]);
  }

  /** The empty grid holds no cell, so it meets the invariant. */
  lemma EmptyWellFormed()
    ensures WellFormed([]) && CachedSet([]) == {}
  {
    var e: Grid := [];
    assert forall p :: !Present(e, p);
    assert forall s :: IsPath(RefGraphOf(e), s) && |s| > 1 ==> s[1] in Next(RefGraphOf(e), s[0]);
  }

  /** g is g0 after pos was cleared: the caches a change of pos makes stale
      are dropped, pos holds no cell, and the cells pos read no longer list
      it among their dependents; nothing else changes, and the grid keeps its
      rows and their lengths. */
  ghost predicate ClearedCell(g0: Grid, g: Grid, pos: Position) {
    && !Present(g, pos) && SameShape(g0, g)
    && (forall q :: q != pos ==> ContentAt(g, q) == ContentAt(ClearCachesIn(g0, StaleAfter(g0, pos)), q))
    && (forall q :: q != pos ==> Refs(g, q) == Refs(g0, q))
    && (forall q :: q != pos ==>
          DepsAt(g, q) == if q in Refs(g0, pos) then DepsAt(g0, q) - {pos} else DepsAt(g0, q))
  }

  /** Freeing the slot of a cell whose references were all dropped keeps the
      invariant. */
  lemma RemoveDetachedKeeps(g0: Grid, g: Grid, pos: Position)
    requires WellFormed(g0) && Present(g0, pos) && Detaching(g0, g, pos, {})
    ensures WellFormed(Remove(g, pos))
  {
    var r := Remove(g, pos);
    RemoveKeeps(g, pos);
    SameContentsKeep(g0, g);
    assert forall q :: Present(r, q) == ContentAt(r, q).Some?;
    assert forall q :: Present(g, q) == ContentAt(g, q).Some?;
    assert forall q :: CellsAt(r, q) == if q == pos then [] else CellsAt(g0, q);
    CommitKeepsAcyclic(g0, r, pos, []);
  }

  /** Before a clear: dropping the stale caches keeps the invariant, and the
      dependents of pos are its readers. */
  lemma ClearPrepares(g0: Grid, pos: Position)
    requires WellFormed(g0) && Present(g0, pos)
    ensures DepsAt(g0, pos) == Readers(g0, pos)
    ensures WellFormed(ClearCachesIn(g0, StaleAfter(g0, pos)))
    ensures Present(ClearCachesIn(g0, StaleAfter(g0, pos)), pos)
  {
    ClearCachesInKeeps(g0, StaleAfter(g0, pos));
    SameButCachesKeep(g0, ClearCachesIn(g0, StaleAfter(g0, pos)));
  }

  /** Freeing the slot after the references were dropped is the clear
      ClearedCell describes, and keeps the invariant. */
  lemma ClearCellKeeps(g0: Grid, g: Grid, pos: Position)
    requires WellFormed(g0) && Present(g0, pos) && DepsAt(g0, pos) == Readers(g0, pos)
    requires Detaching(ClearCachesIn(g0, StaleAfter(g0, pos)), g, pos, {})
    ensures InGrid(g, pos)
    ensures WellFormed(Remove(g, pos)) && ClearedCell(g0, Remove(g, pos), pos)
  {
    var gi := ClearCachesIn(g0, StaleAfter(g0, pos));
    SameShapeTrans(g0, gi, g);
    SameShapeTrans(g0, g, Remove(g, pos));
    ClearCachesInKeeps(g0, StaleAfter(g0, pos));
    SameButCachesKeep(g0, gi);
    RemoveDetachedKeeps(gi, g, pos);
    RemoveKeeps(g, pos);
  }

  /** The value a cell that is not a formula yields: "" where no cell is. */
  function PlainValueAt(g: Grid, pos: Position): (v: Value)
    requires !IsFormulaAt(g, pos)
    ensures !Present(g, pos) ==> v == Str("")
    ensures ContentAt(g, pos) == Some(Empty) ==> v == Str("")
  {
    match ContentAt(g, pos)
    case None => Str("")
    case Some(c) => PlainValue(c)
  }

  /** The text rendering of the grid's printable area. */
  function Rendering(g: Grid): string {
    Rows(g, PrintRows(g), PrintCols(g))
  }

  /** Position p lies in the part of the grid a row-major scan has passed
      when it stands at (row, col). */
  predicate Scanned(p: Position, row: int, col: int) {
    p.row < row || (p.row == row && p.col < col)
  }

  /** rows by cols bounds the cells scanned so far and is reached by them. */
  ghost predicate BoxSoFar(g: Grid, row: int, col: int, rows: int, cols: int) {
    && rows >= 0 && cols >= 0
    && (forall p :: Present(g, p) && Scanned(p, row, col) ==> p.row < rows && p.col < cols)
    && (rows > 0 ==> exists p :: Present(g, p) && Scanned(p, row, col) && p.row == rows - 1)
    && (cols > 0 ==> exists p :: Present(g, p) && Scanned(p, row, col) && p.col == cols - 1)
  }

  class Sheet {
    var grid: Grid

    /** The grid invariant, and caches that were filled only after the
        formulas they read. */
    ghost predicate Valid()
      reads this
    {
      WellFormed(grid) && CachesClosed(grid)
    }

    /** An empty sheet. */
    constructor ()
      ensures Valid() && grid == []
    {
      grid := [];
      new;
      EmptyWellFormed();
    }

    /** Whether a valid position lies beyond the grid's current extent. */
    function IsOutSheet(pos: Position): (r: bool)
      reads this
      requires IsValid(pos)
      ensures r <==> !InGrid(grid, pos)
    {
      pos.row >= |grid| || pos.col >= |grid[pos.row]|
    }

    /** The cell at pos: InvalidPosition for an invalid position, no cell for
        a position beyond the grid or an empty slot. */
    function GetCell(pos: Position): (r: Result<Option<CellRec>>)
      reads this
      ensures r.Failure? <==> !IsValid(pos)
      ensures r.Failure? ==> r.error == InvalidPosition
      ensures r.Success? ==> r.value == Lookup(grid, pos)
      ensures r.Success? && !InGrid(grid, pos) ==> r.value == None
    {
      if !IsValid(pos) then Failure(InvalidPosition)
      else if IsOutSheet(pos) then Success(None)
      else Success(grid[pos.row][pos.col])
    }

    /** Grows the grid so that pos addresses a slot. */
    method SetSize(pos: Position)
      requires IsValid(pos)
      modifies this
      ensures grid == Resized(old(grid), pos)
    {
      if pos.row >= |grid| {
        grid := grid + seq(pos.row + 1 - |grid|, _ => []);
      }
      if pos.col >= |grid[pos.row]| {
        grid := grid[pos.row := grid[pos.row] + seq(pos.col + 1 - |grid[pos.row]|, _ => None)];
      }
    }

    /** Clears the cache of the formula at every position of `cleared`;
        nothing else changes. */
    method ClearCaches(cleared: set<Position>)
      modifies this
      ensures grid == ClearCachesIn(old(grid), cleared)
    {
      ghost var g0 := grid;
      var rest := cleared;
      GridExt(grid, ClearCachesIn(g0, {}));
      assert cleared - rest == {};
      while rest != {}
        invariant rest <= cleared
        invariant grid == ClearCachesIn(g0, cleared - rest)
        decreases |rest|
      {
        var p :| p in rest;
        ClearStep(g0, cleared - rest, p);
        assert Lookup(grid, p) == Lookup(g0, p);
        if IsFormulaAt(grid, p) {
          grid := Store(grid, p, UncachedSlot(Lookup(grid, p)));
        }
        assert cleared - (rest - {p}) == (cleared - rest) + {p};
        rest := rest - {p};
      }
      assert cleared - rest == cleared;
    }

    /** Cell::InvalidateCache on the dependents of pos: exactly the caches a
        change of pos makes stale are dropped. */
    method InvalidateCache(pos: Position)
      modifies this
      ensures grid == ClearCachesIn(old(grid), Stale(DepGraphOf(old(grid)), CachedSet(old(grid)), DepsAt(old(grid), pos)))
    {
      var cleared, order := InvalidationPass(DepGraphOf(grid), CachedSet(grid), DepsAt(grid, pos));
      ClearCaches(cleared);
    }

    /** Cell::ClearCellReferences: invalidates what depends on pos, then
        drops every reference of pos at both ends; a referenced position
        that no longer holds a cell only leaves pos's reference set. */
    method ClearCellReferences(pos: Position)
      requires Coherent(grid) && Present(grid, pos)
      modifies this
      ensures Detaching(ClearCachesIn(old(grid), Stale(DepGraphOf(old(grid)), CachedSet(old(grid)), DepsAt(old(grid), pos))),
                        grid, pos, {})
    {
      ghost var g := grid;
      InvalidateCache(pos);
      ClearCachesInKeeps(g, Stale(DepGraphOf(g), CachedSet(g), DepsAt(g, pos)));
      SameButCachesKeep(g, grid);
      DetachAll(pos);
    }

    /** The loop of Cell::ClearCellReferences: every reference of pos is
        dropped at both ends. */
    method DetachAll(pos: Position)
      requires Coherent(grid) && Present(grid, pos)
      modifies this
      ensures Detaching(old(grid), grid, pos, {})
    {
      ghost var g0 := grid;
      var rest := Refs(grid, pos);
      DetachStart(grid, pos);
      while rest != {}
        invariant Detaching(g0, grid, pos, rest)
        decreases |rest|
      {
        var q :| q in rest;
        DetachStep(g0, grid, pos, rest, q);
        grid := Unlink(grid, pos, q);
        rest := rest - {q};
      }
    }

    /** Cell::AddCellReferences: for each position in turn, an Empty cell is
        first created where none is, then the edge from pos to it is added
        at both ends. */
    method AddCellReferences(pos: Position, cells: seq<Position>)
      requires Coherent(grid) && Present(grid, pos) && Refs(grid, pos) == {}
      requires forall q :: q in cells ==> IsValid(q)
      modifies this
      ensures Attaching(old(grid), grid, pos, cells)
      ensures SameShape(grid, GrownFor(old(grid), cells))
    {
      ghost var g0 := grid;
      AttachStart(grid, pos);
      for i := 0 to |cells|
        invariant Attaching(g0, grid, pos, cells[..i])
        invariant SameShape(grid, GrownFor(g0, cells[..i]))
      {
        var q := cells[i];
        assert cells[..i + 1] == cells[..i] + [q];
        assert IsValid(q);
        if !Present(grid, q) {
          AttachNewStep(g0, grid, pos, cells[..i], q);
          SetSize(q);
          grid := Link(Placeholder(grid, q), pos, q);
        } else {
          AttachLinkStep(g0, grid, pos, cells[..i], q);
          grid := Link(grid, pos, q);
        }
      }
      assert cells[..|cells|] == cells;
    }

    /** The second half of a commit: the new content replaces the old and,
        for a formula, Cell::AddCellReferences records its cells. */
    method Relink(pos: Position, c: Content)
      requires Coherent(grid) && Present(grid, pos) && Refs(grid, pos) == {}
      requires c.Text? ==> Classify(c.text) == TextKind
      requires forall q :: q in GetReferencedCells(c) ==> IsValid(q)
      modifies this
      ensures Attaching(Replace(old(grid), pos, c), grid, pos, GetReferencedCells(c))
      ensures SameShape(grid, GrownFor(old(grid), GetReferencedCells(c)))
    {
      ReplaceKeeps(grid, pos, c);
      GrownForSameShape(Replace(grid, pos, c), grid, GetReferencedCells(c));
      grid := Replace(grid, pos, c);
      if c.FormulaContent? {
        AddCellReferences(pos, c.formula.cells);
      } else {
        AttachStart(grid, pos);
      }
    }

    /** Commits content that passed validation: Cell::ClearCellReferences,
        then the new content and its references. */
    method Commit(pos: Position, c: Content)
      requires Valid() && Present(grid, pos) && CanCommit(grid, pos, c)
      requires c.FormulaContent? ==> !HasCache(c.formula)
      modifies this
      ensures Valid() && Committed(ClearCachesIn(old(grid), StaleAfter(old(grid), pos)), grid, pos, c)
      ensures NoCacheReads(grid, pos)
      ensures SameShape(grid, GrownFor(old(grid), GetReferencedCells(c)))
    {
      ghost var g0 := grid;
      ghost var gi := ClearCachesIn(g0, StaleAfter(g0, pos));
      assert DepsAt(g0, pos) == Readers(g0, pos);
      ClearCachesInKeeps(g0, StaleAfter(g0, pos));
      SameButCachesKeep(g0, gi);
      ClearCellReferences(pos);
      ghost var g1 := grid;
      SameContentsKeep(gi, g1);
      SameShapeTrans(g0, gi, g1);
      Relink(pos, c);
      GrownForThrough(g0, g1, grid, GetReferencedCells(c));
      CommitSlots(gi, g1, grid, pos, c);
      CommitKeeps(gi, grid, pos, c);
      StaleClearedKeeps(g0, grid, pos);
    }

    /** Cell::Set, validating before committing: a failure changes nothing;
        on success the caches that depended on pos are cleared, the new
        content is stored, and its references replace the old ones at both
        ends. */
    method Set(pos: Position, text: string, parse: ParsedAst) returns (status: Status)
      requires Valid() && Present(grid, pos)
      modifies this
      ensures Valid()
      ensures status == SetOutcome(old(grid), pos, text, parse)
      ensures status.Failed? ==> grid == old(grid)
      ensures status.Done? ==> SetApplied(old(grid), grid, pos, text, parse) && NoCacheReads(grid, pos)
    {
      var candidate := Prepare(pos, text, parse);
      if candidate.Failure? {
        return Failed(candidate.error);
      }
      Commit(pos, candidate.value);
      status := Done;
    }

    /** The validating half of Cell::Set, which changes nothing: the content
        the text denotes, or the error that rejects it. Empty text and plain
        text always pass; a formula fails on a parse error, then on an
        invalid referenced position, then on a reference that
        would close a cycle, direct self-reference included. */
    method Prepare(pos: Position, text: string, parse: ParsedAst) returns (r: Result<Content>)
      ensures r.Failure? <==> SetOutcome(grid, pos, text, parse).Failed?
      ensures r.Failure? ==> SetOutcome(grid, pos, text, parse) == Failed(r.error)
      ensures r.Success? ==> FitsInput(r.value, text, parse) && CanCommit(grid, pos, r.value)
    {
      if Classify(text) != FormulaKind {
        return Success(PlainContent(text));
      }
      var parsed := ParseFormula(parse);
      if parsed.Failure? {
        return Failure(parsed.error);
      }
      var f := parsed.value;
      if !(forall q | q in f.cells :: IsValid(q)) {
        return Failure(InvalidPosition);
      }
      var cyclic := HasCyclicDependence(RefGraphOf(grid), pos, f.cells);
      ClosesCycleSame(RefGraphOf(grid), RefGraphOf(grid), pos, f.cells, parse.astCells);
      if cyclic {
        return Failure(CircularDependency);
      }
      r := Success(FormulaContent(f));
    }

    /** Sheet::SetCell, validating before creating anything: rejects an
        invalid position; otherwise the text is checked against the sheet as
        it is, a failure changes nothing, and on success an Empty cell is
        created where none is (growing the grid) and the content is
        committed on it. */
    method SetCell(pos: Position, text: string, parse: ParsedAst) returns (status: Status)
      requires Valid()
      modifies this
      ensures Valid()
      ensures !IsValid(pos) ==> status == Failed(InvalidPosition)
      ensures IsValid(pos) ==> status == SetOutcome(old(grid), pos, text, parse)
      ensures status.Failed? ==> grid == old(grid)
      ensures IsValid(pos) && status.Done? ==>
                SetApplied(WithCell(old(grid), pos), grid, pos, text, parse) && NoCacheReads(grid, pos)
    {
      if !IsValid(pos) {
        return Failed(InvalidPosition);
      }
      var candidate := Prepare(pos, text, parse);
      if candidate.Failure? {
        return Failed(candidate.error);
      }
      var c := candidate.value;
      ghost var g0 := grid;
      WithCellKeeps(g0, pos);
      WithCellKeepsClosed(g0, pos);
      if GetCell(pos).value.None? {
        SetSize(pos);
        grid := Placeholder(grid, pos);
      }
      assert grid == WithCell(g0, pos);
      ClosesCycleSame(RefGraphOf(grid), RefGraphOf(g0), pos, GetReferencedCells(c), GetReferencedCells(c));
      Commit(pos, c);
      status := Done;
    }

    /** Sheet::ClearCell: rejects an invalid position; a position without a
        cell is left alone; otherwise the cell's references are dropped at
        both ends, the caches that depended on it are cleared, and its slot
        is freed. Cells that still read pos then see no cell there. */
    method ClearCell(pos: Position) returns (status: Status)
      requires Valid()
      modifies this
      ensures Valid()
      ensures !IsValid(pos) ==> status == Failed(InvalidPosition) && grid == old(grid)
      ensures IsValid(pos) ==> status == Done
      ensures !Present(old(grid), pos) ==> grid == old(grid)
      ensures Present(old(grid), pos) ==> ClearedCell(old(grid), grid, pos) && NoCacheReads(grid, pos)
    {
      if !IsValid(pos) {
        return Failed(InvalidPosition);
      }
      if GetCell(pos).value.Some? {
        ghost var g0 := grid;
        ClearPrepares(g0, pos);
        ClearCellReferences(pos);
        ClearCellKeeps(g0, grid, pos);
        grid := Remove(grid, pos);
        StaleClearedKeeps(g0, grid, pos);
      }
      status := Done;
    }

    /** Evaluates the formula at every position of `fill` through its
        cache, the formula at q by execution exec(q); nothing else changes. */
    method FillCaches(fill: set<Position>, exec: Position -> Execution)
      modifies this
      ensures grid == FillCachesIn(old(grid), fill, exec)
    {
      ghost var g0 := grid;
      var rest := fill;
      GridExt(grid, FillCachesIn(g0, {}, exec));
      assert fill - rest == {};
      while rest != {}
        invariant rest <= fill
        invariant grid == FillCachesIn(g0, fill - rest, exec)
        decreases |rest|
      {
        var p :| p in rest;
        FillStep(g0, fill - rest, p, exec);
        assert Lookup(grid, p) == Lookup(g0, p);
        if IsFormulaAt(grid, p) {
          grid := Store(grid, p, FilledSlot(Lookup(grid, p), exec(p)));
        }
        assert fill - (rest - {p}) == (fill - rest) + {p};
        rest := rest - {p};
      }
      assert fill - rest == fill;
    }

    /** Cell::GetValue through Sheet::GetCell: InvalidPosition for an invalid
        position; "" where no cell is; the plain value of Empty and text
        content; for a formula, evaluation through its cache, whose result,
        an evaluation error included, is held afterwards. Executing a
        formula's tree reads the cells it names through their own values, so
        every formula the position reaches is evaluated through its cache
        too; exec(q) is what the tree at q computes when it has to be
        executed. */
    method GetValue(pos: Position, exec: Position -> Execution) returns (r: Result<Value>)
      requires Valid()
      modifies this
      ensures Valid()
      ensures !IsValid(pos) ==> r == Failure(InvalidPosition) && grid == old(grid)
      ensures IsValid(pos) && !IsFormulaAt(old(grid), pos) ==>
                grid == old(grid) && r == Success(PlainValueAt(old(grid), pos))
      ensures IsFormulaAt(old(grid), pos) ==>
                && r == Success(FromFormulaValue(Evaluate(FormulaAt(old(grid), pos), exec(pos)).0))
                && grid == FillCachesIn(old(grid), ReachSet(RefGraphOf(old(grid)), pos), exec)
      ensures IsFormulaAt(old(grid), pos) ==>
                forall q :: Reaches(RefGraphOf(grid), pos, q) && IsFormulaAt(grid, q) ==> q in CachedSet(grid)
    {
      if !IsValid(pos) {
        return Failure(InvalidPosition);
      }
      var cell := GetCell(pos).value;
      if cell.None? {
        return Success(Str(""));
      }
      match cell.value.content
      case Empty =>
        r := Success(Str(""));
      case Text(t) =>
        r := Success(Str(TextValue(t)));
      case FormulaContent(f) =>
        var v := EvaluateAt(pos, exec);
        r := Success(FromFormulaValue(v));
    }

    /** The formula case of GetValue: the formula at pos and every formula
        it reaches are evaluated through their caches, and the value held at
        pos is returned. */
    method EvaluateAt(pos: Position, exec: Position -> Execution) returns (v: FormulaValue)
      requires Valid() && IsFormulaAt(grid, pos)
      modifies this
      ensures Valid()
      ensures v == Evaluate(FormulaAt(old(grid), pos), exec(pos)).0
      ensures grid == FillCachesIn(old(grid), ReachSet(RefGraphOf(old(grid)), pos), exec)
      ensures forall q :: Reaches(RefGraphOf(grid), pos, q) && IsFormulaAt(grid, q) ==> q in CachedSet(grid)
    {
      ghost var g0 := grid;
      var reached := Reachable(RefGraphOf(grid), pos);
      assert reached == ReachSet(RefGraphOf(g0), pos);
      FillCaches(reached, exec);
      FillCachesInKeeps(g0, reached, exec);
      SameButCachesKeep(g0, grid);
      ReachSetClosed(RefGraphOf(g0), pos);
      FillKeepsClosed(g0, reached, exec);
      assert Reaches(RefGraphOf(g0), pos, pos) by {
        assert IsPath(RefGraphOf(g0), [pos]);
      }
      v := Lookup(grid, pos).value.content.formula.cache.value;
    }

    /** Sheet::GetPrintableSize: one more than the last row and than the last
        column that hold a cell, found by scanning every slot; 0 by 0 when
        no slot holds one. Empty cells count. */
    method GetPrintableSize() returns (rows: int, cols: int)
      ensures IsBoundingBox(grid, rows, cols)
      ensures rows == PrintRows(grid) && cols == PrintCols(grid)
    {
      rows, cols := 0, 0;
      var row := 0;
      while row < |grid|
        invariant 0 <= row <= |grid|
        invariant BoxSoFar(grid, row, 0, rows, cols)
      {
        var col := 0;
        while col < |grid[row]|
          invariant 0 <= col <= |grid[row]|
          invariant BoxSoFar(grid, row, col, rows, cols)
        {
          if grid[row][col].Some? {
            ghost var here := Position(row, col);
            assert Present(grid, here);
            if cols < col + 1 {
              cols := col + 1;
            }
            if rows < row + 1 {
              rows := row + 1;
            }
            assert Scanned(here, row, col + 1);
          }
          col := col + 1;
        }
        assert forall p :: Present(grid, p) && Scanned(p, row + 1, 0) ==> Scanned(p, row, |grid[row]|);
        row := row + 1;
      }
      assert forall p :: Present(grid, p) ==> Scanned(p, |grid|, 0);
      PrintableSizeIsBox(grid);
      BoundingBoxUnique(grid, rows, cols, PrintRows(grid), PrintCols(grid));
    }

    /** Sheet::PrintTexts: the printable area row by row, each row's fields
        separated by tabs and ended by a newline; an absent cell prints as
        an empty field. */
    method PrintTexts() returns (out: string)
      ensures out == Rendering(grid)
    {
      var rows, cols := GetPrintableSize();
      out := "";
      var row := 0;
      while row < rows
        invariant 0 <= row <= rows
        invariant out == Rows(grid, row, cols)
      {
        var line := PrintLine(row, cols);
        assert Rows(grid, row + 1, cols) == out + line + "\n";
        out := out + line + "\n";
        row := row + 1;
      }
    }

    /** One row of PrintTexts' inner loop: the first cols fields of row,
        with a tab before every field but the first. */
    method PrintLine(row: int, cols: nat) returns (line: string)
      ensures line == Line(grid, row, cols)
    {
      line := "";
      var isFirst := true;
      var col := 0;
      while col < cols
        invariant 0 <= col <= cols
        invariant isFirst <==> col == 0
        invariant line == Line(grid, row, col)
      {
        if !isFirst {
          line := line + "\t";
        }
        isFirst := false;
        line := line + CellText(grid, Position(row, col));
        col := col + 1;
      }
    }
  }
}
