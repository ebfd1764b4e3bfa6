/** The sparse jagged grid of sheet.cpp and sheet.h: a sequence of rows, each a
    sequence of optional cells, so rows may have different lengths. Lookups,
    single-slot stores, the printable bounding box and the text layout are
    functions of the grid value; the `Sheet` class holds one as its field. */
module Grids {
  import opened Common
  import opened Cells

  type Grid = seq<seq<Option<CellRec>>>

  /** p addresses an existing slot of the jagged grid. */
  predicate InGrid(g: Grid, p: Position) {
    0 <= p.row < |g| && 0 <= p.col < |g[p.row]|
  }

  /** The cell at p; a position beyond the grid holds none. */
  function Lookup(g: Grid, p: Position): Option<CellRec> {
    if InGrid(g, p) then g[p.row][p.col] else None
  }

  predicate Present(g: Grid, p: Position) {
    Lookup(g, p).Some?
  }

  /** The positions that hold a cell. */
  function Occupied(g: Grid): (r: set<Position>)
    ensures forall p :: p in r <==> Present(g, p)
  {
    set i, j | 0 <= i < |g| && 0 <= j < |g[i]| && g[i][j].Some? :: Position(i, j)
  }

  /** Both grids have the same rows of the same lengths. */
  ghost predicate SameShape(g: Grid, h: Grid) {
    |g| == |h| && forall i :: 0 <= i < |g| ==> |g[i]| == |h[i]|
  }

  /** Overwrites one existing slot; every other slot keeps its cell. */
  function Store(g: Grid, p: Position, slot: Option<CellRec>): (r: Grid)
    requires InGrid(g, p)
    ensures SameShape(g, r)
    ensures forall q :: Lookup(r, q) == if q == p then slot else Lookup(g, q)
  {
    g[p.row := g[p.row][p.col := slot]]
  }

  /** The length of row i; 0 for a row beyond the grid. */
  function RowLen(g: Grid, i: int): nat {
    if 0 <= i < |g| then |g[i]| else 0
  }

  /** The grid grown so that p addresses a slot: at least p.row + 1 rows,
      and row p.row at least p.col + 1 slots. Nothing shrinks, no other row
      changes length, and every slot keeps its cell. */
  function Resized(g: Grid, p: Position): (r: Grid)
    requires p.row >= 0 && p.col >= 0
    ensures InGrid(r, p)
    ensures forall q :: Lookup(r, q) == Lookup(g, q)
    ensures |r| == if p.row < |g| then |g| else p.row + 1
    ensures forall i :: 0 <= i < |r| ==>
      |r[i]| == if i == p.row && RowLen(g, i) <= p.col then p.col + 1 else RowLen(g, i)
  {
    var rows := if p.row < |g| then g else g + seq(p.row + 1 - |g|, _ => []);
    if p.col < |rows[p.row]| then rows
    else rows[p.row := rows[p.row] + seq(p.col + 1 - |rows[p.row]|, _ => None)]
  }

  lemma SameShapeTrans(g: Grid, h: Grid, k: Grid)
    requires SameShape(g, h) && SameShape(h, k)
    ensures SameShape(g, k)
  {
  }

  /** Growing for a position the grid already addresses changes no length. */
  lemma ResizedInGrid(g: Grid, p: Position)
    requires InGrid(g, p)
    ensures SameShape(Resized(g, p), g)
  {
  }

  /** Grids of one shape grow to one shape. */
  lemma ResizedSameShape(g: Grid, h: Grid, p: Position)
    requires SameShape(g, h) && p.row >= 0 && p.col >= 0
    ensures SameShape(Resized(g, p), Resized(h, p))
  {
    assert forall i :: RowLen(g, i) == RowLen(h, i);
  }

  /** g grown in turn to reach each position of ps, as one Sheet::SetSize
      per position does; a position with a negative coordinate adds
      nothing. */
  function GrownFor(g: Grid, ps: seq<Position>): (r: Grid)
    ensures forall q :: Lookup(r, q) == Lookup(g, q)
    ensures |g| <= |r| && forall i :: 0 <= i < |g| ==> |g[i]| <= |r[i]|
    ensures forall q :: q in ps && q.row >= 0 && q.col >= 0 ==> InGrid(r, q)
    decreases |ps|
  {
    if ps == [] then g
    else
      var h := GrownFor(g, ps[..|ps| - 1]);
      var p := ps[|ps| - 1];
      assert forall q :: q in ps ==> q in ps[..|ps| - 1] || q == p;
      if p.row >= 0 && p.col >= 0 then Resized(h, p) else h
  }

  /** One more position: the grid grown so far, grown for it. */
  lemma GrownForStep(g: Grid, done: seq<Position>, p: Position)
    requires p.row >= 0 && p.col >= 0
    ensures GrownFor(g, done + [p]) == Resized(GrownFor(g, done), p)
  {
    assert (done + [p])[..|done|] == done;
  }

  /** Grids of one shape grown for the same positions keep one shape. */
  lemma {:induction false} GrownForSameShape(g: Grid, h: Grid, ps: seq<Position>)
    requires SameShape(g, h)
    ensures SameShape(GrownFor(g, ps), GrownFor(h, ps))
    decreases |ps|
  {
    if ps != [] {
      var p := ps[|ps| - 1];
      GrownForSameShape(g, h, ps[..|ps| - 1]);
      if p.row >= 0 && p.col >= 0 {
        ResizedSameShape(GrownFor(g, ps[..|ps| - 1]), GrownFor(h, ps[..|ps| - 1]), p);
      }
    }
  }

  /** A grid that kept pace with GrownFor over `done` and was then grown for
      q (or left alone, when it already addresses q) keeps pace over
      done + [q]. */
  lemma GrownForKeepsPace(g: Grid, g0: Grid, done: seq<Position>, q: Position, h: Grid)
    requires q.row >= 0 && q.col >= 0 && SameShape(g, GrownFor(g0, done))
    requires (InGrid(g, q) && SameShape(h, g)) || SameShape(h, Resized(g, q))
    ensures SameShape(h, GrownFor(g0, done + [q]))
  {
    GrownForStep(g0, done, q);
    ResizedSameShape(g, GrownFor(g0, done), q);
    if InGrid(g, q) && SameShape(h, g) {
      ResizedInGrid(g, q);
    }
  }

  /** Growing grids of one shape for the same positions. */
  lemma GrownForThrough(g0: Grid, g1: Grid, g3: Grid, ps: seq<Position>)
    requires SameShape(g0, g1) && SameShape(g3, GrownFor(g1, ps))
    ensures SameShape(g3, GrownFor(g0, ps))
  {
    GrownForSameShape(g1, g0, ps);
  }

  /** Every slot of the grid is a valid position. */
  ghost predicate Bounded(g: Grid) {
    |g| <= MAX_ROWS && forall i :: 0 <= i < |g| ==> |g[i]| <= MAX_COLS
  }

  /** Growing for a valid position keeps every slot a valid position. */
  lemma ResizedBounded(g: Grid, p: Position)
    requires Bounded(g) && IsValid(p)
    ensures Bounded(Resized(g, p))
  {
  }

  lemma PresentIsValid(g: Grid, p: Position)
    requires Bounded(g) && Present(g, p)
    ensures IsValid(p)
  {
  }

  /** Number of leading slots up to and including the last occupied one. */
  function RowWidth(row: seq<Option<CellRec>>): (w: int)
    ensures 0 <= w <= |row|
    ensures w > 0 ==> row[w - 1].Some?
    ensures forall j :: w <= j < |row| ==> row[j].None?
  {
    if |row| == 0 then 0
    else if row[|row| - 1].Some? then |row|
    else RowWidth(row[..|row| - 1])
  }

  /** One more than the last row holding a cell; 0 if none does. */
  function PrintRows(g: Grid): (n: int)
    ensures 0 <= n <= |g|
  {
    if |g| == 0 then 0
    else if RowWidth(g[|g| - 1]) > 0 then |g|
    else PrintRows(g[..|g| - 1])
  }

  /** One more than the last column holding a cell; 0 if none does. */
  function PrintCols(g: Grid): (n: int)
    ensures n >= 0
  {
    if |g| == 0 then 0
    else
      var w := RowWidth(g[|g| - 1]);
      var m := PrintCols(g[..|g| - 1]);
      if w > m then w else m
  }

  /** rows by cols is the smallest box anchored at (0, 0) that holds every
      cell: each cell lies inside, and the last row and the last column of
      the box each hold one. */
  ghost predicate IsBoundingBox(g: Grid, rows: int, cols: int) {
    && rows >= 0 && cols >= 0
    && (forall p :: Present(g, p) ==> p.row < rows && p.col < cols)
    && (rows > 0 ==> exists p :: Present(g, p) && p.row == rows - 1)
    && (cols > 0 ==> exists p :: Present(g, p) && p.col == cols - 1)
  }

  lemma {:induction false} RowWidthBounds(row: seq<Option<CellRec>>, j: int)
    requires 0 <= j < |row| && row[j].Some?
    ensures j < RowWidth(row)
  {
  }

  lemma {:induction false} PrintRowsBox(g: Grid)
    ensures forall p :: Present(g, p) ==> p.row < PrintRows(g)
    ensures PrintRows(g) > 0 ==> RowWidth(g[PrintRows(g) - 1]) > 0
  {
    if |g| > 0 && RowWidth(g[|g| - 1]) == 0 {
      var h := g[..|g| - 1];
      PrintRowsBox(h);
      forall p | Present(g, p) ensures p.row < PrintRows(g) {
        if p.row == |g| - 1 {
          RowWidthBounds(g[p.row], p.col);
        } else {
          assert Lookup(h, p) == Lookup(g, p);
        }
      }
      if PrintRows(h) > 0 {
        assert g[PrintRows(h) - 1] == h[PrintRows(h) - 1];
      }
    }
  }

  lemma {:induction false} PrintColsBox(g: Grid)
    ensures forall p :: Present(g, p) ==> p.col < PrintCols(g)
    ensures PrintCols(g) > 0 ==> exists i :: 0 <= i < |g| && RowWidth(g[i]) == PrintCols(g)
  {
    if |g| > 0 {
      var h := g[..|g| - 1];
      PrintColsBox(h);
      forall p | Present(g, p) ensures p.col < PrintCols(g) {
        if p.row == |g| - 1 {
          RowWidthBounds(g[p.row], p.col);
        } else {
          assert Lookup(h, p) == Lookup(g, p);
        }
      }
      if RowWidth(g[|g| - 1]) <= PrintCols(h) && PrintCols(h) > 0 {
        var i :| 0 <= i < |h| && RowWidth(h[i]) == PrintCols(h);
        assert g[i] == h[i];
      }
    }
  }

  /** The printable size is the bounding box of the occupied slots. */
  lemma PrintableSizeIsBox(g: Grid)
    ensures IsBoundingBox(g, PrintRows(g), PrintCols(g))
  {
    PrintRowsBox(g);
    PrintColsBox(g);
    if PrintRows(g) > 0 {
      var i := PrintRows(g) - 1;
      var w := RowWidth(g[i]);
      assert Present(g, Position(i, w - 1));
    }
    if PrintCols(g) > 0 {
      var i :| 0 <= i < |g| && RowWidth(g[i]) == PrintCols(g);
      var w := RowWidth(g[i]);
      assert Present(g, Position(i, w - 1));
    }
  }

  /** The bounding box is unique, so the printable size is determined by the
      set of occupied slots; with no cell at all it is 0 by 0. */
  lemma BoundingBoxUnique(g: Grid, rows: int, cols: int, rows': int, cols': int)
    requires IsBoundingBox(g, rows, cols) && IsBoundingBox(g, rows', cols')
    ensures rows == rows' && cols == cols'
  {
    if rows > 0 {
      var p :| Present(g, p) && p.row == rows - 1;
      assert p.row < rows';
    }
    if rows' > 0 {
      var p :| Present(g, p) && p.row == rows' - 1;
      assert p.row < rows;
    }
    if cols > 0 {
      var p :| Present(g, p) && p.col == cols - 1;
      assert p.col < cols';
    }
    if cols' > 0 {
      var p :| Present(g, p) && p.col == cols' - 1;
      assert p.col < cols;
    }
  }

  lemma EmptyBox(g: Grid)
    ensures IsBoundingBox(g, 0, 0) <==> Occupied(g) == {}
  {
    if Occupied(g) != {} {
      var p :| p in Occupied(g);
    }
  }

  /** The text printed for one slot: an absent cell prints as an empty field. */
  function CellText(g: Grid, p: Position): string {
    match Lookup(g, p)
    case None => ""
    case Some(c) => GetText(c.content)
  }

  /** The first k fields of row i, separated by tabs. */
  function Line(g: Grid, i: int, k: nat): string {
    if k == 0 then ""
    else if k == 1 then CellText(g, Position(i, 0))
    else Line(g, i, k - 1) + "\t" + CellText(g, Position(i, k - 1))
  }

  /** The first n rows, each rendered with cols fields and ended by a newline. */
  function Rows(g: Grid, n: nat, cols: nat): string {
    if n == 0 then "" else Rows(g, n - 1, cols) + Line(g, n - 1, cols) + "\n"
  }

  /** How often character x occurs in s. */
  function Count(s: string, x: char): nat {
    if s == [] then 0 else Count(s[..|s| - 1], x) + (if s[|s| - 1] == x then 1 else 0)
  }

  lemma {:induction false} CountAppend(s: string, t: string, x: char)
    ensures Count(s + t, x) == Count(s, x) + Count(t, x)
  {
    if t != [] {
      CountAppend(s, t[..|t| - 1], x);
      assert (s + t)[..|s + t| - 1] == s + t[..|t| - 1];
    } else {
      assert s + t == s;
    }
  }

  /** No cell's text in the given box contains x. */
  ghost predicate TextsAvoid(g: Grid, rows: int, cols: int, x: char) {
    forall i, j :: 0 <= i < rows && 0 <= j < cols ==> Count(CellText(g, Position(i, j)), x) == 0
  }

  /** A row of k fields carries k - 1 separating tabs when no field has one. */
  lemma {:induction false} LineTabs(g: Grid, i: int, k: nat, rows: int)
    requires 0 <= i < rows && TextsAvoid(g, rows, k, '\t')
    ensures Count(Line(g, i, k), '\t') == if k == 0 then 0 else k - 1
  {
    if k > 1 {
      LineTabs(g, i, k - 1, rows);
      CountAppend(Line(g, i, k - 1), "\t", '\t');
      CountAppend(Line(g, i, k - 1) + "\t", CellText(g, Position(i, k - 1)), '\t');
    }
  }

  /** A row of fields without newlines contains none. */
  lemma {:induction false} LineNoNewline(g: Grid, i: int, k: nat, rows: int)
    requires 0 <= i < rows && TextsAvoid(g, rows, k, '\n')
    ensures Count(Line(g, i, k), '\n') == 0
  {
    if k > 1 {
      LineNoNewline(g, i, k - 1, rows);
      CountAppend(Line(g, i, k - 1), "\t", '\n');
      CountAppend(Line(g, i, k - 1) + "\t", CellText(g, Position(i, k - 1)), '\n');
    }
  }

  /** The rendering has exactly one newline per row when no field has one. */
  lemma {:induction false} RowsNewlines(g: Grid, n: nat, cols: nat)
    requires TextsAvoid(g, n, cols, '\n')
    ensures Count(Rows(g, n, cols), '\n') == n
  {
    if n > 0 {
      assert TextsAvoid(g, n - 1, cols, '\n');
      RowsNewlines(g, n - 1, cols);
      LineNoNewline(g, n - 1, cols, n);
      CountAppend(Rows(g, n - 1, cols), Line(g, n - 1, cols), '\n');
      CountAppend(Rows(g, n - 1, cols) + Line(g, n - 1, cols), "\n", '\n');
    }
  }
}
