/** Shared vocabulary of the spreadsheet: positions and their bounds, the two
    reserved sign characters, cell values, formula errors and the structural
    errors the public operations report. */
module Common {

  /** Sheet bounds and reserved characters. The model only relies on the
      bounds being positive and on the two signs being distinct characters. */
  const MAX_ROWS: int := 16384
  const MAX_COLS: int := 16384
  const FORMULA_SIGN: char := '='
  const ESCAPE_SIGN: char := '\''

  /** A zero-based (row, column) coordinate. */
  datatype Position = Position(row: int, col: int)

  predicate IsValid(p: Position) {
    0 <= p.row < MAX_ROWS && 0 <= p.col < MAX_COLS
  }

  /** Positions are ordered row first, then column. */
  predicate Less(p: Position, q: Position) {
    p.row < q.row || (p.row == q.row && p.col < q.col)
  }

  predicate LessEq(p: Position, q: Position) {
    p == q || Less(p, q)
  }

  /** The categories of evaluation error a formula can produce. */
  datatype FormulaError = RefError | ValueError | ArithmeticError

  /** What reading a cell yields: text, a number, or an evaluation error.
      The number stands for the evaluator's floating-point result. */
  datatype Value = Str(text: string) | Num(number: real) | Err(error: FormulaError)

  /** The structural errors; each aborts the requested operation. */
  datatype SheetError = InvalidPosition | CircularDependency | FormulaException(what: string)

  datatype Option<T> = None | Some(value: T)

  datatype Result<T> = Success(value: T) | Failure(error: SheetError)

  /** Outcome of an operation that returns nothing on success. */
  datatype Status = Done | Failed(error: SheetError)

  /** The elements of a sequence of positions, as a set. */
  function Elems(s: seq<Position>): (r: set<Position>)
    ensures forall p :: p in r <==> p in s
  {
    set p | p in s
  }
}
