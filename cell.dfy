/** The content of one cell (cell.cpp, cell.h): exactly one of Empty, Text or
    Formula, how input text is classified into one of them, and what each
    variant reports as its text, its value and its referenced cells. The
    cell's two edge sets sit beside the content in `CellRec`. */
module Cells {
  import opened Common
  import opened Formulas

  /** The closed content variant behind a cell. */
  datatype Content = Empty | Text(text: string) | FormulaContent(formula: Formula)

  /** A cell as the sheet stores it: its content, the positions its formula
      reads (`refs`) and the positions of the cells whose formulas read it
      (`deps`). */
  datatype CellRec = CellRec(content: Content, refs: set<Position>, deps: set<Position>)

  /** Which variant a piece of input text becomes. */
  datatype Kind = EmptyKind | TextKind | FormulaKind

  /** Empty text is Empty; text of at least two characters that starts with
      the formula sign is a formula; anything else, a lone formula sign
      included, is plain text. */
  function Classify(text: string): (k: Kind)
    ensures k == EmptyKind <==> text == ""
    ensures k == FormulaKind <==> |text| > 1 && text[0] == FORMULA_SIGN
    ensures k == TextKind <==> text != "" && (text[0] != FORMULA_SIGN || |text| == 1)
  {
    if text == "" then EmptyKind
    else if text[0] == FORMULA_SIGN && |text| > 1 then FormulaKind
    else TextKind
  }

  /** The content that non-formula input text becomes. */
  function PlainContent(text: string): (c: Content)
    requires Classify(text) != FormulaKind
    ensures c.Empty? <==> text == ""
    ensures c.Text? ==> c.text == text
    ensures !c.FormulaContent?
  {
    if text == "" then Empty else Text(text)
  }

  /** The text a cell reports: what was stored, or, for a formula, the
      formula sign followed by the canonical expression. */
  function GetText(c: Content): string {
    match c
    case Empty => ""
    case Text(t) => t
    case FormulaContent(f) => [FORMULA_SIGN] + f.expression
  }

  /** The value of text content: the text with one leading escape sign
      removed, if it has one. */
  function TextValue(t: string): (v: string)
    ensures |t| > 0 && t[0] == ESCAPE_SIGN ==> [ESCAPE_SIGN] + v == t
    ensures !(|t| > 0 && t[0] == ESCAPE_SIGN) ==> v == t
  {
    if |t| > 0 && t[0] == ESCAPE_SIGN then t[1..] else t
  }

  /** The value of content that is not a formula. */
  function PlainValue(c: Content): Value
    requires !c.FormulaContent?
  {
    match c
    case Empty => Str("")
    case Text(t) => Str(TextValue(t))
  }

  /** The cells the content reads: only a formula reads any. */
  function GetReferencedCells(c: Content): seq<Position> {
    match c
    case FormulaContent(f) => f.cells
    case _ => []
  }

  /** A formula value as a cell value. */
  function FromFormulaValue(v: FormulaValue): (r: Value)
    ensures v.Number? <==> r.Num?
    ensures v.Number? ==> r.number == v.x
    ensures v.Error? ==> r == Err(v.e)
  {
    match v
    case Number(x) => Num(x)
    case Error(e) => Err(e)
  }

  /** Setting non-formula text and reading it back: the text is returned
      unchanged, the value has at most one leading escape sign stripped, and
      nothing is referenced. Setting "" gives Empty with "" for both. */
  lemma PlainRoundTrip(text: string)
    requires Classify(text) != FormulaKind
    ensures GetText(PlainContent(text)) == text
    ensures PlainValue(PlainContent(text)) == Str(TextValue(text))
    ensures GetReferencedCells(PlainContent(text)) == []
    ensures text == "" ==> PlainValue(PlainContent(text)) == Str("")
  {
  }

  /** Exactly one escape sign is stripped: an escaped escape sign keeps one. */
  lemma EscapeStrippedOnce(t: string)
    ensures TextValue([ESCAPE_SIGN] + t) == t
    ensures TextValue([ESCAPE_SIGN, ESCAPE_SIGN] + t) == [ESCAPE_SIGN] + t
  {
  }

  /** A formula's text is the formula sign followed by its expression, and a
      formula is the only content that reports referenced cells. */
  lemma FormulaText(c: Content)
    ensures c.FormulaContent? ==> GetText(c) == [FORMULA_SIGN] + c.formula.expression
    ensures c.FormulaContent? ==> GetReferencedCells(c) == c.formula.cells
    ensures !c.FormulaContent? ==> GetReferencedCells(c) == []
  {
  }

  /** The content with any memoised formula result dropped: what the
      content is, apart from what has been computed from it. */
  function Uncached(c: Content): (u: Content)
    ensures u.FormulaContent? <==> c.FormulaContent?
    ensures u.FormulaContent? ==> !HasCache(u.formula) && u.formula == ClearCache(c.formula)
    ensures !c.FormulaContent? ==> u == c
    ensures GetText(u) == GetText(c) && GetReferencedCells(u) == GetReferencedCells(c)
  {
    match c
    case FormulaContent(f) => FormulaContent(ClearCache(f))
    case _ => c
  }
}
