# Spreadsheet dependency graph, modelled in Dafny

A model of the engine of a small C++ spreadsheet. The sheet is a jagged
grid of optional cells that grows when it is written. Each cell holds
exactly one of three contents:

- Empty;
- Text, where a leading escape sign is stripped from the value;
- Formula: a parsed expression with a sorted list of the positions it reads
  and a lazily filled cache of its last result.

Every cell keeps two edge sets: the positions its formula reads (its
references) and the cells that read it (its dependents). Setting a formula
runs a cycle check over the reference relation before anything is
committed. Changing a cell clears, transitively, the cached results of the
formulas that depend on it.

## Modules

- **`Common`** (common.dfy): positions, bounds, sign characters, values, errors, `Option`/`Result`/`Status`.
- **`Formulas`** (formula.dfy): the formula value with its cache, evaluation through the cache, and construction from a parse outcome, which sorts and deduplicates the referenced cells.
- **`Cells`** (cell.dfy): the content variant, how input text is classified, and what each variant reports as text, value and references.
- **`Graphs`** (graph.dfy): the reference relation and the dependents relation as maps, with paths, acyclicity and the set of stale caches.
- **`Dependencies`** (dependencies.dfy): the two walks of cell.cpp, the cycle check and the invalidation pass, as loops proved against `Graphs`.
- **`Grids`** (grid.dfy): the jagged grid value, growing it, the printable bounding box, and the tab-separated text layout.
- **`SheetState`** (state.dfy): what the grid must satisfy, and elementary grid changes proved to keep it:
  - dependents are exactly the inverse of references;
  - every reference is a valid position;
  - the reference relation is acyclic;
  - caches are closed: a formula holding a cached result reads only formulas that hold one too.
- **`Sheets`** (sheet.dfy): class `Sheet`, whose field `grid` is the state the methods change. It holds `Cell::Set` and its helpers, which act on the record at one position, and the public operations of `Sheet`.

The operations a caller of the sheet uses keep `Valid()`: the grid
invariant `WellFormed` together with closed caches. These are the
constructor, `Set` and its committing half `Commit`, `SetCell`,
`ClearCell`, and `GetValue` with its formula case `EvaluateAt`. The
helpers they are built from change the grid without promising `Valid()`.
Each states its new grid in terms of the old one:

- `SetSize`, `ClearCaches`, `FillCaches` and `InvalidateCache` state it as a
  function of the old grid;
- `DetachAll`, `ClearCellReferences`, `AddCellReferences` and `Relink` state
  the intermediate grid (`Detaching`, `Attaching`), which keeps `Coherent`.

## Where the model follows the intended behaviour

In six places the code does something its own structure shows was not
meant. The model follows the intended behaviour in all six. Items 5 and 6
are also recorded under "## Findings", where the code as written is
modelled beside the correction. For each, the basis for the intent is
given.

1. **Validate before changing anything.** The source drops the cell's edges
   and invalidates its dependents (cell.cpp:103) before parsing and before
   the cycle check (cell.cpp:107-111). A failed `Set` therefore leaves a
   half-updated cell. The intent is the cell's own consistency:
   `referencing_cells_` is meant to hold the cells its formula names
   (cell.h:43), yet after a failed `Set` it is empty while `impl_` still
   holds the old formula. The model validates first
   (`Sheets.Sheet.Prepare`) and commits only on success. A failed `Set`
   leaves the grid unchanged.
2. **Dependents updated in place.** `GetDependentCells` returns a copy
   (cell.cpp:154-156), so the `insert` and `erase` at cell.cpp:140 and
   cell.cpp:148 never reach `dependent_cells_`. The model updates both ends
   of every edge, as cell.h:45-49 describes. It proves that references and
   dependents stay exact inverses.
3. **Cycle check prunes on the expanded node.** The visited test at
   cell.cpp:191 looks up `cell`, which is always the cell being set, not
   `ref_cell`. The model is a depth-first search that marks and prunes on
   the node it expands. Because the relation is acyclic, the code's
   search also terminates and gives the same answer; it only never
   prunes.
4. **Clearing a cell.** `Sheet::ClearCell` frees the slot (sheet.cpp:33) but
   does not release the cell's outgoing edges and does not invalidate what
   depended on it. The intent is memory safety: the destructor is empty
   (cell.cpp:99-100), so the cells that read the freed cell keep a pointer
   to it in their `referencing_cells_` (cell.cpp:139). The next `Set` of
   such a reader follows that pointer in `ClearCellReferences`
   (cell.cpp:146-148). Once dependents are updated in place (item 2), the
   cells the freed cell read would also keep it among their dependents, and
   a later invalidation walk would follow it (cell.cpp:174).
   The model clears the stale caches, drops the outgoing edges at both
   ends, and then frees the slot. Cells that still read the position find
   no cell there. When the model later creates a cell at that position for
   a reader, the new Empty cell's dependents are the cells already recorded
   as reading the position, which keeps dependents the exact inverse of
   references. In the source, `SetCell(pos, "")` gives a fresh cell with no
   dependents.
5. **Referenced cells deduplicated before sorting.** `unique` removes only
   adjacent repeats, so it removes every repeat only when it runs after
   `sort`. The pair is the usual sort-then-unique idiom applied in the wrong
   order. The model uses the corrected order.
6. **A failed first Set leaves no cell.** At a position without a cell,
   `Sheet::SetCell` grows the grid and creates the cell before `Cell::Set`
   runs (sheet.cpp:14-16). The constructor never sets `impl_`
   (cell.cpp:95-97), so a failed Set leaves a cell with no content.
   `GetText`, `GetValue` and `GetReferencedCells` on it (cell.cpp:120-130)
   dereference a null `impl_`. So do printing, and a later cycle check
   that reaches it (cell.cpp:200). The intent is memory safety, together
   with item 1's rule that a failed Set changes nothing. The model checks
   the text against the sheet as it is. It grows the grid and creates the
   cell only on success, so a failed `SetCell` leaves the grid unchanged.

In one place the model keeps the code's behaviour: a formula that names an
invalid position is reported as `InvalidPosition`. The source raises that
error from `GetCell` while the cycle check resolves the reference
(cell.cpp:190, sheet.cpp:87-89).

## Model

| member | source | states |
|---|---|---|
| `Cells.Classify` | spreadsheet/cell.cpp:105-116 | Input text is Empty exactly when it is empty. It is a formula exactly when it has at least two characters and starts with the formula sign. Otherwise it is Text, and a lone formula sign is Text. |
| `Cells.PlainContent` | spreadsheet/cell.cpp:105-115 | Text that is not a formula becomes Empty exactly when it is empty, and otherwise Text holding the input unchanged. |
| `Cells.TextValue` | spreadsheet/cell.cpp:43-48 | Text with a leading escape sign has that one sign removed in its value. Any other text is its own value. |
| `Cells.PlainRoundTrip` | spreadsheet/cell.cpp:25-56 | Setting plain text and reading it back (`Cells.GetText`, `Cells.PlainValue`, `Cells.GetReferencedCells`) returns the text unchanged. The value has at most one escape sign stripped, and nothing is referenced. Setting "" gives "" as both text and value. |
| `Cells.EscapeStrippedOnce` | spreadsheet/cell.cpp:43-48 | Exactly one escape sign is stripped, so an escaped escape sign keeps one. |
| `Cells.FormulaText` | spreadsheet/cell.cpp:75-81 | Through `Cells.GetText` and `Cells.GetReferencedCells`, a formula's text is the formula sign followed by its canonical expression, and its references are the formula's cell list. Empty and Text content reference nothing. |
| `Cells.FromFormulaValue` | spreadsheet/cell.cpp:68-73 | A formula's number or evaluation error becomes the cell value of the same kind and payload. |
| `Cells.Uncached` | spreadsheet/cell.cpp:83-89 | Dropping a formula's cache leaves it a formula without a cache. Its text and its references are unchanged, and other content is untouched. |
| `Formulas.ResultOf` | spreadsheet/formula.cpp:31-35 | An evaluation error raised while executing becomes an error value, not a failure. A computed number stays that number. |
| `Formulas.ClearCache` | spreadsheet/formula.cpp:53-55 | After clearing, the formula holds no cache. Its expression and cells are unchanged. |
| `Formulas.Evaluate` | spreadsheet/formula.cpp:29-38 | After evaluation a cache is held and it equals the returned value. A formula that already held a cache returns it and is unchanged. Otherwise the result is the execution's result, an evaluation error included. |
| `Formulas.EvaluateTwice` | spreadsheet/formula.cpp:29-38 | A second evaluation returns the first one's result, whatever the tree would compute the second time, and changes nothing. |
| `Formulas.ClearThenEvaluate` | spreadsheet/formula.cpp:50-55 | After the cache is cleared, evaluation recomputes. Evaluating and then clearing gives the same formula as clearing alone. |
| `Formulas.ParseFormula` | spreadsheet/formula.cpp:21-27 | A parse error becomes FormulaException carrying the parser's message, and no formula is produced. Otherwise the formula holds the canonical expression, no cache, and a strictly ascending list of exactly the tree's cells. |
| `Formulas.Unique` | spreadsheet/formula.cpp:64 | Exactly the elements that start a run of equal neighbours stay, in their order: those at index 0 and at every index whose element differs from the one before (`RunHeads`). So the same elements remain, the first stays, and no two neighbours are equal. |
| `Formulas.SortPositions` | spreadsheet/formula.cpp:66 | The result is in ascending position order and is a permutation of the input. |
| `Formulas.UniqueOfSorted` | spreadsheet/formula.cpp:62-67 | On a sorted list, removing consecutive repeats gives a strictly ascending list. |
| `Formulas.SetCells` | spreadsheet/formula.cpp:62-67 | The referenced-cell list is strictly ascending and holds exactly the positions the tree mentions. |
| `Formulas.SetCellsAsWritten` | spreadsheet/formula.cpp:62-67 | With repeats removed before the sort, the list is sorted and is a permutation of the tree list with only adjacent repeats removed. |
| `Formulas.DedupBeforeSortKeepsRepeats` | spreadsheet/formula.cpp:64-66 | When a position occurs in two runs of the tree's list separated by a different position, the as-written removal keeps it twice. Any list with those elements, the sorted one included, is then not strictly ascending. |
| `Graphs.RebindKeepsAcyclic` | spreadsheet/cell.cpp:107-113 | If the relation is acyclic and no new reference reaches the cell, giving the cell the new references keeps the relation acyclic. |
| `Graphs.AcyclicNoLoop` | spreadsheet/cell.cpp:195-196 | In an acyclic relation no cell lists itself, and no cell's own references lead back to it. |
| `Graphs.ExhaustedMeansNoCycle` | spreadsheet/cell.cpp:188-204 | A set that is closed under reference edges, holds every new reference and misses the cell proves that the new references close no cycle. |
| `Graphs.StaleGrows` | spreadsheet/cell.cpp:171-176 | A cached start node is stale, and so is every cached dependent of a stale node. |
| `Graphs.ClosedHoldsStale` | spreadsheet/cell.cpp:166-181 | A set that holds the start nodes and the dependents of its cached members holds the end of every stale path. |
| `Dependencies.HasCyclicDependence` | spreadsheet/cell.cpp:183-204 | The search returns true exactly when one of the new references reaches the cell, so committing would close a cycle. Direct self-reference is included. |
| `Dependencies.InvalidationPass` | spreadsheet/cell.cpp:158-181 | The pass clears exactly the caches reachable from the direct dependents through cached formulas; an uncached node stops propagation. It processes each node at most once, and it processes exactly the start nodes and the dependents of the nodes it cleared. |
| `Dependencies.Reachable` | spreadsheet/formula.cpp:29-36 | The walk returns exactly the positions reachable from the formula's cell along reference edges, the cell itself included: the cells its evaluation reads, directly or through other formulas. |
| `SheetState.Inverse` | spreadsheet/cell.h:42-43 | Between operations, q is among p's references exactly when p is among q's dependents, and every dependent is a cell of the sheet. |
| `SheetState.NoSelfReference` | spreadsheet/cell.cpp:195-196 | Between operations no cell reads itself, directly or through other cells. |
| `SheetState.CachedSet` | spreadsheet/formula.cpp:50-52 | The cached positions are exactly the formula cells whose formula holds a cache (`Formulas.HasCache`). |
| `SheetState.Link` | spreadsheet/cell.cpp:138-140 | Adding an edge puts the referenced position among the reader's references and the reader among that cell's dependents. Nothing else changes. |
| `SheetState.Unlink` | spreadsheet/cell.cpp:146-150 | Dropping an edge removes it at both ends. A referenced position that holds no cell only leaves the reader's references. Nothing else changes. |
| `SheetState.LinkKeeps` | spreadsheet/cell.cpp:138-140 | Adding an edge at both ends keeps dependents equal to the cells that read them. |
| `SheetState.UnlinkKeeps` | spreadsheet/cell.cpp:146-150 | Dropping an edge at both ends keeps dependents equal to the cells that read them. |
| `SheetState.PlaceholderKeeps` | spreadsheet/cell.cpp:134-136 | Creating an Empty cell at an absent position keeps the invariant, stores Empty there, and changes no references. |
| `SheetState.ReplaceKeeps` | spreadsheet/cell.cpp:113-115 | Replacing a cell's content keeps its edge sets and every other cell. It keeps the invariant when the new content is classified text or a formula with valid references. |
| `SheetState.RemoveKeeps` | spreadsheet/sheet.cpp:32-34 | Freeing the slot of a cell with no references keeps the invariant and leaves every other cell's content and edges alone. |
| `SheetState.CommitKeepsAcyclic` | spreadsheet/cell.cpp:109-113 | If the new references close no cycle, a grid where only the committed cell's references changed, to a subset of the new ones, and others only lost edges, is acyclic. |
| `SheetState.ClearCachesInKeeps` | spreadsheet/cell.cpp:171-173 | Clearing caches at a set of positions changes nothing but caches. Afterwards the cached positions are the old ones minus that set. |
| `SheetState.SameButCachesKeep` | spreadsheet/formula.cpp:60 | Grids that differ only in formula caches have the same cells, edges, reference relation and dependents relation, and satisfy the invariant alike. |
| `SheetState.FillCachesInKeeps` | spreadsheet/formula.cpp:29-38 | Evaluating formulas through their caches changes nothing but caches. Afterwards each evaluated formula holds the cache that its evaluation gives. Every other formula keeps its own, and no cache is lost. |
| `SheetState.CachedReach` | spreadsheet/formula.cpp:29-38 | With closed caches, every formula that a cached formula reaches holds a cache. |
| `SheetState.NoCachedReader` | spreadsheet/cell.cpp:171-176 | With closed caches, a cell that holds no cache and that no cached formula reads directly is reached by no cached formula. |
| `SheetState.FillKeepsClosed` | spreadsheet/formula.cpp:29-38 | Evaluating every formula of a set closed under reference edges keeps the caches closed. |
| `SheetState.CachedReadKeeps` | spreadsheet/formula.cpp:29-38 | Reading a cached formula changes nothing: every formula it reaches already holds a cache. |
| `SheetState.StaleClearedKeeps` | spreadsheet/cell.cpp:158-181 | Once the stale caches of a change at pos are cleared and pos itself holds no cache, the caches are closed, and no cached formula reaches pos, directly or through other cells. |
| `Grids.Store` | spreadsheet/sheet.cpp:15 | Writing a slot changes that slot only and keeps the grid's shape. |
| `Grids.GrownFor` | spreadsheet/cell.cpp:134-136 | Growing for each position in turn keeps every slot's cell and shrinks nothing. It makes every position with non-negative coordinates addressable. |
| `Grids.Resized` | spreadsheet/sheet.cpp:96-103 | The grown grid addresses the position. It has at least pos.row + 1 rows, and that row has at least pos.col + 1 slots. No other row changes length, nothing shrinks, and every slot keeps its cell. |
| `Grids.ResizedBounded` | spreadsheet/sheet.cpp:96-103 | Growing for a valid position keeps every slot within the sheet bounds. |
| `Grids.RowWidth` | spreadsheet/sheet.cpp:42-47 | A row's width ends at its last occupied slot: nothing after it is occupied. |
| `Grids.PrintableSizeIsBox` | spreadsheet/sheet.cpp:37-51 | The printable size is the bounding box of the occupied slots: every cell lies inside it, and its last row and its last column each hold a cell. |
| `Grids.BoundingBoxUnique` | spreadsheet/sheet.cpp:37-51 | There is only one bounding box, so the printable size is determined by which slots are occupied. |
| `Grids.EmptyBox` | spreadsheet/sheet.cpp:37-51 | The size is 0 by 0 exactly when no slot holds a cell. |
| `Grids.LineTabs` | spreadsheet/sheet.cpp:62-72 | A line of k fields, none containing a tab, carries k - 1 tabs. |
| `Grids.RowsNewlines` | spreadsheet/sheet.cpp:62-72 | The rendering of n rows, no field containing a newline, holds exactly n newlines. |
| `Sheets.WithCellKeeps` | spreadsheet/sheet.cpp:11-17 | Creating the Empty cell that SetCell needs keeps the invariant, makes the position hold a cell, and adds no reference edge. |
| `Sheets.WithCellKeepsClosed` | spreadsheet/sheet.cpp:13-15 | Creating the Empty cell keeps the caches closed. |
| `Sheets.CommitKeeps` | spreadsheet/cell.cpp:109-113 | A commit whose references close no cycle keeps the whole invariant. The resulting grid is the change the commit describes. |
| `Sheets.ClearCellKeeps` | spreadsheet/sheet.cpp:28-35 | Freeing the slot once the cell's references are dropped keeps the invariant and is exactly the described clear. |
| `Sheets.PlainValueAt` | spreadsheet/cell.cpp:25-27 | Where no cell is, and for an Empty cell, the value is "". |
| `Sheets.Sheet.constructor` | spreadsheet/sheet.h:15 | A new sheet has no rows and satisfies the invariant. |
| `Sheets.Sheet.IsOutSheet` | spreadsheet/sheet.cpp:81-83 | A valid position is out of the sheet exactly when the grid does not address it. |
| `Sheets.Sheet.GetCell` | spreadsheet/sheet.cpp:85-94 | An invalid position fails with InvalidPosition. A valid one yields the slot's cell, which is none beyond the grid or in an empty slot. The grid is not changed. |
| `Sheets.Sheet.SetSize` | spreadsheet/sheet.cpp:96-103 | The new grid is the old one grown to address the position; `Grids.Resized` states what that means. |
| `Sheets.Sheet.FillCaches` | spreadsheet/formula.cpp:29-38 | Every formula at the given positions is evaluated through its cache, each by its own execution. Nothing else changes. |
| `Sheets.Sheet.ClearCaches` | spreadsheet/cell.cpp:171-173 | Every formula at the given positions loses its cache. Nothing else changes. |
| `Sheets.Sheet.InvalidateCache` | spreadsheet/cell.cpp:158-164 | Exactly the caches that are stale from the cell's dependents are cleared. |
| `Sheets.Sheet.DetachAll` | spreadsheet/cell.cpp:146-151 | Every reference of the cell is dropped at both ends. No content and no other cell's references change. |
| `Sheets.Sheet.ClearCellReferences` | spreadsheet/cell.cpp:144-152 | The stale caches are cleared, then every reference of the cell is dropped at both ends. |
| `Sheets.Sheet.AddCellReferences` | spreadsheet/cell.cpp:132-142 | Each referenced position ends up holding a cell: an Empty one is created where none was. Each is among the cell's references, and the cell is among its dependents. The grid grows only as one SetSize per referenced position would grow it (`Grids.GrownFor`). |
| `Sheets.Sheet.Relink` | spreadsheet/cell.cpp:112-115 | The new content replaces the old, and its references are recorded at both ends. The grid grows only to reach them. |
| `Sheets.Sheet.Commit` | spreadsheet/cell.cpp:102-118 | Validated content is committed: stale caches cleared, the content stored, and its references recorded in place of the old ones. The invariant is kept, and afterwards no cached formula reaches the cell. The grid grows only to reach the new references. |
| `Sheets.Sheet.Prepare` | spreadsheet/cell.cpp:105-111 | Validation changes nothing. It fails exactly when Set would fail, with the same error, in order: parse error, invalid reference, cycle. On success the content is what the text denotes and can be committed. |
| `Sheets.Sheet.Set` | spreadsheet/cell.cpp:102-118 | Set reports the outcome the rules give. A failure leaves the grid unchanged. A success clears the stale caches, stores the content the text denotes, and replaces the cell's references with its new ones at both ends. The grid grows only to reach the new references. After a success no cached formula reaches the cell, directly or through other cells. |
| `Sheets.Sheet.SetCell` | spreadsheet/sheet.cpp:7-18 | An invalid position fails with InvalidPosition and changes nothing. Otherwise the outcome is the one the rules give for the sheet as it is. A failure changes nothing: no cell is created and the grid does not grow. A success first creates an Empty cell where none was, growing the grid to reach it, and then applies the Set to it. After a success no cached formula reaches the cell. |
| `Sheets.FirstSetAsWritten` | spreadsheet/sheet.cpp:14-16 | As written, at a position without a cell, SetCell leaves a cell there whatever the outcome. That cell holds content exactly when the Set succeeds. |
| `Sheets.FirstSetSelfReferenceAsWritten` | spreadsheet/sheet.cpp:14-16 | As written, setting "=A1" at A1 of an empty sheet fails, yet leaves a cell without content at A1. |
| `Sheets.Sheet.ClearCell` | spreadsheet/sheet.cpp:28-35 | An invalid position fails with InvalidPosition and changes nothing. An absent cell is left alone. Otherwise stale caches are cleared, the cell's references are dropped at both ends, and its slot is freed. Nothing else changes, and the grid keeps its rows and their lengths. Afterwards no cached formula reaches the position. |
| `Sheets.Sheet.GetValue` | spreadsheet/cell.cpp:120-122 | An invalid position fails. An absent or Empty cell yields "", and Text yields its value, with the grid unchanged. A formula yields its evaluation through the cache, an error value included. Every formula the cell reaches, the cell itself included, is evaluated through its cache, and nothing else changes. Afterwards every formula the cell reaches holds a cache, and the caches stay closed. |
| `Sheets.Sheet.EvaluateAt` | spreadsheet/formula.cpp:29-38 | The formula's value is its cache, or else its execution's result. Afterwards the formula and every formula it reaches hold a cache. The grid changes exactly as `FillCachesIn` over the reachable positions says. |
| `Sheets.Sheet.GetPrintableSize` | spreadsheet/sheet.cpp:37-51 | The nested scan returns the bounding box of the occupied slots, Empty cells included, and 0 by 0 for an empty grid. |
| `Sheets.Sheet.PrintLine` | spreadsheet/sheet.cpp:63-70 | One row is its fields joined by tabs, with an absent cell printing as an empty field. |
| `Sheets.Sheet.PrintTexts` | spreadsheet/sheet.cpp:60-73 | The output is the printable area, row by row: each row's texts joined by tabs and ended by a newline. |

## Left out

- Formula parsing and arithmetic. `ParseFormulaAST`, `FormulaAST::Execute`
  and `FormulaAST::PrintFormula` are not part of this model. A parse is
  given as its outcome (`Formulas.ParsedAst`). An execution is given as its
  result (`Formulas.Execution`), a parameter standing for what the tree
  would compute against the sheet at that moment. Numbers are `real`;
  floating-point rounding is not modelled.
- `Sheet::PrintValues`, the `PrintType::VALUE` branch of `PrintCell`, and
  `operator<<` for values and errors. These format floating-point numbers;
  only the text rendering is modelled.
- `common.h` is not part of this model. `Position::IsValid`, the position
  ordering (row first, then column), the bounds `MAX_ROWS`/`MAX_COLS` and the
  two sign characters are given values in `Common`. The proofs use them only
  through their definitions.
- `Cell::Hasher` and identifying cells by address. Cells are keyed by position, and edge
  sets hold positions.
- C++ exceptions. They become `Status`/`Result` outcomes.
- `CreateSheet`, `unique_ptr` ownership and cell destruction.
- `Formulas.Evaluate`: the source fills the cache through a `const` method on
  a formula object the cell owns. The model treats the formula as a value;
  `Sheets.Sheet.GetValue` stores the evaluated formula back at its position.
  The model therefore does not capture update through a shared reference.
- `Sheets.Sheet.GetValue`: the order in which a tree reads its cells is not
  modelled. `FormulaAST::Execute` is not part of this model. The model
  assumes that executing a tree reads the value of every cell the tree
  names, so every formula the position reaches is evaluated through its
  cache, each by its own given execution (`exec(q)`). If the tree stops
  at the first error it meets, the source leaves later cells unevaluated.
  The model does not capture that. Nor does it tie a formula's execution
  result to the values of the cells it reads.
- `Sheets.Sheet.Prepare`: when a formula names both an invalid position
  and a position that closes a cycle, the model always reports
  `InvalidPosition`. The source reports whichever its search meets first.
- `Sheets.Sheet.SetCell`: the source calls itself once after creating the
  cell (sheet.cpp:16). The model checks the text first and then commits on
  the created cell directly (item 6).
- `Sheets.FirstSetAsWritten`: a cell with no content is represented only by
  the flag it returns. The model's grid has no slot state for it, so what
  the source's null `impl_` does afterwards is not modelled.

## Findings

| source | as written | input that shows it | evidently intended | confidence | as-written member | corrected member |
|---|---|---|---|---|---|---|
| spreadsheet/formula.cpp:62-67 | `unique()` runs on the tree's list before `sort`, so only repeats that are adjacent in the tree's list are removed | a formula whose tree lists cells a, b, a: the stored list holds a twice (`Formulas.DedupBeforeSortKeepsRepeats`, for any position that occurs in two runs separated by another) | sort first, then remove repeats: every referenced cell once, in ascending order | not executed | `Formulas.SetCellsAsWritten` | `Formulas.SetCells` |
| spreadsheet/sheet.cpp:14-16 | the grid is grown and a cell is created before `Cell::Set` runs, and the constructor (cell.cpp:95-97) leaves `impl_` null, so a failed Set leaves a cell without content whose accessors (cell.cpp:120-130) dereference null | `SetCell(A1, "=A1")` on an empty sheet fails with CircularDependency, yet leaves a cell without content at A1 (`Sheets.FirstSetSelfReferenceAsWritten`) | a failed `SetCell` changes nothing: no cell is created and the grid does not grow | not executed | `Sheets.FirstSetAsWritten` | `Sheets.Sheet.SetCell` |
