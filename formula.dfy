/** The formula object of formula.cpp: a parsed expression, the sorted list of
    positions it references, and a lazily filled cache of its last result.
    The expression parser and the arithmetic are outside the model: a parse is
    given as its outcome (`ParsedAst`) and an execution as its result
    (`Execution`). */
module Formulas {
  import opened Common

  /** The result of evaluating a formula: a number or an evaluation error. */
  datatype FormulaValue = Number(x: real) | Error(e: FormulaError)

  /** What executing the syntax tree against the sheet produced: a number,
      or an evaluation error raised while computing it. */
  datatype Execution = Executed(x: real) | Raised(e: FormulaError)

  /** What parsing an expression produced: the canonical rendering of the
      tree and the cells it mentions in tree order, or a parse error. */
  datatype ParsedAst = Ast(expression: string, astCells: seq<Position>) | Malformed(what: string)

  /** Ascending order, repeats allowed. */
  ghost predicate Sorted(s: seq<Position>) {
    forall i, j :: 0 <= i < j < |s| ==> LessEq(s[i], s[j])
  }

  /** Strictly ascending order: sorted and free of repeats. */
  ghost predicate StrictlySorted(s: seq<Position>) {
    forall i, j :: 0 <= i < j < |s| ==> Less(s[i], s[j])
  }

  /** Index i of s starts a run of equal neighbours. */
  predicate RunStart(s: seq<Position>, i: int)
    requires 0 <= i < |s|
  {
    i == 0 || s[i] != s[i - 1]
  }

  /** The elements of s[..n] at the indices that start a run, in order. */
  ghost function RunHeads(s: seq<Position>, n: nat): seq<Position>
    requires n <= |s|
  {
    if n == 0 then []
    else RunHeads(s, n - 1) + (if RunStart(s, n - 1) then [s[n - 1]] else [])
  }

  /** Dropping the first element: the run heads of s are those of s[1..],
      preceded by s[0] unless s[0] begins the first run of s[1..]. */
  lemma {:induction false} RunHeadsTail(s: seq<Position>, n: nat)
    requires 1 <= n < |s|
    ensures RunHeads(s, n + 1) == if s[0] == s[1] then RunHeads(s[1..], n) else [s[0]] + RunHeads(s[1..], n)
  {
    var t := s[1..];
    if n == 1 {
      assert t[0] == s[1] && RunStart(t, 0) && RunStart(s, 0);
      assert RunHeads(t, 1) == RunHeads(t, 0) + [t[0]] == [s[1]];
      assert RunHeads(s, 1) == RunHeads(s, 0) + [s[0]] == [s[0]];
      assert RunHeads(s, 2) == [s[0]] + (if s[1] != s[0] then [s[1]] else []);
    } else {
      RunHeadsTail(s, n - 1);
      assert RunStart(s, n) == RunStart(t, n - 1);
      var last := if RunStart(s, n) then [s[n]] else [];
      assert RunHeads(s, n + 1) == RunHeads(s, n) + last;
      assert RunHeads(t, n) == RunHeads(t, n - 1) + last;
      if s[0] != s[1] {
        assert [s[0]] + RunHeads(t, n - 1) + last == [s[0]] + (RunHeads(t, n - 1) + last);
      }
    }
  }

  /** Removal of consecutive repeats, keeping the first of each run: what
      `unique` does on a list. Exactly the elements that start a run stay,
      in their order. */
  function Unique(s: seq<Position>): (r: seq<Position>)
    ensures r == RunHeads(s, |s|)
    ensures forall p :: p in r <==> p in s
    ensures |s| > 0 ==> |r| > 0 && r[0] == s[0]
    ensures forall i :: 0 <= i < |r| - 1 ==> r[i] != r[i + 1]
  {
    if |s| <= 1 then s
    else
      RunHeadsTail(s, |s| - 1);
      if s[0] == s[1] then Unique(s[1..])
      else [s[0]] + Unique(s[1..])
  }

  /** Removing consecutive repeats from a sorted list leaves it strictly sorted. */
  lemma {:induction false} UniqueOfSorted(s: seq<Position>)
    requires Sorted(s)
    ensures StrictlySorted(Unique(s))
  {
    if |s| > 1 {
      assert Sorted(s[1..]) by {
        forall i, j | 0 <= i < j < |s| - 1 ensures LessEq(s[1..][i], s[1..][j]) {
          assert s[1..][i] == s[i + 1] && s[1..][j] == s[j + 1];
        }
      }
      UniqueOfSorted(s[1..]);
      var u := Unique(s[1..]);
      if s[0] != s[1] {
        var r := [s[0]] + u;
        assert r == Unique(s);
        forall j | 0 < j < |r| ensures Less(r[0], r[j]) {
          assert r[j] == u[j - 1];
          assert u[j - 1] in s[1..];
          var k :| 0 <= k < |s[1..]| && s[1..][k] == u[j - 1];
          assert LessEq(s[0], s[k + 1]) && LessEq(s[0], s[1]);
          if j == 1 {
            assert u[0] == s[1];
          } else {
            assert Less(u[0], u[j - 1]);
            assert u[0] == s[1];
          }
        }
        forall i, j | 0 <= i < j < |r| ensures Less(r[i], r[j]) {
          if i > 0 {
            assert r[i] == u[i - 1] && r[j] == u[j - 1];
          }
        }
      }
    }
  }

  /** Inserting x at the first place whose element exceeds it keeps a
      sorted list sorted and adds exactly x. */
  lemma InsertKeepsSorted(r: seq<Position>, k: int, x: Position)
    requires Sorted(r) && 0 <= k <= |r|
    requires forall j :: 0 <= j < k ==> LessEq(r[j], x)
    requires k < |r| ==> Less(x, r[k])
    ensures Sorted(r[..k] + [x] + r[k..])
  {
    var r' := r[..k] + [x] + r[k..];
    assert forall j :: 0 <= j < |r'| ==> r'[j] == (if j < k then r[j] else if j == k then x else r[j - 1]);
    forall i, j | 0 <= i < j < |r'| ensures LessEq(r'[i], r'[j]) {
      if j < k {
        assert LessEq(r[i], r[j]);
      } else if j == k {
        assert LessEq(r[i], x);
      } else if i < k {
        assert LessEq(r[i], r[j - 1]);
      } else if i == k {
        assert Less(x, r[k]);
        assert LessEq(r[k], r[j - 1]);
      } else {
        assert LessEq(r[i - 1], r[j - 1]);
      }
    }
    assert r == r[..k] + r[k..];
  }

  /** Sorts a list of positions in ascending order (insertion sort); the
      result is a permutation of the input. */
  method SortPositions(s: seq<Position>) returns (r: seq<Position>)
    ensures Sorted(r)
    ensures multiset(r) == multiset(s)
  {
    r := [];
    for i := 0 to |s|
      invariant Sorted(r)
      invariant multiset(r) == multiset(s[..i])
    {
      var x := s[i];
      var k := 0;
      while k < |r| && LessEq(r[k], x)
        invariant 0 <= k <= |r|
        invariant forall j :: 0 <= j < k ==> LessEq(r[j], x)
      {
        k := k + 1;
      }
      InsertKeepsSorted(r, k, x);
      assert r == r[..k] + r[k..];
      assert multiset(r[..k] + [x] + r[k..]) == multiset(r[..k]) + multiset{x} + multiset(r[k..]);
      assert s[..i + 1] == s[..i] + [x];
      r := r[..k] + [x] + r[k..];
    }
    assert s[..|s|] == s;
  }

  /** The referenced-cell list of a formula: its tree's cells sorted
      ascending with repeats removed, so every cell occurs exactly once. */
  method SetCells(astCells: seq<Position>) returns (cells: seq<Position>)
    ensures StrictlySorted(cells)
    ensures forall p :: p in cells <==> p in astCells
  {
    var sorted := SortPositions(astCells);
    assert forall p :: p in sorted <==> p in multiset(sorted);
    UniqueOfSorted(sorted);
    cells := Unique(sorted);
  }

  /** The same list built in the order formula.cpp uses: repeats are
      removed before sorting, so only repeats adjacent in the tree's list go. */
  method SetCellsAsWritten(astCells: seq<Position>) returns (cells: seq<Position>)
    ensures Sorted(cells)
    ensures multiset(cells) == multiset(Unique(astCells))
  {
    cells := SortPositions(Unique(astCells));
  }

  /** The index that starts the run holding index t. */
  lemma RunHeadOf(s: seq<Position>, t: int) returns (m: int)
    requires 0 <= t < |s|
    ensures 0 <= m <= t && RunStart(s, m)
    ensures forall u :: m <= u <= t ==> s[u] == s[t]
  {
    m := t;
    while !RunStart(s, m)
      invariant 0 <= m <= t
      invariant forall u :: m <= u <= t ==> s[u] == s[t]
      decreases m
    {
      m := m - 1;
    }
  }

  /** Looking further along s only appends run heads. */
  lemma {:induction false} RunHeadsPrefix(s: seq<Position>, a: nat, b: nat)
    requires a <= b <= |s|
    ensures RunHeads(s, a) <= RunHeads(s, b)
  {
    if a < b {
      RunHeadsPrefix(s, a, b - 1);
      var h := RunHeads(s, b - 1);
      assert RunHeads(s, b) == h + (if RunStart(s, b - 1) then [s[b - 1]] else []);
      assert RunHeads(s, b)[..|h|] == h;
    }
  }

  /** A list holding the same position at two indices holds it twice. */
  lemma TwiceAt(r: seq<Position>, i: int, j: int)
    requires 0 <= i < j < |r| && r[i] == r[j]
    ensures multiset(r)[r[i]] >= 2
  {
    assert r == r[..j] + [r[j]] + r[j + 1..];
    assert r[i] in r[..j];
  }

  /** A strictly ascending list holds each position at most once. */
  lemma {:induction false} StrictlySortedOnce(c: seq<Position>)
    requires StrictlySorted(c)
    ensures forall x :: multiset(c)[x] <= 1
  {
    if |c| > 0 {
      var t := c[1..];
      assert StrictlySorted(t) by {
        forall i, j | 0 <= i < j < |t| ensures Less(t[i], t[j]) {
          assert t[i] == c[i + 1] && t[j] == c[j + 1];
        }
      }
      StrictlySortedOnce(t);
      assert c == [c[0]] + t;
      assert c[0] !in t by {
        forall j | 0 <= j < |t| ensures t[j] != c[0] {
          assert Less(c[0], c[j + 1]);
        }
      }
    }
  }

  /** Two run heads holding the same position both stay. */
  lemma TwoRunHeads(s: seq<Position>, m1: int, m2: int)
    requires 0 <= m1 < m2 < |s| && RunStart(s, m1) && RunStart(s, m2) && s[m1] == s[m2]
    ensures multiset(RunHeads(s, |s|))[s[m1]] >= 2
  {
    HeadAt(s, m1, m2);
    HeadAt(s, m1, |s|);
    HeadAt(s, m2, |s|);
    TwiceAt(RunHeads(s, |s|), |RunHeads(s, m1)|, |RunHeads(s, m2)|);
  }

  /** The run start m gives the run heads an entry s[m], at the index equal
      to the number of run heads before m. */
  lemma HeadAt(s: seq<Position>, m: nat, n: nat)
    requires m < n <= |s| && RunStart(s, m)
    ensures |RunHeads(s, m)| < |RunHeads(s, n)| && RunHeads(s, n)[|RunHeads(s, m)|] == s[m]
  {
    var h := RunHeads(s, m);
    assert RunHeads(s, m + 1) == h + [s[m]];
    RunHeadsPrefix(s, m + 1, n);
    assert RunHeads(s, n)[|h|] == (h + [s[m]])[|h|];
  }

  /** A position that occurs in two runs of the tree's list, separated by
      a different position, keeps two entries after the as-written removal
      of repeats; however that list is then sorted, it repeats the
      position and is not strictly ascending. The tree list [a, b, a] is the
      smallest case. */
  lemma DedupBeforeSortKeepsRepeats(s: seq<Position>, i: int, j: int, k: int, cells: seq<Position>)
    requires 0 <= i < j < k < |s| && s[i] == s[k] && s[j] != s[i]
    requires multiset(cells) == multiset(Unique(s))
    ensures multiset(cells)[s[i]] >= 2
    ensures !StrictlySorted(cells)
  {
    var m1 := RunHeadOf(s, i);
    var m2 := RunHeadOf(s, k);
    assert j < m2;
    TwoRunHeads(s, m1, m2);
    if StrictlySorted(cells) {
      StrictlySortedOnce(cells);
    }
  }

  /** A parsed formula: its canonical expression, the list of positions it
      references, and its memoised result, if one is held. */
  datatype Formula = Formula(expression: string, cells: seq<Position>, cache: Option<FormulaValue>)

  predicate HasCache(f: Formula) {
    f.cache.Some?
  }

  /** An execution's result as a formula value: a raised evaluation error
      becomes a value, not a failure. */
  function ResultOf(exec: Execution): (v: FormulaValue)
    ensures exec.Raised? <==> v.Error?
    ensures exec.Raised? ==> v.e == exec.e
    ensures exec.Executed? ==> v == Number(exec.x)
  {
    match exec
    case Executed(x) => Number(x)
    case Raised(e) => Error(e)
  }

  /** Forgets the memoised result; the expression and the cells stay. */
  function ClearCache(f: Formula): (r: Formula)
    ensures !HasCache(r)
    ensures r.expression == f.expression && r.cells == f.cells
  {
    f.(cache := None)
  }

  /** Evaluation through the cache: the held result if there is one, and the
      formula is left as it was; otherwise the result of executing the tree,
      an evaluation error included, which is then held. `exec` is what the
      tree would compute if it were executed now. */
  function Evaluate(f: Formula, exec: Execution): (r: (FormulaValue, Formula))
    ensures HasCache(r.1) && r.1.cache.value == r.0
    ensures r.1.expression == f.expression && r.1.cells == f.cells
    ensures HasCache(f) ==> r.1 == f
    ensures !HasCache(f) ==> r.0 == ResultOf(exec)
  {
    match f.cache
    case Some(v) => (v, f)
    case None => (ResultOf(exec), f.(cache := Some(ResultOf(exec))))
  }

  /** A second evaluation returns the first one's result, whatever the tree
      would compute this time, and changes nothing. */
  lemma EvaluateTwice(f: Formula, first: Execution, second: Execution)
    ensures Evaluate(Evaluate(f, first).1, second) == Evaluate(f, first)
    ensures !HasCache(f) ==> Evaluate(f, first).0 == ResultOf(first)
  {
  }

  /** After the cache is cleared, evaluation recomputes. */
  lemma ClearThenEvaluate(f: Formula, exec: Execution)
    ensures Evaluate(ClearCache(f), exec).0 == ResultOf(exec)
    ensures ClearCache(Evaluate(f, exec).1) == ClearCache(f)
  {
  }

  /** Builds a formula from a parse outcome: a parse error becomes a
      FormulaException and no formula is produced; otherwise the formula
      holds the canonical expression, its tree's cells sorted once each, and
      no cached result. */
  method ParseFormula(ast: ParsedAst) returns (r: Result<Formula>)
    ensures ast.Malformed? <==> r.Failure?
    ensures ast.Malformed? ==> r.error == FormulaException(ast.what)
    ensures ast.Ast? ==> r.value.expression == ast.expression && r.value.cache == None
    ensures ast.Ast? ==> StrictlySorted(r.value.cells) && forall p :: p in r.value.cells <==> p in ast.astCells
  {
    match ast
    case Malformed(what) =>
      r := Failure(FormulaException(what));
    case Ast(expression, astCells) =>
      var cells := SetCells(astCells);
      r := Success(Formula(expression, cells, None));
  }
}
