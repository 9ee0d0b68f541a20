/**
  Facts about the KenKen rules that the solver's contracts rest on:
  placing and undoing a value, how cage verdicts react to more filled
  cells, and what a finished search guarantees.
 */
module KenKenProofs {
  import opened KenKenRules

  /** Writing a value and then writing the old value back gives the grid back. */
  lemma PlaceRestores(g: Grid, n: nat, row: int, col: int, v: int)
    requires IsGrid(g, n) && 0 <= row < n && 0 <= col < n
    ensures Place(Place(g, n, row, col, v), n, row, col, g[row][col]) == g
  {
    assert g[row][col := v][col := g[row][col]] == g[row];
  }

  lemma {:induction false} RowZerosFill(s: seq<int>, col: int, v: int)
    requires 0 <= col < |s| && s[col] == 0 && v != 0
    ensures RowZeros(s[col := v]) + 1 == RowZeros(s)
  {
    var last := |s| - 1;
    if col < last {
      assert s[col := v][..last] == s[..last][col := v];
      RowZerosFill(s[..last], col, v);
    } else {
      assert s[col := v][..last] == s[..last];
    }
  }

  lemma {:induction false} ZerosFill(g: Grid, row: int, s: seq<int>)
    requires 0 <= row < |g| && RowZeros(s) + 1 == RowZeros(g[row])
    ensures Zeros(g[row := s]) + 1 == Zeros(g)
  {
    var last := |g| - 1;
    if row < last {
      assert g[row := s][..last] == g[..last][row := s];
      ZerosFill(g[..last], row, s);
    } else {
      assert g[row := s][..last] == g[..last];
    }
  }

  /**
    Filling an empty cell with a non-zero value leaves one empty cell fewer,
    and the new grid keeps every value the old one had.
   */
  lemma PlaceFillsOneCell(g: Grid, n: nat, row: int, col: int, v: int)
    requires IsGrid(g, n) && 0 <= row < n && 0 <= col < n && g[row][col] == 0 && v != 0
    ensures Zeros(Place(g, n, row, col, v)) + 1 == Zeros(g)
    ensures Extends(g, Place(g, n, row, col, v), n)
  {
    RowZerosFill(g[row], col, v);
    ZerosFill(g, row, g[row][col := v]);
  }

  lemma ExtendsTransitive(f: Grid, g: Grid, h: Grid, n: nat)
    requires Extends(f, g, n) && Extends(g, h, n)
    ensures Extends(f, h, n)
  {
  }

  /** A grid that a solution extends still lies below it after one of the solution's own values is placed. */
  lemma ExtendsPlace(g: Grid, s: Grid, n: nat, row: int, col: int)
    requires Extends(g, s, n) && 0 <= row < n && 0 <= col < n
    ensures Extends(Place(g, n, row, col, s[row][col]), s, n)
  {
  }

  /** Once a cage's verdict is decided, filling more cells does not change it. */
  lemma VerdictSettled(g: Grid, h: Grid, n: nat, cage: Cage)
    requires Extends(g, h, n) && CageFits(cage, n)
    requires CageVerdict(g, n, cage) != Unfilled
    ensures CageVerdict(h, n, cage) == CageVerdict(g, n, cage)
  {
    if cage.op == Add || cage.op == Mul {
      var vs := Values(g, n, cage.squares);
      assert forall i :: 0 <= i < |vs| ==> vs[i] != 0;
      assert Values(h, n, cage.squares) == vs;
    }
  }

  /** A cage that does not list (row, col) does not see a write there. */
  lemma VerdictIgnoresOtherCells(g: Grid, n: nat, cage: Cage, row: int, col: int, v: int)
    requires IsGrid(g, n) && CageFits(cage, n) && 0 <= row < n && 0 <= col < n
    requires Square(row, col) !in cage.squares
    ensures CageVerdict(Place(g, n, row, col, v), n, cage) == CageVerdict(g, n, cage)
  {
    var h := Place(g, n, row, col, v);
    assert forall i :: 0 <= i < |cage.squares| ==> cage.squares[i] != Square(row, col);
    assert Values(h, n, cage.squares) == Values(g, n, cage.squares);
  }

  /** A non-zero value that a Latin grid has at a cell is absent from the rest of that row and column in any grid below it. */
  lemma SolutionValueNewToLines(g: Grid, s: Grid, n: nat, row: int, col: int)
    requires Extends(g, s, n) && NoRepeats(s, n)
    requires 0 <= row < n && 0 <= col < n && g[row][col] == 0 && s[row][col] != 0
    ensures !RowHas(g, n, row, s[row][col]) && !ColHas(g, n, col, s[row][col])
  {
    assert RowDistinct(s, n, row) && ColDistinct(s, n, col);
  }

  /** The cage owning a cell accepts there the value a solution extending the grid has. */
  lemma SolutionValueFitsCage(cages: seq<Cage>, g: Grid, s: Grid, n: nat, row: int, col: int)
    requires WellFormed(cages, n) && IsSolution(cages, s, n) && Extends(g, s, n)
    requires 0 <= row < n && 0 <= col < n
    ensures CageAllows(cages, g, n, row, col, s[row][col])
  {
    var k := LastOwner(cages, Square(row, col)).value;
    var p := Place(g, n, row, col, s[row][col]);
    ExtendsPlace(g, s, n, row, col);
    if CageVerdict(p, n, cages[k]) == Violated {
      VerdictSettled(p, s, n, cages[k]);
      assert false;
    }
  }

  /**
    Every value a solution has at an empty cell of a grid it extends passes
    the row, column and cage tests there.
   */
  lemma SolutionValueIsSafe(cages: seq<Cage>, g: Grid, s: Grid, n: nat, row: int, col: int)
    requires WellFormed(cages, n) && IsSolution(cages, s, n) && Extends(g, s, n)
    requires 0 <= row < n && 0 <= col < n && g[row][col] == 0
    ensures !RowHas(g, n, row, s[row][col]) && !ColHas(g, n, col, s[row][col])
    ensures CageAllows(cages, g, n, row, col, s[row][col])
  {
    SolutionValueNewToLines(g, s, n, row, col);
    SolutionValueFitsCage(cages, g, s, n, row, col);
  }

  /**
    Placing a value that is new to its row and to its column keeps a grid
    free of repeats; the cages play no part in this.
   */
  lemma PlaceKeepsNoRepeats(g: Grid, n: nat, row: int, col: int, num: int)
    requires IsGrid(g, n) && NoRepeats(g, n) && 0 <= row < n && 0 <= col < n && g[row][col] == 0
    requires !RowHas(g, n, row, num) && !ColHas(g, n, col, num)
    ensures NoRepeats(Place(g, n, row, col, num), n)
  {
    var h := Place(g, n, row, col, num);
    forall i | 0 <= i < n
      ensures RowDistinct(h, n, i) && ColDistinct(h, n, i)
    {
      assert RowDistinct(g, n, i) && ColDistinct(g, n, i);
    }
  }

  /**
    Placing a value that passes the row, column and cage tests at an empty
    cell keeps a consistent grid consistent, provided no square belongs to
    two cages.
   */
  lemma PlaceKeepsConsistency(cages: seq<Cage>, g: Grid, n: nat, row: int, col: int, num: int)
    requires WellFormed(cages, n) && Partitioned(cages) && Consistent(cages, g, n)
    requires 0 <= row < n && 0 <= col < n && g[row][col] == 0 && 1 <= num <= n
    requires !RowHas(g, n, row, num) && !ColHas(g, n, col, num) && CageAllows(cages, g, n, row, col, num)
    ensures Consistent(cages, Place(g, n, row, col, num), n)
  {
    var h := Place(g, n, row, col, num);
    PlaceKeepsNoRepeats(g, n, row, col, num);
    var sq := Square(row, col);
    var k := LastOwner(cages, sq).value;
    forall j | 0 <= j < |cages|
      ensures CageVerdict(h, n, cages[j]) != Violated
    {
      if j != k {
        var s :| 0 <= s < |cages[k].squares| && cages[k].squares[s] == sq;
        VerdictIgnoresOtherCells(g, n, cages[j], row, col, num);
      }
    }
  }

  /**
    A candidate that fails the placement tests at an empty cell, or below
    which no solution exists, is not the value any solution extending the
    grid has there.
   */
  lemma RejectedCandidate(cages: seq<Cage>, g: Grid, n: nat, row: int, col: int, num: int)
    requires WellFormed(cages, n) && IsGrid(g, n) && 0 <= row < n && 0 <= col < n && g[row][col] == 0
    requires SolutionsAtLeast(cages, g, n, row, col, num)
    requires !(!RowHas(g, n, row, num) && !ColHas(g, n, col, num) && CageAllows(cages, g, n, row, col, num)) ||
             NoSolutionExtends(cages, Place(g, n, row, col, num), n)
    ensures SolutionsAtLeast(cages, g, n, row, col, num + 1)
  {
    forall s | IsSolution(cages, s, n) && Extends(g, s, n)
      ensures s[row][col] != num
    {
      SolutionValueIsSafe(cages, g, s, n, row, col);
      ExtendsPlace(g, s, n, row, col);
    }
  }

  /** Solutions hold 1..n, so once every candidate up to n is ruled out at an empty cell, none is left. */
  lemma NoCandidateLeft(cages: seq<Cage>, g: Grid, n: nat, row: int, col: int)
    requires WellFormed(cages, n) && 0 <= row < n && 0 <= col < n
    requires SolutionsAtLeast(cages, g, n, row, col, n + 1)
    ensures NoSolutionExtends(cages, g, n)
  {
    forall s | IsSolution(cages, s, n)
      ensures !Extends(g, s, n)
    {
      assert s[row][col] <= n;
    }
  }

  /** The only grid extending a full grid is the grid itself. */
  lemma FullGridHasOneExtension(g: Grid, s: Grid, n: nat)
    requires IsGrid(g, n) && Full(g, n) && Extends(g, s, n)
    ensures s == g
  {
    forall r | 0 <= r < n
      ensures s[r] == g[r]
    {
      assert forall c :: 0 <= c < n ==> s[r][c] == g[r][c];
    }
  }

  /**
    The search's choice is the least in search order: if `h` extends `g`
    with `num` at its first empty cell, comes no later than any solution
    with `num` there, and no solution has a smaller value there, then `h`
    comes no later than any solution extending `g`.
   */
  lemma FirstChoiceIsLeast(cages: seq<Cage>, g: Grid, h: Grid, n: nat, row: int, col: int, num: int)
    requires WellFormed(cages, n) && IsGrid(g, n) && 0 <= row < n && 0 <= col < n && g[row][col] == 0 && num != 0
    requires forall r, c :: 0 <= r < n && 0 <= c < n && Before(r, c, row, col) ==> g[r][c] != 0
    requires Extends(Place(g, n, row, col, num), h, n)
    requires forall s :: IsSolution(cages, s, n) && Extends(Place(g, n, row, col, num), s, n) ==> LexLeq(h, s, n)
    requires SolutionsAtLeast(cages, g, n, row, col, num)
    ensures forall s :: IsSolution(cages, s, n) && Extends(g, s, n) ==> LexLeq(h, s, n)
  {
    forall s | IsSolution(cages, s, n) && Extends(g, s, n)
      ensures LexLeq(h, s, n)
    {
      if s[row][col] == num {
        ExtendsPlace(g, s, n, row, col);
      } else {
        var p := Place(g, n, row, col, num);
        assert h[row][col] == p[row][col] == num;
        forall r, c | 0 <= r < n && 0 <= c < n && Before(r, c, row, col)
          ensures h[r][c] == s[r][c]
        {
          assert p[r][c] == g[r][c];
        }
      }
    }
  }

  /** A search that finds the grid already full succeeds at once, leaving the grid as it is. */
  lemma SearchSucceedsOnFull(cages: seq<Cage>, g: Grid, n: nat)
    requires WellFormed(cages, n) && IsGrid(g, n) && Full(g, n)
    ensures SearchSucceeded(cages, g, g, n)
  {
    forall s | IsSolution(cages, s, n) && Extends(g, s, n)
      ensures LexLeq(g, s, n)
    {
      FullGridHasOneExtension(g, s, n);
    }
  }

  /**
    A search that places a safe candidate `num` at the first empty cell,
    after every smaller candidate was ruled out, and then succeeds from
    there has succeeded from the grid before the placement.
   */
  lemma SearchSucceedsAfterChoice(cages: seq<Cage>, g: Grid, h: Grid, n: nat, row: int, col: int, num: int)
    requires WellFormed(cages, n) && IsGrid(g, n) && 0 <= row < n && 0 <= col < n && g[row][col] == 0
    requires forall r, c :: 0 <= r < n && 0 <= c < n && Before(r, c, row, col) ==> g[r][c] != 0
    requires 1 <= num <= n
    requires !RowHas(g, n, row, num) && !ColHas(g, n, col, num) && CageAllows(cages, g, n, row, col, num)
    requires SolutionsAtLeast(cages, g, n, row, col, num)
    requires SearchSucceeded(cages, Place(g, n, row, col, num), h, n)
    ensures SearchSucceeded(cages, g, h, n)
  {
    var p := Place(g, n, row, col, num);
    PlaceFillsOneCell(g, n, row, col, num);
    ExtendsTransitive(g, p, h, n);
    FirstChoiceIsLeast(cages, g, h, n, row, col, num);
    if Partitioned(cages) && Consistent(cages, g, n) {
      PlaceKeepsConsistency(cages, g, n, row, col, num);
    }
    assert h[row][col] == num;
  }

  // ---------------------------------------------------------------------
  // The cage checks

  /** The "-" check does not depend on which of its two squares is listed first. */
  lemma SubSymmetric(a: int, b: int, res: int)
    ensures SubVerdict(a, b, res) == SubVerdict(b, a, res)
  {
  }

  /** The "/" check does not depend on which of its two squares is listed first. */
  lemma DivSymmetric(a: int, b: int, res: int)
    ensures DivVerdict(a, b, res) == DivVerdict(b, a, res)
    ensures DivVerdict(2, 6, 3) == Satisfied && DivVerdict(6, 2, 3) == Satisfied
  {
  }

  /**
    The cage test objects only to a cage that the placement completes: a
    cage with an unknown operator never objects, and neither does one with
    a square still empty among those its check reads.
   */
  lemma CageObjectsOnlyWhenFilled(cages: seq<Cage>, g: Grid, n: nat, row: int, col: int, num: int)
    requires WellFormed(cages, n) && IsGrid(g, n) && 0 <= row < n && 0 <= col < n
    requires !CageAllows(cages, g, n, row, col, num)
    ensures var cage := cages[LastOwner(cages, Square(row, col)).value];
            cage.op != Other &&
            forall i :: 0 <= i < |cage.squares| && (cage.op == Add || cage.op == Mul || i < 2) ==>
              At(Place(g, n, row, col, num), n, cage.squares[i]) != 0
  {
    var cage := cages[LastOwner(cages, Square(row, col)).value];
    var p := Place(g, n, row, col, num);
    if cage.op == Add || cage.op == Mul {
      var vs := Values(p, n, cage.squares);
      forall i | 0 <= i < |cage.squares|
        ensures At(p, n, cage.squares[i]) != 0
      {
        assert vs[i] == At(p, n, cage.squares[i]);
      }
    }
  }

  /** A board with every cell empty breaks no rule, as long as no cage is empty. */
  lemma EmptyGridConsistent(cages: seq<Cage>, n: nat)
    requires WellFormed(cages, n)
    requires forall k :: 0 <= k < |cages| ==> cages[k].squares != []
    ensures Consistent(cages, EmptyGrid(n), n)
  {
    var g := EmptyGrid(n);
    forall k | 0 <= k < |cages|
      ensures CageVerdict(g, n, cages[k]) != Violated
    {
      if cages[k].op == Add || cages[k].op == Mul {
        assert Values(g, n, cages[k].squares)[0] == 0;
      }
    }
  }

  // ---------------------------------------------------------------------
  // What a solution satisfies

  /** In a solution every cage with a known operator evaluates to Satisfied. */
  lemma SolutionSatisfiesCages(cages: seq<Cage>, g: Grid, n: nat, k: int)
    requires WellFormed(cages, n) && IsSolution(cages, g, n)
    requires 0 <= k < |cages| && cages[k].op != Other
    ensures CageVerdict(g, n, cages[k]) == Satisfied
  {
    var cage := cages[k];
    if cage.op == Add || cage.op == Mul {
      var vs := Values(g, n, cage.squares);
      assert forall i :: 0 <= i < |vs| ==> vs[i] == At(g, n, cage.squares[i]) != 0;
    }
  }

  lemma {:induction false} DistinctCard(s: seq<int>)
    requires forall i, j :: 0 <= i < j < |s| ==> s[i] != s[j]
    ensures |set x | x in s| == |s|
  {
    if s != [] {
      var t := s[..|s| - 1];
      DistinctCard(t);
      assert (set x | x in s) == (set x | x in t) + {s[|s| - 1]};
    }
  }

  /** The integers lo..hi-1 as a set. */
  function Range(lo: int, hi: int): (r: set<int>)
    ensures forall x :: x in r <==> lo <= x < hi
    ensures |r| == if lo <= hi then hi - lo else 0
    decreases hi - lo
  {
    if lo >= hi then {} else Range(lo, hi - 1) + {hi - 1}
  }

  lemma SubsetCard(a: set<int>, b: set<int>)
    requires a <= b
    ensures |a| <= |b|
  {
    assert b == a + (b - a);
    assert a * (b - a) == {};
  }

  /** n pairwise-distinct values drawn from 1..n include every value of 1..n. */
  lemma DistinctFillsRange(s: seq<int>, n: nat, v: int)
    requires |s| == n && (forall i :: 0 <= i < n ==> 1 <= s[i] <= n)
    requires forall i, j :: 0 <= i < n && 0 <= j < n && i != j ==> s[i] != s[j]
    requires 1 <= v <= n
    ensures v in s
  {
    var used := set x | x in s;
    DistinctCard(s);
    if v !in s {
      SubsetCard(used, Range(1, n + 1) - {v});
      assert false;
    }
  }

  /** Each row and each column of a solution holds every value of 1..n, each exactly once. */
  lemma SolutionLinesArePermutations(cages: seq<Cage>, g: Grid, n: nat, i: int, v: int)
    requires WellFormed(cages, n) && IsSolution(cages, g, n)
    requires 0 <= i < n && 1 <= v <= n
    ensures RowHas(g, n, i, v) && ColHas(g, n, i, v)
  {
    assert RowDistinct(g, n, i) && ColDistinct(g, n, i);
    DistinctFillsRange(g[i], n, v);
    var column := seq(n, r requires 0 <= r < n => g[r][i]);
    DistinctFillsRange(column, n, v);
    var r :| 0 <= r < n && column[r] == v;
  }
}
