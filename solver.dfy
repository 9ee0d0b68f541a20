/**
  The backtracking KenKen solver: a board that the search writes in place,
  tentatively assigning a cell and undoing the assignment when the search
  below it fails.
 */
module KenKenSolver {
  import opened KenKenRules
  import KenKenProofs

  class Solver {
    /** The side of the board (6 in the original puzzle). */
    const n: nat
    /** The cage table; it never changes. */
    const rules: seq<Cage>
    /** The board; 0 marks an empty cell. */
    const board: array2<int>
    /** The board's contents as a grid value. */
    ghost var cells: Grid

    ghost predicate Valid()
      reads this, board
    {
      board.Length0 == n && board.Length1 == n &&
      IsGrid(cells, n) &&
      (forall r, c :: 0 <= r < n && 0 <= c < n ==> board[r, c] == cells[r][c]) &&
      WellFormed(rules, n)
    }

    /** A solver over an all-empty n-by-n board. */
    constructor (size: nat, cages: seq<Cage>)
      requires WellFormed(cages, size)
      ensures Valid() && fresh(board)
      ensures n == size && rules == cages
      ensures cells == EmptyGrid(n)
    {
      n := size;
      rules := cages;
      board := new int[size, size]((r, c) => 0);
      cells := EmptyGrid(size);
    }

    /** The first empty cell in row-major order, or None when the board is full. */
    method FindEmptyLocation() returns (loc: Option<Square>)
      requires Valid()
      ensures loc.Some? ==> InGrid(loc.value, n) && cells[loc.value.row][loc.value.col] == 0
      ensures loc.Some? ==> forall r, c :: 0 <= r < n && 0 <= c < n && Before(r, c, loc.value.row, loc.value.col) ==>
                              cells[r][c] != 0
      ensures loc.None? <==> Full(cells, n)
    {
      for row := 0 to n
        invariant forall r, c :: 0 <= r < row && 0 <= c < n ==> cells[r][c] != 0
      {
        for col := 0 to n
          invariant forall r, c :: 0 <= r < n && 0 <= c < n && Before(r, c, row, col) ==> cells[r][c] != 0
        {
          if board[row, col] == 0 {
            return Some(Square(row, col));
          }
        }
      }
      return None;
    }

    /** Whether `num` already stands somewhere in row `row`. */
    method UsedInRow(row: int, num: int) returns (used: bool)
      requires Valid() && 0 <= row < n
      ensures used <==> RowHas(cells, n, row, num)
    {
      for col := 0 to n
        invariant forall c :: 0 <= c < col ==> cells[row][c] != num
      {
        if board[row, col] == num {
          return true;
        }
      }
      return false;
    }

    /** Whether `num` already stands somewhere in column `col`. */
    method UsedInCol(col: int, num: int) returns (used: bool)
      requires Valid() && 0 <= col < n
      ensures used <==> ColHas(cells, n, col, num)
    {
      for row := 0 to n
        invariant forall r :: 0 <= r < row ==> cells[r][col] != num
      {
        if board[row, col] == num {
          return true;
        }
      }
      return false;
    }

    /** The "x" check: the product of the squares' values, once none is empty. */
    method CheckMult(squares: seq<Square>, res: int) returns (v: Verdict)
      requires Valid() && AllInGrid(squares, n)
      ensures v == MulVerdict(Values(cells, n, squares), res)
    {
      ghost var vs := Values(cells, n, squares);
      var prod := 1;
      for i := 0 to |squares|
        invariant 0 !in vs[..i]
        invariant prod == Product(vs[..i])
      {
        var value := board[squares[i].row, squares[i].col];
        if value == 0 {
          assert vs[i] == 0;
          return Unfilled;
        }
        assert vs[..i + 1][..i] == vs[..i];
        prod := prod * value;
      }
      assert vs[..|squares|] == vs;
      v := if prod == res then Satisfied else Violated;
    }

    /** The "/" check on the first two squares, in either order. */
    method CheckDiv(squares: seq<Square>, res: int) returns (v: Verdict)
      requires Valid() && AllInGrid(squares, n) && |squares| >= 2
      ensures v == DivVerdict(At(cells, n, squares[0]), At(cells, n, squares[1]), res)
    {
      var val1 := board[squares[0].row, squares[0].col];
      var val2 := board[squares[1].row, squares[1].col];
      if val1 == 0 || val2 == 0 {
        return Unfilled;
      }
      v := if val1 == res * val2 || val2 == res * val1 then Satisfied else Violated;
    }

    /** The "+" check: the sum of the squares' values, once none is empty. */
    method CheckAdd(squares: seq<Square>, res: int) returns (v: Verdict)
      requires Valid() && AllInGrid(squares, n)
      ensures v == AddVerdict(Values(cells, n, squares), res)
    {
      ghost var vs := Values(cells, n, squares);
      var sum := 0;
      for i := 0 to |squares|
        invariant 0 !in vs[..i]
        invariant sum == Sum(vs[..i])
      {
        var value := board[squares[i].row, squares[i].col];
        if value == 0 {
          assert vs[i] == 0;
          return Unfilled;
        }
        assert vs[..i + 1][..i] == vs[..i];
        sum := sum + value;
      }
      assert vs[..|squares|] == vs;
      v := if sum == res then Satisfied else Violated;
    }

    /** The "-" check on the first two squares: their absolute difference. */
    method CheckSub(squares: seq<Square>, res: int) returns (v: Verdict)
      requires Valid() && AllInGrid(squares, n) && |squares| >= 2
      ensures v == SubVerdict(At(cells, n, squares[0]), At(cells, n, squares[1]), res)
    {
      var val1 := board[squares[0].row, squares[0].col];
      var val2 := board[squares[1].row, squares[1].col];
      if val1 == 0 || val2 == 0 {
        return Unfilled;
      }
      v := if Abs(val1 - val2) == res then Satisfied else Violated;
    }

    /** Writes `v` into the board at (row, col). */
    method Assign(row: int, col: int, v: int)
      requires Valid() && 0 <= row < n && 0 <= col < n
      modifies this, board
      ensures Valid() && cells == Place(old(cells), n, row, col, v)
    {
      board[row, col] := v;
      cells := Place(cells, n, row, col, v);
    }

    /**
      Whether the cage owning (row, col) accepts `num` there: the value is
      written into the board, the cage is checked, and the old value is put
      back.
     */
    method SafeInCage(row: int, col: int, num: int) returns (safe: bool)
      requires Valid() && 0 <= row < n && 0 <= col < n
      modifies this, board
      ensures Valid() && cells == old(cells)
      ensures safe <==> CageAllows(rules, cells, n, row, col, num)
    {
      ghost var sq := Square(row, col);
      var owner: Option<nat> := None;
      for i := 0 to |rules|
        invariant owner == LastOwner(rules[..i], sq)
      {
        assert rules[..i + 1][..i] == rules[..i];
        for j := 0 to |rules[i].squares|
          invariant owner == if sq in rules[i].squares[..j] then Some(i) else LastOwner(rules[..i], sq)
        {
          assert rules[i].squares[..j + 1] == rules[i].squares[..j] + [rules[i].squares[j]];
          if rules[i].squares[j].row == row && rules[i].squares[j].col == col {
            owner := Some(i);
          }
        }
        assert rules[i].squares[..|rules[i].squares|] == rules[i].squares;
      }
      assert rules[..|rules|] == rules;
      assert Covered(rules, sq);
      var cageRule := rules[owner.value];

      ghost var before := cells;
      var prevBoardVal := board[row, col];
      Assign(row, col, num);

      var checkResult: Verdict;
      match cageRule.op {
        case Add => checkResult := CheckAdd(cageRule.squares, cageRule.res);
        case Sub => checkResult := CheckSub(cageRule.squares, cageRule.res);
        case Mul => checkResult := CheckMult(cageRule.squares, cageRule.res);
        case Div => checkResult := CheckDiv(cageRule.squares, cageRule.res);
        case Other => checkResult := Unfilled;
      }

      Assign(row, col, prevBoardVal);
      KenKenProofs.PlaceRestores(before, n, row, col, num);

      safe := checkResult == Satisfied || checkResult == Unfilled;
    }

    /** Whether `num` may go at (row, col): new to its row, new to its column, accepted by its cage. */
    method IsLocationSafe(row: int, col: int, num: int) returns (safe: bool)
      requires Valid() && 0 <= row < n && 0 <= col < n
      modifies this, board
      ensures Valid() && cells == old(cells)
      ensures safe <==> !RowHas(cells, n, row, num) && !ColHas(cells, n, col, num) &&
                        CageAllows(rules, cells, n, row, col, num)
    {
      var inRow := UsedInRow(row, num);
      if inRow {
        return false;
      }
      var inCol := UsedInCol(col, num);
      if inCol {
        return false;
      }
      safe := SafeInCage(row, col, num);
    }

    /**
      Depth-first search: fill the first empty cell with the first value in
      1..n that is safe there and recurse; undo the value when the search
      below it fails.
     */
    method Solve() returns (solved: bool)
      requires Valid()
      modifies this, board
      ensures Valid()
      ensures solved ==> SearchSucceeded(rules, old(cells), cells, n)
      ensures solved && NoRepeats(old(cells), n) ==> NoRepeats(cells, n)
      ensures !solved ==> cells == old(cells) && NoSolutionExtends(rules, old(cells), n)
      decreases Zeros(cells)
    {
      var first := FindEmptyLocation();
      if first.None? {
        KenKenProofs.SearchSucceedsOnFull(rules, cells, n);
        return true;
      }
      var loc := FindEmptyLocation();
      var row, col := loc.value.row, loc.value.col;
      ghost var start := cells;

      var num := 1;
      while num <= n
        invariant 1 <= num <= n + 1
        invariant Valid() && cells == start
        invariant SolutionsAtLeast(rules, start, n, row, col, num)
      {
        var ok := IsLocationSafe(row, col, num);
        if ok {
          Assign(row, col, num);
          KenKenProofs.PlaceFillsOneCell(start, n, row, col, num);
          if NoRepeats(start, n) {
            KenKenProofs.PlaceKeepsNoRepeats(start, n, row, col, num);
          }

          var sub := Solve();
          if sub {
            KenKenProofs.SearchSucceedsAfterChoice(rules, start, cells, n, row, col, num);
            return true;
          }

          Assign(row, col, 0);
          KenKenProofs.PlaceRestores(start, n, row, col, num);
        }
        KenKenProofs.RejectedCandidate(rules, start, n, row, col, num);
        num := num + 1;
      }
      KenKenProofs.NoCandidateLeft(rules, start, n, row, col);
      return false;
    }
  }

  /** The two-by-two puzzle with one "+" cage of target 3 per row. */
  function TwoByTwoCages(): seq<Cage>
  {
    [Cage([Square(0, 0), Square(0, 1)], Add, 3), Cage([Square(1, 0), Square(1, 1)], Add, 3)]
  }

  /** The two-by-two table fits the board and lists every cell. */
  lemma TwoByTwoIsWellFormed()
    ensures WellFormed(TwoByTwoCages(), 2)
  {
    var cages := TwoByTwoCages();
    forall r, c | 0 <= r < 2 && 0 <= c < 2
      ensures Covered(cages, Square(r, c))
    {
      assert Square(r, c) == cages[r].squares[c];
    }
  }

  /** The two-by-two table lists no cell twice, and its empty board breaks no rule. */
  lemma TwoByTwoIsPartitioned()
    requires WellFormed(TwoByTwoCages(), 2)
    ensures Partitioned(TwoByTwoCages())
    ensures Consistent(TwoByTwoCages(), EmptyGrid(2), 2)
  {
    var cages := TwoByTwoCages();
    forall i, j, k | 0 <= i < 2 && 0 <= j < 2 && i != j && 0 <= k < |cages[i].squares|
      ensures cages[i].squares[k] !in cages[j].squares
    {
      assert cages[i].squares[k].row == i;
    }
    KenKenProofs.EmptyGridConsistent(cages, 2);
  }

  /** On [[1, 2], [2, 1]] both "+" cages of the two-by-two puzzle add up to 3. */
  lemma TwoByTwoCagesHold()
    requires WellFormed(TwoByTwoCages(), 2)
    ensures CageVerdict([[1, 2], [2, 1]], 2, TwoByTwoCages()[0]) == Satisfied
    ensures CageVerdict([[1, 2], [2, 1]], 2, TwoByTwoCages()[1]) == Satisfied
  {
    var cages := TwoByTwoCages();
    var expected: Grid := [[1, 2], [2, 1]];
    assert Values(expected, 2, cages[0].squares) == [1, 2];
    assert Values(expected, 2, cages[1].squares) == [2, 1];
    assert Sum([1]) == 1 && Sum([2]) == 2;
    assert [1, 2][..1] == [1] && [2, 1][..1] == [2];
  }

  /** The two-by-two puzzle has [[1, 2], [2, 1]] as a solution. */
  lemma TwoByTwoSolution()
    requires WellFormed(TwoByTwoCages(), 2)
    ensures IsSolution(TwoByTwoCages(), [[1, 2], [2, 1]], 2)
  {
    TwoByTwoCagesHold();
    TwoByTwoNoRepeats();
  }

  /** [[1, 2], [2, 1]] repeats no value in a row or a column. */
  lemma TwoByTwoNoRepeats()
    ensures NoRepeats([[1, 2], [2, 1]], 2)
  {
    var expected: Grid := [[1, 2], [2, 1]];
    assert RowDistinct(expected, 2, 0) && RowDistinct(expected, 2, 1);
    assert ColDistinct(expected, 2, 0) && ColDistinct(expected, 2, 1);
  }

  /** Every solution of the two-by-two puzzle that comes no later in search order than [[1, 2], [2, 1]] is that one. */
  lemma TwoByTwoFirstSolution(g: Grid)
    requires WellFormed(TwoByTwoCages(), 2)
    requires IsSolution(TwoByTwoCages(), g, 2) && LexLeq(g, [[1, 2], [2, 1]], 2)
    ensures g == [[1, 2], [2, 1]]
  {
    var expected: Grid := [[1, 2], [2, 1]];
    assert 1 <= g[0][0] <= 2 && 1 <= g[0][1] <= 2 && 1 <= g[1][0] <= 2 && 1 <= g[1][1] <= 2;
    assert RowDistinct(g, 2, 0) && ColDistinct(g, 2, 0) && ColDistinct(g, 2, 1);
    assert g[0] == [1, 2] && g[1] == [2, 1];
  }

  /**
    The search on the two-by-two puzzle succeeds and, trying values in
    ascending order, finds [[1, 2], [2, 1]] rather than [[2, 1], [1, 2]].
   */
  method SolveTwoByTwo() returns (solved: bool, top: seq<int>, bottom: seq<int>)
    ensures solved && top == [1, 2] && bottom == [2, 1]
  {
    TwoByTwoIsWellFormed();
    TwoByTwoIsPartitioned();
    var solver := new Solver(2, TwoByTwoCages());
    TwoByTwoSolution();
    assert Extends(EmptyGrid(2), [[1, 2], [2, 1]], 2);
    solved := solver.Solve();
    TwoByTwoFirstSolution(solver.cells);
    top := [solver.board[0, 0], solver.board[0, 1]];
    bottom := [solver.board[1, 0], solver.board[1, 1]];
  }
}
