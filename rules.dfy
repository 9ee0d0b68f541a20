/**
  The rules of a KenKen puzzle, stated on grid values.

  A grid is an n-by-n matrix of integers in which 0 marks an empty cell.
  A cage is a list of squares with an operator and a target result.
  Everything here is pure: the solver in KenKenSolver keeps a ghost copy
  of its board as a `Grid` and states its contracts with these definitions.
 */
module KenKenRules {

  datatype Option<T> = None | Some(value: T)

  /** A (row, column) coordinate, 0-indexed. */
  datatype Square = Square(row: int, col: int)

  /** The cage operators "+", "-", "x" and "/"; any other symbol is `Other`. */
  datatype Op = Add | Sub | Mul | Div | Other

  datatype Cage = Cage(squares: seq<Square>, op: Op, res: int)

  /**
    The three answers of a cage check, for the 1 (target met), 0 (target
    missed) and -1 (a square still empty) that checkAdd, checkSub,
    checkMult and checkDiv return.
   */
  datatype Verdict = Satisfied | Violated | Unfilled

  type Grid = seq<seq<int>>

  predicate IsGrid(g: Grid, n: nat)
  {
    |g| == n && forall r :: 0 <= r < n ==> |g[r]| == n
  }

  predicate InGrid(sq: Square, n: nat)
  {
    0 <= sq.row < n && 0 <= sq.col < n
  }

  predicate AllInGrid(squares: seq<Square>, n: nat)
  {
    forall i :: 0 <= i < |squares| ==> InGrid(squares[i], n)
  }

  function At(g: Grid, n: nat, sq: Square): int
    requires IsGrid(g, n) && InGrid(sq, n)
  {
    g[sq.row][sq.col]
  }

  /** The values held by the given squares, in the order they are listed. */
  function Values(g: Grid, n: nat, squares: seq<Square>): (vs: seq<int>)
    requires IsGrid(g, n) && AllInGrid(squares, n)
    ensures |vs| == |squares|
  {
    seq(|squares|, i requires 0 <= i < |squares| => At(g, n, squares[i]))
  }

  /** The starting board: every cell empty. */
  function EmptyGrid(n: nat): (g: Grid)
    ensures IsGrid(g, n)
  {
    seq(n, r => seq(n, c => 0))
  }

  /** The grid with one cell overwritten. */
  function Place(g: Grid, n: nat, row: int, col: int, v: int): (h: Grid)
    requires IsGrid(g, n) && 0 <= row < n && 0 <= col < n
    ensures IsGrid(h, n)
  {
    g[row := g[row][col := v]]
  }

  // ---------------------------------------------------------------------
  // Cage arithmetic

  function Sum(vs: seq<int>): int
  {
    if vs == [] then 0 else Sum(vs[..|vs| - 1]) + vs[|vs| - 1]
  }

  function Product(vs: seq<int>): int
  {
    if vs == [] then 1 else Product(vs[..|vs| - 1]) * vs[|vs| - 1]
  }

  function Abs(x: int): nat
  {
    if x < 0 then -x else x
  }

  /** "+" cage: undecided while a square is empty, else the sum must be `res`. */
  function AddVerdict(vs: seq<int>, res: int): Verdict
  {
    if 0 in vs then Unfilled
    else if Sum(vs) == res then Satisfied
    else Violated
  }

  /** "x" cage: undecided while a square is empty, else the product must be `res`. */
  function MulVerdict(vs: seq<int>, res: int): Verdict
  {
    if 0 in vs then Unfilled
    else if Product(vs) == res then Satisfied
    else Violated
  }

  /** "-" cage on its first two values: the absolute difference must be `res`. */
  function SubVerdict(a: int, b: int, res: int): Verdict
  {
    if a == 0 || b == 0 then Unfilled
    else if Abs(a - b) == res then Satisfied
    else Violated
  }

  /**
    "/" cage on its first two values: either value divided by the other must
    be `res`. For non-zero integers `a / b == res` as a rational number is
    exactly `a == res * b`.
   */
  function DivVerdict(a: int, b: int, res: int): Verdict
  {
    if a == 0 || b == 0 then Unfilled
    else if a == res * b || b == res * a then Satisfied
    else Violated
  }

  /** A cage the checks can evaluate: its squares lie on the board and a "-" or "/" cage has two of them. */
  predicate CageFits(cage: Cage, n: nat)
  {
    AllInGrid(cage.squares, n) &&
    ((cage.op == Sub || cage.op == Div) ==> |cage.squares| >= 2)
  }

  /** The verdict of a cage on a grid; an unknown operator never objects. */
  function CageVerdict(g: Grid, n: nat, cage: Cage): Verdict
    requires IsGrid(g, n) && CageFits(cage, n)
  {
    match cage.op
    case Add => AddVerdict(Values(g, n, cage.squares), cage.res)
    case Mul => MulVerdict(Values(g, n, cage.squares), cage.res)
    case Sub => SubVerdict(At(g, n, cage.squares[0]), At(g, n, cage.squares[1]), cage.res)
    case Div => DivVerdict(At(g, n, cage.squares[0]), At(g, n, cage.squares[1]), cage.res)
    case Other => Unfilled
  }

  // ---------------------------------------------------------------------
  // Cage lookup

  predicate Covered(cages: seq<Cage>, sq: Square)
  {
    exists k :: 0 <= k < |cages| && sq in cages[k].squares
  }

  /**
    The index of the LAST cage that lists `sq`, or None when no cage does:
    the lookup scans every cage and overwrites its answer on each match.
   */
  function LastOwner(cages: seq<Cage>, sq: Square): (k: Option<nat>)
    ensures k.Some? ==> k.value < |cages| && sq in cages[k.value].squares
    ensures k.Some? ==> forall j :: k.value < j < |cages| ==> sq !in cages[j].squares
    ensures k.None? <==> !Covered(cages, sq)
  {
    if cages == [] then None
    else if sq in cages[|cages| - 1].squares then Some(|cages| - 1)
    else LastOwner(cages[..|cages| - 1], sq)
  }

  /** What the solver assumes of its cage table. */
  predicate WellFormed(cages: seq<Cage>, n: nat)
  {
    (forall k :: 0 <= k < |cages| ==> CageFits(cages[k], n)) &&
    (forall r, c :: 0 <= r < n && 0 <= c < n ==> Covered(cages, Square(r, c)))
  }

  /** No square is listed by two different cages. */
  predicate Partitioned(cages: seq<Cage>)
  {
    forall i, j, s :: 0 <= i < |cages| && 0 <= j < |cages| && i != j && 0 <= s < |cages[i].squares| ==>
      cages[i].squares[s] !in cages[j].squares
  }

  /**
    Whether the cage that owns (row, col) raises no objection once `num` is
    written there: undecided counts as acceptable.
   */
  predicate CageAllows(cages: seq<Cage>, g: Grid, n: nat, row: int, col: int, num: int)
    requires IsGrid(g, n) && WellFormed(cages, n) && 0 <= row < n && 0 <= col < n
  {
    var k := LastOwner(cages, Square(row, col)).value;
    CageVerdict(Place(g, n, row, col, num), n, cages[k]) != Violated
  }

  // ---------------------------------------------------------------------
  // Rows, columns and whole grids

  predicate RowHas(g: Grid, n: nat, row: int, num: int)
    requires IsGrid(g, n) && 0 <= row < n
  {
    exists c :: 0 <= c < n && g[row][c] == num
  }

  predicate ColHas(g: Grid, n: nat, col: int, num: int)
    requires IsGrid(g, n) && 0 <= col < n
  {
    exists r :: 0 <= r < n && g[r][col] == num
  }

  /** Row-major order on cells: (r1, c1) is visited before (r2, c2). */
  predicate Before(r1: int, c1: int, r2: int, c2: int)
  {
    r1 < r2 || (r1 == r2 && c1 < c2)
  }

  predicate Full(g: Grid, n: nat)
    requires IsGrid(g, n)
  {
    forall r, c :: 0 <= r < n && 0 <= c < n ==> g[r][c] != 0
  }

  /** No non-zero value stands twice in row `r`. */
  predicate RowDistinct(g: Grid, n: nat, r: int)
    requires IsGrid(g, n) && 0 <= r < n
  {
    forall c1, c2 :: 0 <= c1 < n && 0 <= c2 < n && c1 != c2 && g[r][c1] != 0 ==> g[r][c1] != g[r][c2]
  }

  /** No non-zero value stands twice in column `c`. */
  predicate ColDistinct(g: Grid, n: nat, c: int)
    requires IsGrid(g, n) && 0 <= c < n
  {
    forall r1, r2 :: 0 <= r1 < n && 0 <= r2 < n && r1 != r2 && g[r1][c] != 0 ==> g[r1][c] != g[r2][c]
  }

  /** The Latin-square rule on the filled cells: no non-zero value twice in a row or a column. */
  predicate NoRepeats(g: Grid, n: nat)
    requires IsGrid(g, n)
  {
    forall i :: 0 <= i < n ==> RowDistinct(g, n, i) && ColDistinct(g, n, i)
  }

  predicate CagesConsistent(cages: seq<Cage>, g: Grid, n: nat)
    requires IsGrid(g, n) && WellFormed(cages, n)
  {
    forall k :: 0 <= k < |cages| ==> CageVerdict(g, n, cages[k]) != Violated
  }

  /** A partial assignment that breaks no rule yet. */
  predicate Consistent(cages: seq<Cage>, g: Grid, n: nat)
    requires WellFormed(cages, n)
  {
    IsGrid(g, n) &&
    (forall r, c :: 0 <= r < n && 0 <= c < n ==> 0 <= g[r][c] <= n) &&
    NoRepeats(g, n) &&
    CagesConsistent(cages, g, n)
  }

  /** A solved puzzle: a consistent grid without empty cells, so every cell holds 1..n. */
  predicate IsSolution(cages: seq<Cage>, g: Grid, n: nat)
    requires WellFormed(cages, n)
  {
    Consistent(cages, g, n) && Full(g, n)
  }

  /** `h` keeps every value that `g` has filled in. */
  predicate Extends(g: Grid, h: Grid, n: nat)
  {
    IsGrid(g, n) && IsGrid(h, n) &&
    forall r, c :: 0 <= r < n && 0 <= c < n && g[r][c] != 0 ==> h[r][c] == g[r][c]
  }

  /**
    `h` comes no later than `s` in the search order: the two are equal, or
    `h` is smaller at the first cell, in row-major order, where they differ.
   */
  predicate LexLeq(h: Grid, s: Grid, n: nat)
    requires IsGrid(h, n) && IsGrid(s, n)
  {
    h == s ||
    exists r, c :: 0 <= r < n && 0 <= c < n && h[r][c] < s[r][c] &&
      forall r', c' :: 0 <= r' < n && 0 <= c' < n && Before(r', c', r, c) ==> h[r'][c'] == s[r'][c']
  }

  /** No solution of the puzzle keeps the filled cells of `g`. */
  ghost predicate NoSolutionExtends(cages: seq<Cage>, g: Grid, n: nat)
    requires WellFormed(cages, n)
  {
    forall s :: IsSolution(cages, s, n) ==> !Extends(g, s, n)
  }

  /** Every solution that keeps the filled cells of `g` has at least `num` at (row, col). */
  ghost predicate SolutionsAtLeast(cages: seq<Cage>, g: Grid, n: nat, row: int, col: int, num: int)
    requires WellFormed(cages, n) && 0 <= row < n && 0 <= col < n
  {
    forall s :: IsSolution(cages, s, n) && Extends(g, s, n) ==> s[row][col] >= num
  }

  /**
    What a successful search from `g` leaves behind in `h`: a full grid
    that keeps every filled cell of `g`, puts 1..n in every cell `g` left
    empty, comes no later in search order than any solution extending `g`,
    and is itself a solution when `g` broke no rule and no square belongs
    to two cages.
   */
  ghost predicate SearchSucceeded(cages: seq<Cage>, g: Grid, h: Grid, n: nat)
    requires WellFormed(cages, n)
  {
    IsGrid(g, n) && Extends(g, h, n) && Full(h, n) &&
    (forall r, c :: 0 <= r < n && 0 <= c < n && g[r][c] == 0 ==> 1 <= h[r][c] <= n) &&
    (forall s :: IsSolution(cages, s, n) && Extends(g, s, n) ==> LexLeq(h, s, n)) &&
    (Partitioned(cages) && Consistent(cages, g, n) ==> IsSolution(cages, h, n))
  }

  /** The number of empty cells in a row. */
  function RowZeros(s: seq<int>): nat
  {
    if s == [] then 0 else RowZeros(s[..|s| - 1]) + (if s[|s| - 1] == 0 then 1 else 0)
  }

  /** The number of empty cells in a grid. */
  function Zeros(g: Grid): nat
  {
    if g == [] then 0 else Zeros(g[..|g| - 1]) + RowZeros(g[|g| - 1])
  }
}
