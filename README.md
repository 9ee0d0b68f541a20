# KenKen backtracking solver

A model of `kenken.js`, a KenKen solver. It fills a square board so that:

- every row and every column holds each value once;
- every cage (a group of squares with an operator `+`, `-`, `x` or `/` and a target result) evaluates to its target.

The solver keeps the board as a global two-dimensional array, with 0 marking an empty cell. Its search works like this:

- It finds the first empty cell in row-major order.
- It tries the values 1..n there in ascending order.
- Each value is checked for three things: it is new to the row, it is new to the column, and the cell's cage accepts it. The cage check writes the value into the board, evaluates the cage, and writes the old value back.
- If a value passes, the search writes it and recurses.
- If the recursion fails, it resets the cell to 0 and moves on to the next value.

The project has three modules:

- `KenKenRules` (rules.dfy) holds the rules on pure grid values (`seq<seq<int>>`):
  - what each cage check answers (`Satisfied`, `Violated` or `Unfilled`, for the source's 1, 0 and −1);
  - which cage owns a cell;
  - what a consistent grid, a solution, a grid extension and search order are.
- `KenKenProofs` (proofs.dfy) holds the lemmas about those rules.
- `KenKenSolver` (solver.dfy) holds the class `Solver`:
  - the board is an `array2<int>` that the methods write in place;
  - a ghost `cells` grid mirrors it, kept in step by `Valid()`;
  - each function of the source is a method with the same loops, branches and early returns;
  - a 2×2 puzzle is solved end to end.

The board size, fixed at 6 in the source, is a parameter `n`. The cage table is passed to the constructor instead of being a global constant.

What `Solve` is proved to do:

- It terminates: each recursive call has one empty cell fewer.
- On `false`:
  - the board is exactly as it was on entry;
  - no solution of the puzzle agrees with the entry board on its filled cells. In other words, the search is complete.
- On `true`:
  - the board is full;
  - it keeps every value that was filled on entry;
  - every newly filled cell holds a value in 1..n;
  - no solution that extends the entry board comes before it in search order (row-major, values ascending);
  - if the entry board repeats no value in a row or column, neither does the result, whatever the cages;
  - if the cages do not overlap and the entry board breaks no rule, the board is a solution: rows and columns are free of repeats, and every cage with a known operator is satisfied.

## Model

| member | source | states |
|---|---|---|
| KenKenSolver.Solver.constructor | kenken.js:1-2 | The board starts n-by-n with every cell 0 (empty), over the given cage table. |
| KenKenSolver.Solver.FindEmptyLocation | kenken.js:81-90 | Returns a cell only if it is empty and every cell before it in row-major order is filled. Returns none exactly when the board is full. |
| KenKenSolver.Solver.UsedInRow | kenken.js:94-99 | True exactly when some cell of the row holds `num`. |
| KenKenSolver.Solver.UsedInCol | kenken.js:103-108 | True exactly when some cell of the column holds `num`. |
| KenKenSolver.Solver.CheckMult | kenken.js:113-128 | Unfilled if any square is empty. Otherwise Satisfied exactly when the product of the squares' values equals the target, and Violated when it does not. |
| KenKenSolver.Solver.CheckDiv | kenken.js:131-146 | Uses only the first two squares. Unfilled if either is empty. Otherwise Satisfied exactly when one value is the target times the other. |
| KenKenSolver.Solver.CheckAdd | kenken.js:148-163 | Unfilled if any square is empty. Otherwise Satisfied exactly when the sum equals the target. |
| KenKenSolver.Solver.CheckSub | kenken.js:166-182 | Uses only the first two squares. Unfilled if either is empty. Otherwise Satisfied exactly when their absolute difference equals the target. |
| KenKenRules.LastOwner | kenken.js:187-192 | The cage lookup finds a cage listing the cell, with no later cage listing it (the last match wins). It finds nothing exactly when no cage lists the cell. |
| KenKenSolver.Solver.Assign | kenken.js:196 | Writing a value changes exactly that cell of the board and nothing else. |
| KenKenSolver.Solver.SafeInCage | kenken.js:185-220 | The board is unchanged afterwards. The answer is true exactly when the owning cage, checked with `num` at the cell, is not Violated. An unknown operator counts as not yet filled. |
| KenKenSolver.Solver.IsLocationSafe | kenken.js:224-226 | The board is unchanged. The answer is true exactly when `num` is absent from the row and from the column, and the cage accepts it. |
| KenKenSolver.Solver.Solve | kenken.js:228-251 | Terminates. On false, the board is restored and no solution extends the entry board. On true, the board is full and extends the entry board, new cells hold 1..n, and no solution extending the entry board comes before it in search order. If the entry board repeats no value in a row or column, neither does the result. Under non-overlapping cages with a consistent entry board, the result is a solution. |
| KenKenProofs.PlaceRestores | kenken.js:195-217 | Writing `num` and then writing the saved value back leaves the board as it was. |
| KenKenProofs.PlaceFillsOneCell | kenken.js:238 | A tentative assignment fills exactly one more cell and keeps all earlier values. This gives the measure that bounds the recursion. |
| KenKenProofs.RowZerosFill | kenken.js:238 | Filling an empty cell of a row lowers that row's count of empty cells by one. |
| KenKenProofs.ZerosFill | kenken.js:238 | Replacing a row by one with one fewer empty cell lowers the board's count of empty cells by one. |
| KenKenProofs.ExtendsTransitive | kenken.js:238-241 | Keeping the filled cells is transitive across nested assignments. |
| KenKenProofs.ExtendsPlace | kenken.js:235-238 | Assigning a solution's own value at a cell keeps the board below that solution. |
| KenKenProofs.VerdictSettled | kenken.js:113-182 | Once a cage check answers Satisfied or Violated, filling further cells never changes the answer. |
| KenKenProofs.VerdictIgnoresOtherCells | kenken.js:185-220 | A write to a cell a cage does not list leaves that cage's answer unchanged. |
| KenKenProofs.SolutionValueNewToLines | kenken.js:94-108 | A value a repeat-free grid holds at an empty cell of a board below it is absent from that cell's row and column on the board. |
| KenKenProofs.SolutionValueFitsCage | kenken.js:185-220 | The owning cage accepts, at a cell, the value any solution above the board has there. |
| KenKenProofs.SolutionValueIsSafe | kenken.js:224-226 | The value a solution above the board has at an empty cell passes all three safety checks. Pruning never discards a solution. |
| KenKenProofs.PlaceKeepsNoRepeats | kenken.js:236-238 | Placing a value that is new to its row and to its column keeps a repeat-free board repeat-free, whatever the cages. |
| KenKenProofs.PlaceKeepsConsistency | kenken.js:236-238 | Under non-overlapping cages, placing a safe value in 1..n keeps a consistent board consistent. Rows and columns stay repeat-free and no cage becomes Violated. |
| KenKenProofs.RejectedCandidate | kenken.js:235-246 | A value that fails the safety check, or whose subtree has no solution, is held by no solution at that cell. |
| KenKenProofs.NoCandidateLeft | kenken.js:235-249 | Once every value 1..n is ruled out at the cell, no solution extends the board, so returning false is correct. |
| KenKenProofs.FullGridHasOneExtension | kenken.js:231 | A full board is the only board that keeps all of its cells. |
| KenKenProofs.FirstChoiceIsLeast | kenken.js:235-241 | The first value that leads to success gives a board no later in search order than any solution above the entry board. |
| KenKenProofs.SearchSucceedsOnFull | kenken.js:231 | Returning true on a full board meets the success contract. |
| KenKenProofs.SearchSucceedsAfterChoice | kenken.js:236-241 | Success below a safe, first-surviving value is success for the whole search. |
| KenKenProofs.SubSymmetric | kenken.js:179-180 | The `-` check answers the same whichever of its two squares is listed first. |
| KenKenProofs.DivSymmetric | kenken.js:144 | The `/` check answers the same whichever square is listed first. For example, 6 and 2 satisfy target 3 in either order. |
| KenKenProofs.CageObjectsOnlyWhenFilled | kenken.js:113-219 | A cage rejects a value only when every one of its squares it reads is filled. |
| KenKenProofs.EmptyGridConsistent | kenken.js:2 | The all-zero starting board breaks no rule when no cage is empty. |
| KenKenProofs.SolutionSatisfiesCages | kenken.js:199-214 | In a solution, every cage with a known operator evaluates to Satisfied, not merely not-Violated. |
| KenKenProofs.Range | kenken.js:235 | The set of candidate values lo..hi−1, with its exact size. |
| KenKenProofs.DistinctFillsRange | kenken.js:235 | n distinct values drawn from 1..n include every value of 1..n. |
| KenKenProofs.SolutionLinesArePermutations | kenken.js:94-108 | Every row and every column of a solution holds each value of 1..n. |
| KenKenSolver.TwoByTwoIsWellFormed | kenken.js:11-77 | A two-by-two table of two `+` cages fits the board and covers every cell. |
| KenKenSolver.TwoByTwoIsPartitioned | kenken.js:11-77 | That table lists no cell twice, and its all-empty board breaks no rule. |
| KenKenSolver.TwoByTwoCagesHold | kenken.js:148-163 | On [[1, 2], [2, 1]], both `+` cages evaluate to Satisfied. |
| KenKenSolver.TwoByTwoNoRepeats | kenken.js:94-108 | [[1, 2], [2, 1]] repeats no value in any row or column. |
| KenKenSolver.TwoByTwoSolution | kenken.js:228-251 | [[1, 2], [2, 1]] solves the two-by-two puzzle. |
| KenKenSolver.TwoByTwoFirstSolution | kenken.js:228-251 | No other solution of the two-by-two puzzle comes before [[1, 2], [2, 1]] in search order. |
| KenKenSolver.SolveTwoByTwo | kenken.js:228-251 | The search on the two-by-two puzzle succeeds and leaves [[1, 2], [2, 1]] on the board. |

## Left out

- The `console.table` calls and the top-level call of `solveKenKen` (kenken.js:253-255) are output and driver code. They are not modelled.
- The 6×6 cage table itself (kenken.js:11-77) is not restated. The solver takes any table, and the board size is the parameter `n` instead of the constant 6. A 2×2 instance stands in as the worked example.
- JavaScript numbers are doubles; the model uses unbounded integers:
  - `checkDiv`'s floating-point quotients `val1 / val2 === res` are stated as `val1 == res * val2` (and the same for `val2 / val1`). The two agree for the small positive values the board holds.
  - products and sums are exact. The source's doubles lose precision only far beyond any KenKen target.
- KenKenSolver.Solver.SafeInCage: a cell that no cage lists makes the source dereference an undefined cage and throw. The model instead requires every cell to be covered by a cage, as part of `WellFormed`.
- KenKenSolver.Solver.CheckSub: a `-` or `/` cage with fewer than two squares makes the source read past the end of the list. The model requires such cages to have at least two squares. Squares beyond the second are ignored, as in the source.
- KenKenSolver.Solver.Solve: the claim that every cage is satisfied in the result is made only when the cages do not overlap and the entry board breaks no rule. The source checks only the last cage listing a cell, so overlapping cages can let a violation through. An entry board that is already full returns true at once, even if it breaks a rule. Row and column uniqueness needs neither condition, only a repeat-free entry board.
- Operators outside `+ - x /` are kept as `Other`, which checks as "not yet filled", as the switch's `default` branch does.
