# Sudoku solver (ivanyu/java-sudoku-solver), modelled in Dafny

This project models a small backtracking Sudoku solver and proves what it computes.

- A `Field` is a 9x9 grid of values 0..9, where 0 marks an empty cell.
- The solver records every empty cell together with its *variants*: the digits not yet seen in the cell's row, column or local 3x3 square.
- It sorts these records so that the most constrained cell comes first.
- It then searches recursively. At each step it:
  - places each variant of the head record in turn;
  - removes that value from the remaining records in contact with the head cell;
  - re-sorts the records and recurses.
- It returns the first complete field it reaches, or nothing.

The modules follow the program's classes:

| module | file | models |
|---|---|---|
| `Fields` | field.dfy | `Field` and its accessors. The row, column and square collectors are loops, proved against the functions `RowValues`, `ColValues` and `LocalSquareValues`. |
| `Lists` | lists.dfy | The `java.util.List` operations the code relies on: `remove(Object)` and `removeAll`. |
| `EmptyCells` | empty_cell.dfy | The `EmptyCell` record and `removeVariantIfExists`. |
| `VariantCountComparator` | comparator.dfy | The comparator, and `Collections.sort` with it. |
| `Rules` | rules.dfy | What a complete, consistent and solved field is, and the tests' sum check. |
| `Solver` | solver.dfy | `collectInitialEmptyCells`, `solveRec` (with its propagation loop) and `solve`. |

The search is proved correct against one frame invariant, `Solver.Tracks`. It says that the records sit exactly on the empty cells of the frame's field, one record per cell. It also says that each record's variants are exactly the digits that no cell in contact holds, without duplicates. From this invariant the model proves three things:

- **Soundness.** A result is complete and keeps every clue. When the clues do not conflict, the result is a solution and passes the tests' sum check.
- **Completeness.** No result means that no solution keeps the clues.
- **First success.** Every variant tried before the chosen one admits no solution once placed. When the clues do not conflict, the chosen variant's placement does admit one, so it is the first variant that can be completed.

## Model

| member | source | states |
|---|---|---|
| Fields.PossibleValuesAreTheRange | src/main/java/me/ivanyu/sudoku/Field.java:20-22 | A value is in POSSIBLE_VALUES exactly when it lies in 0..9, which is the test checkValue applies. |
| Fields.NewField | src/main/java/me/ivanyu/sudoku/Field.java:26-36 | The constructor accepts only 9 rows of 9 admissible values. The field reads back exactly those entries. |
| Fields.GetValue | src/main/java/me/ivanyu/sudoku/Field.java:44-49 | Reading a cell needs in-range indices and always yields an admissible value. |
| Fields.SetValue | src/main/java/me/ivanyu/sudoku/Field.java:58-72 | Needs a non-empty admissible value. The written cell reads back that value and every other cell is unchanged. When the cell already holds the value, the field itself is returned. |
| Fields.SetValueOverwrites | src/main/java/me/ivanyu/sudoku/Field.java:58-72 | Writing a cell twice is the same as writing only the second value. |
| Fields.SetValueCommutes | src/main/java/me/ivanyu/sudoku/Field.java:58-72 | Writes to two different cells commute. |
| Fields.GetRowValues | src/main/java/me/ivanyu/sudoku/Field.java:79-87 | The loop returns the 9 values of the row; element i is cell (row, i). |
| Fields.GetColValues | src/main/java/me/ivanyu/sudoku/Field.java:94-102 | The loop returns the 9 values of the column; element i is cell (i, col). |
| Fields.GetLocalSquareValues | src/main/java/me/ivanyu/sudoku/Field.java:110-125 | The nested loops return the 9 cells of the square starting at (3*(row/3), 3*(col/3)), in row-major order. |
| Fields.LocalSquareValuesShared | src/main/java/me/ivanyu/sudoku/Field.java:110-125 | Any two cells of one local square yield the same square values. |
| Fields.CellsInContact | src/main/java/me/ivanyu/sudoku/Field.java:130-145 | True exactly when the two cells share a row, a column or a local square; needs in-range indices. |
| Fields.ContactIsSymmetric | src/main/java/me/ivanyu/sudoku/Field.java:130-145 | Contact does not depend on the order of the two cells. |
| Fields.ContactIsReflexive | src/main/java/me/ivanyu/sudoku/Field.java:130-145 | Every cell is in contact with itself. |
| Fields.ValueInContactIffListed | src/main/java/me/ivanyu/sudoku/Field.java:79-145 | A value occurs in the row, column or square lists of a cell exactly when some cell in contact with it holds the value, in both directions. |
| Fields.ValueInContactAfterSet | src/main/java/me/ivanyu/sudoku/Field.java:58-72 | Writing v into an empty cell makes v visible from exactly the cells in contact with it. No other non-empty value becomes or stops being visible from any cell. |
| Lists.RemoveFirst | src/main/java/me/ivanyu/sudoku/EmptyCell.java:32-33 | remove(Object) deletes the first occurrence of v and keeps the order of the rest; without v the list comes back unchanged. |
| Lists.RemoveFirstWithoutDuplicates | src/main/java/me/ivanyu/sudoku/EmptyCell.java:30-34 | On a list without duplicates, removal takes away v and nothing else, and leaves no duplicates. |
| Lists.RemoveAll | src/main/java/me/ivanyu/sudoku/SudokuSolver.java:90-93 | removeAll keeps exactly the elements absent from the argument list. An ascending list stays ascending. |
| EmptyCells.EmptyCell.RemoveVariantIfExists | src/main/java/me/ivanyu/sudoku/EmptyCell.java:30-38 | Keeps row and column and keeps the constructor's value check. The same record comes back without the variant. With the variant, exactly its first occurrence is deleted and the rest keep their order. |
| EmptyCells.RemoveVariantWithoutDuplicates | src/main/java/me/ivanyu/sudoku/EmptyCell.java:30-38 | With distinct variants, the removed variant no longer occurs and every other variant stays. |
| EmptyCells.RemoveVariantIdempotent | src/main/java/me/ivanyu/sudoku/EmptyCell.java:30-38 | With distinct variants, removing the same variant twice equals removing it once. |
| VariantCountComparator.Compare | src/main/java/me/ivanyu/sudoku/EmptyCellVariantCountComparator.java:16-18 | Negative, zero or positive exactly when the first record has fewer, as many or more variants. |
| VariantCountComparator.CompareAntisymmetric | src/main/java/me/ivanyu/sudoku/EmptyCellVariantCountComparator.java:16-18 | Swapping the arguments negates the result. |
| VariantCountComparator.CompareReflexive | src/main/java/me/ivanyu/sudoku/EmptyCellVariantCountComparator.java:16-18 | A record compares equal to itself. |
| VariantCountComparator.CompareTransitive | src/main/java/me/ivanyu/sudoku/EmptyCellVariantCountComparator.java:16-18 | The order is transitive, so it is a total preorder by variant count. |
| VariantCountComparator.Insert | src/main/java/me/ivanyu/sudoku/SudokuSolver.java:67 | Inserting into a sorted list keeps it sorted and adds exactly the new element. |
| VariantCountComparator.SortByVariantCount | src/main/java/me/ivanyu/sudoku/SudokuSolver.java:26 | The sort yields a permutation of its input with non-decreasing variant counts. |
| Rules.Sum | src/test/java/me/ivanyu/sudoku/SudokuSolverTest.java:109-114 | The sum of a list's elements, as the test's sum adds them. |
| Rules.PassesSumCheck | src/test/java/me/ivanyu/sudoku/SudokuSolverTest.java:95-107 | checkSolution: every column, row and local square sums to the sum of POSSIBLE_VALUES. |
| Rules.SolutionGroupsHoldEachDigitOnce | src/test/java/me/ivanyu/sudoku/SudokuSolverTest.java:95-107 | In a solved field, every row, column and local square holds each digit 1..9 exactly once. |
| Rules.SolutionPassesSumCheck | src/test/java/me/ivanyu/sudoku/SudokuSolverTest.java:95-114 | Every solved field passes checkSolution: each column, row and square sums to the sum of POSSIBLE_VALUES, which is 45. |
| Rules.SumOfPermutation | src/test/java/me/ivanyu/sudoku/SudokuSolverTest.java:109-114 | Reordering a list does not change its sum. |
| Solver.InitialVariantsAreExact | src/main/java/me/ivanyu/sudoku/SudokuSolver.java:90-93 | For an empty cell, the collected variants are ascending. They are exactly the digits 1..9 that no cell in contact holds; EMPTY drops out. |
| Solver.CellsBeforeAreCollected | src/main/java/me/ivanyu/sudoku/SudokuSolver.java:85-97 | The records collected so far sit on empty cells and carry their collected variants. |
| Solver.CellsBeforeAreOrdered | src/main/java/me/ivanyu/sudoku/SudokuSolver.java:85-97 | The records collected so far lie before the loop position, in row-major order. |
| Solver.CellsBeforeCoverField | src/main/java/me/ivanyu/sudoku/SudokuSolver.java:85-97 | Every empty cell the loops have passed has a record. |
| Solver.CollectInitialEmptyCells | src/main/java/me/ivanyu/sudoku/SudokuSolver.java:82-100 | The nested loops build exactly the row-major list of records of the empty cells. |
| Solver.InitialCellsDescribeField | src/main/java/me/ivanyu/sudoku/SudokuSolver.java:82-100 | The collected list has one record per empty cell, in row-major order. Each record passes the constructor's check and holds exactly the allowed digits, ascending. |
| Solver.PermutationKeepsTracks | src/main/java/me/ivanyu/sudoku/SudokuSolver.java:26 | Sorting, or any reordering, keeps the frame invariant. |
| Solver.PropagateVariant | src/main/java/me/ivanyu/sudoku/SudokuSolver.java:57-66 | Each tail record in contact with the head loses the variant; every other record passes through unchanged, in order. |
| Solver.PropagateKeepsPlaces | src/main/java/me/ivanyu/sudoku/SudokuSolver.java:57-66 | Propagation keeps the number of records, so each level has one record fewer, and keeps each record on its cell. |
| Solver.PropagatedStaysExact | src/main/java/me/ivanyu/sudoku/SudokuSolver.java:54-65 | After placing the value, each propagated tail record still sits on an empty cell and holds exactly the digits allowed there. |
| Solver.RemovedVariantStaysExact | src/main/java/me/ivanyu/sudoku/SudokuSolver.java:61-62 | Removing the placed value from a record in contact with its cell keeps the record exact. |
| Solver.PlacementKeepsTracks | src/main/java/me/ivanyu/sudoku/SudokuSolver.java:53-66 | Placing a head variant and propagating it yields a next frame that again satisfies the invariant. |
| Solver.NextFrameTracks | src/main/java/me/ivanyu/sudoku/SudokuSolver.java:53-67 | Each head variant is a digit not in contact with the head. The sorted, propagated tail satisfies the invariant for the updated field. |
| Solver.HeadOfFrame | src/main/java/me/ivanyu/sudoku/SudokuSolver.java:43-53 | The head of a sorted frame has the fewest variants, and each of them is a digit no cell in contact holds. |
| Solver.PlacementKeepsConsistent | src/main/java/me/ivanyu/sudoku/SudokuSolver.java:54 | Placing a value the head allows keeps conflict-free clues conflict-free. |
| Solver.PlacementExtends | src/main/java/me/ivanyu/sudoku/SudokuSolver.java:54 | A field completing the field after a placement completes the field before it and holds the placed value. |
| Solver.FoundAfterPlacement | src/main/java/me/ivanyu/sudoku/SudokuSolver.java:69-72 | A result returned from the recursive call completes the current field and holds the placed value. When the current clues do not conflict, it is a solution, so the placement admits one. |
| Solver.SolutionUsesAVariant | src/main/java/me/ivanyu/sudoku/SudokuSolver.java:53-54 | Any solution completing the frame's field holds one of the head's variants at the head cell. |
| Solver.AllVariantsFailed | src/main/java/me/ivanyu/sudoku/SudokuSolver.java:49-76 | If no variant of the head can be completed (vacuously so when there are none), the frame's field has no solution. |
| Solver.SolveRec | src/main/java/me/ivanyu/sudoku/SudokuSolver.java:36-77 | With no records, returns the field unchanged; with a record without variants, returns nothing. A result is complete, keeps the frame's values and is a solution when they do not conflict. No result means no solution. Every head variant before the chosen value admits no solution once placed; when the frame's values do not conflict, the chosen value's placement admits one, so it is the first workable variant. |
| Solver.Solve | src/main/java/me/ivanyu/sudoku/SudokuSolver.java:24-28 | A result is complete and keeps the clues. With conflict-free clues it is a solution and passes checkSolution. No result means no solution. A complete field comes back as it is, conflicting or not. |

## Left out

- Java `assert` checks (checkDimension, checkValue, checkValueNotEmpty, the EmptyCell constructor check) are preconditions and predicates (`InRange`, `IsPossibleValue`, `EmptyCell.Valid`), not runtime failures.
- Physical aliasing is not modelled. `setValue` shares unchanged rows, and the constructor keeps the caller's array. A `Field` is a value (`seq<seq<int>>`), and `Fields.SetValue` is a function on it.
- `EmptyCell.removeVariantIfExists` copies the list and removes in place. The model computes the same list as a value (`Lists.RemoveFirst`).
- `Collections.unmodifiableList` and `subList` views are read-only wrappers. They are sequences here.
- The public static "constants" of `Field` are mutable in Java. They are fixed constants here.
- `SudokuSolver` is not a class here. Its only field is the initial field, which never changes, so `Solver.Solve` takes it as a parameter.
- The propagation loop of `solveRec` is a method of its own, `Solver.PropagateVariant`, which `Solver.SolveRec` calls.
- VariantCountComparator.SortByVariantCount: `Collections.sort` sorts a list in place and is a stable merge sort. The model is an insertion sort on sequences. It proves sortedness and permutation, not stability, and not the order among records with equal counts. Correctness of the search depends on neither.
- Java `int` overflow is not modelled. Every quantity is bounded by 81, and `compare` subtracts two sizes of at most 10.
- Null handling: `null` results are `Option.None`. A null initial field is excluded by the type.
- The JUnit harness and its concrete puzzles are not modelled. Only `checkSolution` is stated, as `Rules.PassesSumCheck`.
- Conflicting clues are returned unchecked when the field is complete, as the code does. Completeness is stated as "no result means no solution". A result for conflicting clues is only promised to be complete and to keep the clues.
