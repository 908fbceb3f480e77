/** The rules of Sudoku over a field: when a field is complete, when its
    values agree with each other, when one field completes another, and the
    sum check the solver's tests apply to a solution. */
module Rules {
  import opened Fields
  import opened Lists

  /** No cell is empty. */
  ghost predicate Complete(f: Field) {
    forall r, c | InRange(r) && InRange(c) :: f[r][c] != Empty
  }

  /** No two different cells in contact hold the same non-empty value. */
  ghost predicate Consistent(f: Field) {
    forall r1, c1, r2, c2 {:trigger CellsInContact(r1, c1, r2, c2)} |
      && InRange(r1) && InRange(c1) && InRange(r2) && InRange(c2)
      && (r1 != r2 || c1 != c2)
      && CellsInContact(r1, c1, r2, c2)
      :: f[r1][c1] == Empty || f[r1][c1] != f[r2][c2]
  }

  /** A solved field. */
  ghost predicate IsSolution(f: Field) {
    Complete(f) && Consistent(f)
  }

  /** g keeps every non-empty cell of f. */
  ghost predicate Extends(g: Field, f: Field) {
    forall r, c | InRange(r) && InRange(c) && f[r][c] != Empty :: g[r][c] == f[r][c]
  }

  /** Some solved field keeps every non-empty cell of f. */
  ghost predicate Solvable(f: Field) {
    exists g: Field :: IsSolution(g) && Extends(g, f)
  }

  /** The digits 1..9 in ascending order. */
  const Digits: seq<int> := seq(9, i => i + 1)

  function Sum(s: seq<int>): int {
    if s == [] then 0 else s[0] + Sum(s[1..])
  }

  /** checkSolution of the tests: every column, row and local square sums to
      the sum of all possible values. */
  ghost predicate PassesSumCheck(f: Field) {
    var correctSum := Sum(PossibleValues);
    && (forall d | InRange(d) ::
          Sum(ColValues(f, d)) == correctSum && Sum(RowValues(f, d)) == correctSum)
    && (forall r, c | InRange(r) && InRange(c) :: Sum(LocalSquareValues(f, r, c)) == correctSum)
  }

  /** In a solved field every row, column and local square holds each of the
      digits 1..9 exactly once. */
  lemma SolutionGroupsHoldEachDigitOnce(f: Field)
    requires IsSolution(f)
    ensures forall d | InRange(d) ::
              && multiset(RowValues(f, d)) == multiset(Digits)
              && multiset(ColValues(f, d)) == multiset(Digits)
    ensures forall r, c | InRange(r) && InRange(c) ::
              multiset(LocalSquareValues(f, r, c)) == multiset(Digits)
  {
    forall d | InRange(d)
      ensures multiset(RowValues(f, d)) == multiset(Digits)
      ensures multiset(ColValues(f, d)) == multiset(Digits)
    {
      SolvedRow(f, d);
      SolvedColumn(f, d);
    }
    forall r, c | InRange(r) && InRange(c)
      ensures multiset(LocalSquareValues(f, r, c)) == multiset(Digits)
    {
      SolvedSquare(f, r, c);
    }
  }

  lemma SolvedRow(f: Field, d: int)
    requires IsSolution(f) && InRange(d)
    ensures multiset(RowValues(f, d)) == multiset(Digits)
  {
    var row := RowValues(f, d);
    forall i | 0 <= i < 9 ensures 1 <= row[i] <= 9 {
      SolvedCell(f, d, i);
    }
    forall i, j | 0 <= i < j < 9 ensures row[i] != row[j] {
      SolvedPair(f, d, i, d, j);
    }
    NineDistinctDigits(row);
  }

  lemma SolvedColumn(f: Field, d: int)
    requires IsSolution(f) && InRange(d)
    ensures multiset(ColValues(f, d)) == multiset(Digits)
  {
    var col := ColValues(f, d);
    forall i | 0 <= i < 9 ensures 1 <= col[i] <= 9 {
      SolvedCell(f, i, d);
    }
    forall i, j | 0 <= i < j < 9 ensures col[i] != col[j] {
      SolvedPair(f, i, d, j, d);
    }
    NineDistinctDigits(col);
  }

  lemma SolvedSquare(f: Field, r: int, c: int)
    requires IsSolution(f) && InRange(r) && InRange(c)
    ensures multiset(LocalSquareValues(f, r, c)) == multiset(Digits)
  {
    var square := LocalSquareValues(f, r, c);
    forall k | 0 <= k < 9 ensures 1 <= square[k] <= 9 {
      SolvedCell(f, SquareStart(r) + k / 3, SquareStart(c) + k % 3);
    }
    forall k, l | 0 <= k < l < 9 ensures square[k] != square[l] {
      SolvedSquarePair(f, r, c, k, l);
    }
    NineDistinctDigits(square);
  }

  lemma SolvedSquarePair(f: Field, r: int, c: int, k: int, l: int)
    requires IsSolution(f) && InRange(r) && InRange(c) && 0 <= k < l < 9
    ensures LocalSquareValues(f, r, c)[k] != LocalSquareValues(f, r, c)[l]
  {
    var r1, c1 := SquareStart(r) + k / 3, SquareStart(c) + k % 3;
    var r2, c2 := SquareStart(r) + l / 3, SquareStart(c) + l % 3;
    SquareCellsInContact(r, c, k, l, r1, c1, r2, c2);
    SolvedPair(f, r1, c1, r2, c2);
    assert LocalSquareValues(f, r, c)[k] == f[r1][c1];
    assert LocalSquareValues(f, r, c)[l] == f[r2][c2];
  }

  lemma SolvedCell(f: Field, r: int, c: int)
    requires IsSolution(f) && InRange(r) && InRange(c)
    ensures 1 <= f[r][c] <= 9
  {
  }

  lemma SolvedPair(f: Field, r1: int, c1: int, r2: int, c2: int)
    requires IsSolution(f)
    requires InRange(r1) && InRange(c1) && InRange(r2) && InRange(c2)
    requires (r1 != r2 || c1 != c2) && CellsInContact(r1, c1, r2, c2)
    ensures f[r1][c1] != f[r2][c2]
  {
  }

  /** Two different places of one local square are two different cells in contact. */
  lemma SquareCellsInContact(r: int, c: int, k: int, l: int, r1: int, c1: int, r2: int, c2: int)
    requires InRange(r) && InRange(c) && 0 <= k < l < 9
    requires r1 == SquareStart(r) + k / 3 && c1 == SquareStart(c) + k % 3
    requires r2 == SquareStart(r) + l / 3 && c2 == SquareStart(c) + l % 3
    ensures InRange(r1) && InRange(c1) && InRange(r2) && InRange(c2)
    ensures r1 != r2 || c1 != c2
    ensures CellsInContact(r1, c1, r2, c2)
  {
  }

  /** The test's check holds of every solved field: each group sums to 45. */
  lemma SolutionPassesSumCheck(f: Field)
    requires IsSolution(f)
    ensures PassesSumCheck(f)
  {
    SolutionGroupsHoldEachDigitOnce(f);
    SumOfPossibleValues();
    forall d | InRange(d)
      ensures Sum(ColValues(f, d)) == 45 && Sum(RowValues(f, d)) == 45
    {
      SumOfPermutation(ColValues(f, d), Digits);
      SumOfPermutation(RowValues(f, d), Digits);
    }
    forall r, c | InRange(r) && InRange(c) ensures Sum(LocalSquareValues(f, r, c)) == 45 {
      SumOfPermutation(LocalSquareValues(f, r, c), Digits);
    }
  }

  lemma SumOfPossibleValues()
    ensures Sum(Digits) == 45 && Sum(PossibleValues) == 45
  {
    assert Digits == [1, 2, 3, 4, 5, 6, 7, 8, 9];
    assert PossibleValues == Digits + [0];
    assert Sum([9]) == 9;
    assert Sum([8, 9]) == 17;
    assert Sum([7, 8, 9]) == 24;
    assert Sum([6, 7, 8, 9]) == 30;
    assert Sum([5, 6, 7, 8, 9]) == 35;
    assert Sum([4, 5, 6, 7, 8, 9]) == 39;
    assert Sum([3, 4, 5, 6, 7, 8, 9]) == 42;
    assert Sum([2, 3, 4, 5, 6, 7, 8, 9]) == 44;
    assert Sum([1, 2, 3, 4, 5, 6, 7, 8, 9]) == 45;
    SumConcat(Digits, [0]);
  }

  /** Nine distinct digits are the digits 1..9, each once. */
  lemma NineDistinctDigits(s: seq<int>)
    requires |s| == 9 && NoDuplicates(s)
    requires forall i | 0 <= i < 9 :: 1 <= s[i] <= 9
    ensures multiset(s) == multiset(Digits)
  {
    var present := set x | x in s;
    var digits := set x | x in Digits;
    DistinctCardinality(s);
    DistinctCardinality(Digits);
    assert present <= digits by {
      forall x | x in present ensures x in digits {
        var i :| 0 <= i < 9 && s[i] == x;
        assert Digits[x - 1] == x;
      }
    }
    assert present * digits == present;
    assert |digits - present| == 0;
    assert digits - present == {};
    forall x | x in digits ensures x in present {
      assert x !in digits - present;
    }
    forall x ensures multiset(s)[x] == multiset(Digits)[x] {
      assert x in s <==> x in present;
      assert x in Digits <==> x in digits;
      DistinctMultiplicity(s, x);
      DistinctMultiplicity(Digits, x);
    }
  }

  lemma {:induction false} DistinctCardinality(s: seq<int>)
    requires NoDuplicates(s)
    ensures |set x | x in s| == |s|
  {
    if s != [] {
      var t := s[1..];
      assert NoDuplicates(t);
      DistinctCardinality(t);
      assert (set x | x in s) == {s[0]} + (set x | x in t);
      assert s[0] !in (set x | x in t);
    }
  }

  lemma {:induction false} DistinctMultiplicity(s: seq<int>, x: int)
    requires NoDuplicates(s)
    ensures multiset(s)[x] == if x in s then 1 else 0
  {
    if s != [] {
      var t := s[1..];
      assert s == [s[0]] + t;
      assert NoDuplicates(t);
      DistinctMultiplicity(t, x);
      assert s[0] !in t;
    }
  }

  lemma {:induction false} SumOfPermutation(a: seq<int>, b: seq<int>)
    requires multiset(a) == multiset(b)
    ensures Sum(a) == Sum(b)
  {
    if a == [] {
      assert |b| == |multiset(b)| == 0;
    } else {
      var x := a[0];
      assert x in multiset(b);
      var k :| 0 <= k < |b| && b[k] == x;
      var rest := b[..k] + b[k + 1..];
      SumWithout(b, k);
      assert a == [x] + a[1..];
      assert b == b[..k] + [x] + b[k + 1..];
      calc {
        multiset(a[1..]);
        multiset(a) - multiset{x};
        multiset(b) - multiset{x};
        multiset(rest);
      }
      SumOfPermutation(a[1..], rest);
    }
  }

  lemma SumWithout(s: seq<int>, k: int)
    requires 0 <= k < |s|
    ensures Sum(s) == s[k] + Sum(s[..k] + s[k + 1..])
  {
    assert s == s[..k] + ([s[k]] + s[k + 1..]);
    SumConcat(s[..k], [s[k]] + s[k + 1..]);
    SumConcat(s[..k], s[k + 1..]);
    assert ([s[k]] + s[k + 1..])[1..] == s[k + 1..];
  }

  lemma {:induction false} SumConcat(a: seq<int>, b: seq<int>)
    ensures Sum(a + b) == Sum(a) + Sum(b)
  {
    if a != [] {
      assert (a + b)[1..] == a[1..] + b;
      SumConcat(a[1..], b);
    } else {
      assert a + b == b;
    }
  }
}
