/** The backtracking search of SudokuSolver: one record per empty cell, most
    constrained first; place a variant, propagate it to the records in
    contact, re-sort and recurse. */
module Solver {
  import opened Fields
  import opened Lists
  import opened EmptyCells
  import opened VariantCountComparator
  import opened Rules

  /** A solution, or none (Java's null). */
  datatype Option<T> = None | Some(value: T)

  // ---------------------------------------------------------------------
  // Initial records

  /** The variants collected for the empty cell (row, col): all possible
      values, minus those of its row, its column and its local square. */
  function InitialVariants(f: Field, row: int, col: int): seq<int>
    requires InRange(row) && InRange(col)
  {
    RemoveAll(RemoveAll(RemoveAll(PossibleValues, RowValues(f, row)), ColValues(f, col)),
              LocalSquareValues(f, row, col))
  }

  /** The record sits on an empty cell of f. */
  predicate OnEmptyCell(f: Field, e: EmptyCell) {
    InRange(e.row) && InRange(e.col) && f[e.row][e.col] == Empty
  }

  /** The record's variants are distinct and are exactly the digits that no
      cell in contact with the record's cell holds. */
  ghost predicate ExactVariants(f: Field, e: EmptyCell)
    requires InRange(e.row) && InRange(e.col)
  {
    && NoDuplicates(e.variants)
    && (forall i | 0 <= i < |e.variants| ::
          1 <= e.variants[i] <= 9 && !ValueInContact(f, e.row, e.col, e.variants[i]))
    && (forall w | 1 <= w <= 9 && !ValueInContact(f, e.row, e.col, w) :: w in e.variants)
  }

  /** For an empty cell, the collected variants are the digits absent from its
      row, column and local square, ascending and so without duplicates; the
      empty value drops out because the cell's own row holds it. */
  lemma InitialVariantsAreExact(f: Field, row: int, col: int)
    requires InRange(row) && InRange(col) && f[row][col] == Empty
    ensures StrictlyIncreasing(InitialVariants(f, row, col))
    ensures ExactVariants(f, EmptyCell(row, col, InitialVariants(f, row, col)))
  {
    var rows, cols, square := RowValues(f, row), ColValues(f, col), LocalSquareValues(f, row, col);
    assert rows[col] == Empty;
    assert PossibleValues[..9] == Digits;
    assert StrictlyIncreasing(Digits);
    var afterRow := RemoveAll(PossibleValues, rows);
    assert afterRow == RemoveAll(Digits, rows);
    var vs := RemoveAll(RemoveAll(afterRow, cols), square);
    assert StrictlyIncreasing(vs);
    forall w
      ensures w in vs <==> 1 <= w <= 9 && !ValueInContact(f, row, col, w)
    {
      PossibleValuesAreTheRange(w);
      ValueInContactIffListed(f, row, col, w);
    }
    forall i | 0 <= i < |vs| ensures 1 <= vs[i] <= 9 && !ValueInContact(f, row, col, vs[i]) {
      assert vs[i] in vs;
    }
  }

  /** Every record sits on an empty cell of f. */
  predicate OnEmptyCells(f: Field, cells: seq<EmptyCell>) {
    forall i {:trigger cells[i]} | 0 <= i < |cells| :: OnEmptyCell(f, cells[i])
  }

  predicate RowMajorBefore(a: EmptyCell, b: EmptyCell) {
    a.row < b.row || (a.row == b.row && a.col < b.col)
  }

  /** The record collected for the cell (row, col) when it is empty. */
  function Visit(f: Field, row: int, col: int): seq<EmptyCell>
    requires InRange(row) && InRange(col)
  {
    if f[row][col] == Empty then [EmptyCell(row, col, InitialVariants(f, row, col))] else []
  }

  /** A visit yields the record of the visited cell if it is empty, and nothing otherwise. */
  lemma VisitYieldsTheCell(f: Field, row: int, col: int)
    requires InRange(row) && InRange(col)
    ensures |Visit(f, row, col)| == (if f[row][col] == Empty then 1 else 0)
    ensures forall i | 0 <= i < |Visit(f, row, col)| ::
              Visit(f, row, col)[i] == EmptyCell(row, col, InitialVariants(f, row, col))
  {
  }

  /** The records of the empty cells that precede (row, col) in row-major
      order; (row, FieldSize) and (row + 1, 0) denote the same point. */
  function CellsBefore(f: Field, row: int, col: int): seq<EmptyCell>
    requires 0 <= row <= FieldSize && 0 <= col <= FieldSize && (row == FieldSize ==> col == 0)
    decreases row, col
  {
    if col > 0 then CellsBefore(f, row, col - 1) + Visit(f, row, col - 1)
    else if row > 0 then CellsBefore(f, row - 1, FieldSize)
    else []
  }

  /** The records before (row, col) sit on empty cells before it and carry
      their collected variants. */
  lemma {:induction false} CellsBeforeAreCollected(f: Field, row: int, col: int)
    requires 0 <= row <= 9 && 0 <= col <= 9 && (row == 9 ==> col == 0)
    ensures var cells := CellsBefore(f, row, col);
            && |cells| <= 9 * row + col
            && OnEmptyCells(f, cells)
            && (forall i | 0 <= i < |cells| ::
                  cells[i].variants == InitialVariants(f, cells[i].row, cells[i].col))
    decreases row, col
  {
    if col > 0 {
      CellsBeforeAreCollected(f, row, col - 1);
      AppendVisitKeepsCollected(f, CellsBefore(f, row, col - 1), row, col - 1);
    } else if row > 0 {
      CellsBeforeAreCollected(f, row - 1, 9);
    }
  }

  /** Appending the record of one cell keeps the records on empty cells with
      their collected variants. */
  lemma AppendVisitKeepsCollected(f: Field, prev: seq<EmptyCell>, row: int, col: int)
    requires InRange(row) && InRange(col)
    requires OnEmptyCells(f, prev)
    requires forall i | 0 <= i < |prev| :: prev[i].variants == InitialVariants(f, prev[i].row, prev[i].col)
    ensures var cells := prev + Visit(f, row, col);
            && |cells| <= |prev| + 1
            && OnEmptyCells(f, cells)
            && (forall i | 0 <= i < |cells| ::
                  cells[i].variants == InitialVariants(f, cells[i].row, cells[i].col))
  {
    var cells := prev + Visit(f, row, col);
    forall i | 0 <= i < |cells|
      ensures InRange(cells[i].row) && InRange(cells[i].col) && f[cells[i].row][cells[i].col] == Empty
      ensures cells[i].variants == InitialVariants(f, cells[i].row, cells[i].col)
    {
      if i < |prev| {
        assert cells[i] == prev[i];
      }
    }
  }

  /** The records lie on cells before row-major position p, in row-major order. */
  predicate OrderedBefore(cells: seq<EmptyCell>, p: int) {
    && (forall i | 0 <= i < |cells| :: InRange(cells[i].col) && 9 * cells[i].row + cells[i].col < p)
    && (forall i, j | 0 <= i < j < |cells| :: RowMajorBefore(cells[i], cells[j]))
  }

  /** The records before (row, col) lie before it and are in row-major order. */
  lemma {:induction false} CellsBeforeAreOrdered(f: Field, row: int, col: int)
    requires 0 <= row <= 9 && 0 <= col <= 9 && (row == 9 ==> col == 0)
    ensures OrderedBefore(CellsBefore(f, row, col), 9 * row + col)
    decreases row, col
  {
    if col > 0 {
      CellsBeforeAreOrdered(f, row, col - 1);
      VisitYieldsTheCell(f, row, col - 1);
      AppendLaterKeepsOrdered(CellsBefore(f, row, col - 1), Visit(f, row, col - 1), 9 * row + col - 1);
    } else if row > 0 {
      CellsBeforeAreOrdered(f, row - 1, 9);
    }
  }

  /** Appending at most one record at position p to records that lie before p
      keeps them in row-major order and before p + 1. */
  lemma AppendLaterKeepsOrdered(prev: seq<EmptyCell>, next: seq<EmptyCell>, p: int)
    requires OrderedBefore(prev, p)
    requires |next| <= 1
    requires forall i | 0 <= i < |next| :: InRange(next[i].col) && 9 * next[i].row + next[i].col == p
    ensures OrderedBefore(prev + next, p + 1)
  {
    var cells := prev + next;
    forall i, j | 0 <= i < j < |cells| ensures RowMajorBefore(cells[i], cells[j]) {
      if j < |prev| {
        assert cells[i] == prev[i] && cells[j] == prev[j];
      } else {
        assert cells[i] == prev[i] && cells[j] == next[0];
      }
    }
  }

  /** Every empty cell before row-major position p has a record in `cells`. */
  ghost predicate CoversBefore(f: Field, cells: seq<EmptyCell>, p: int) {
    forall r, c | InRange(r) && InRange(c) && 9 * r + c < p && f[r][c] == Empty ::
      exists i | 0 <= i < |cells| :: cells[i].row == r && cells[i].col == c
  }

  /** Every empty cell before (row, col) has a record among the records before it. */
  lemma {:induction false} CellsBeforeCoverField(f: Field, row: int, col: int)
    requires 0 <= row <= 9 && 0 <= col <= 9 && (row == 9 ==> col == 0)
    ensures CoversBefore(f, CellsBefore(f, row, col), 9 * row + col)
    decreases row, col
  {
    if col > 0 {
      CellsBeforeCoverField(f, row, col - 1);
      AppendVisitKeepsCoverage(f, CellsBefore(f, row, col - 1), row, col - 1);
    } else if row > 0 {
      CellsBeforeCoverField(f, row - 1, 9);
    }
  }

  /** Appending the visit of (row, col) extends the coverage to that cell. */
  lemma AppendVisitKeepsCoverage(f: Field, prev: seq<EmptyCell>, row: int, col: int)
    requires InRange(row) && InRange(col)
    requires CoversBefore(f, prev, 9 * row + col)
    ensures CoversBefore(f, prev + Visit(f, row, col), 9 * row + col + 1)
  {
    var cells := prev + Visit(f, row, col);
    forall r, c | InRange(r) && InRange(c) && 9 * r + c < 9 * row + col + 1 && f[r][c] == Empty
      ensures exists i | 0 <= i < |cells| :: cells[i].row == r && cells[i].col == c
    {
      if 9 * r + c < 9 * row + col {
        var i :| 0 <= i < |prev| && prev[i].row == r && prev[i].col == c;
        assert cells[i] == prev[i];
      } else {
        assert r == row && c == col;
        assert cells[|prev|].row == r && cells[|prev|].col == c;
      }
    }
  }

  /** The records of all empty cells sit on distinct empty cells in row-major
      order, cover every empty cell, and carry exactly the digits still
      allowed there, ascending. */
  lemma InitialCellsDescribeField(f: Field)
    ensures var cells := CellsBefore(f, 9, 0);
            && |cells| <= 81
            && OnEmptyCells(f, cells)
            && (forall i | 0 <= i < |cells| ::
                  && cells[i].Valid()
                  && StrictlyIncreasing(cells[i].variants)
                  && ExactVariants(f, cells[i]))
            && (forall i, j | 0 <= i < j < |cells| :: RowMajorBefore(cells[i], cells[j]))
            && (forall r, c | InRange(r) && InRange(c) && f[r][c] == Empty ::
                  exists i | 0 <= i < |cells| :: cells[i].row == r && cells[i].col == c)
  {
    var cells := CellsBefore(f, 9, 0);
    CellsBeforeAreCollected(f, 9, 0);
    CellsBeforeAreOrdered(f, 9, 0);
    CellsBeforeCoverField(f, 9, 0);
    forall i | 0 <= i < |cells|
      ensures cells[i].Valid() && StrictlyIncreasing(cells[i].variants)
      ensures ExactVariants(f, cells[i])
    {
      InitialVariantsAreExact(f, cells[i].row, cells[i].col);
      PossibleValuesAreTheRange(0);
    }
    forall r, c | InRange(r) && InRange(c) && f[r][c] == Empty
      ensures exists i | 0 <= i < |cells| :: cells[i].row == r && cells[i].col == c
    {
      assert 9 * r + c < 81;
    }
  }

  /** collectInitialEmptyCells: visits the cells in row-major order and keeps
      a record of each empty one, with the digits still allowed there. */
  method CollectInitialEmptyCells(initialField: Field) returns (cells: seq<EmptyCell>)
    ensures cells == CellsBefore(initialField, 9, 0)
  {
    cells := [];
    for row := 0 to FieldSize
      invariant cells == CellsBefore(initialField, row, 0)
    {
      for col := 0 to FieldSize
        invariant cells == CellsBefore(initialField, row, col)
      {
        if GetValue(initialField, row, col) == Empty {
          var rowValues := GetRowValues(initialField, row);
          var colValues := GetColValues(initialField, col);
          var squareValues := GetLocalSquareValues(initialField, row, col);
          var variants := PossibleValues;
          variants := RemoveAll(variants, rowValues);
          variants := RemoveAll(variants, colValues);
          variants := RemoveAll(variants, squareValues);
          cells := cells + [EmptyCell(row, col, variants)];
        }
      }
    }
  }

  // ---------------------------------------------------------------------
  // The invariant of a search frame

  predicate SamePlace(a: EmptyCell, b: EmptyCell) {
    a.row == b.row && a.col == b.col
  }

  /** No two records are about the same cell. */
  predicate DistinctPlaces(cells: seq<EmptyCell>) {
    forall i, j | 0 <= i < |cells| && 0 <= j < |cells| && SamePlace(cells[i], cells[j]) :: i == j
  }

  /** The records of a frame describe its field: they sit on empty cells, one
      per empty cell, and each carries exactly the digits still allowed there. */
  ghost predicate Tracks(f: Field, cells: seq<EmptyCell>) {
    && OnEmptyCells(f, cells)
    && (forall i | 0 <= i < |cells| :: ExactVariants(f, cells[i]))
    && (forall r, c | InRange(r) && InRange(c) && f[r][c] == Empty ::
          exists i | 0 <= i < |cells| :: cells[i].row == r && cells[i].col == c)
    && DistinctPlaces(cells)
  }

  /** The records collected from a field, in any order, describe it. */
  lemma CollectedCellsTrack(f: Field, cells: seq<EmptyCell>)
    requires OnEmptyCells(f, cells)
    requires forall i | 0 <= i < |cells| :: ExactVariants(f, cells[i])
    requires forall i, j | 0 <= i < j < |cells| :: RowMajorBefore(cells[i], cells[j])
    requires forall r, c | InRange(r) && InRange(c) && f[r][c] == Empty ::
               exists i | 0 <= i < |cells| :: cells[i].row == r && cells[i].col == c
    ensures Tracks(f, cells)
  {
    assert forall i, j | 0 <= i < j < |cells| :: !SamePlace(cells[i], cells[j]);
  }

  /** A frame without records has a complete field. */
  lemma NoCellsMeansComplete(f: Field)
    requires Tracks(f, [])
    ensures Complete(f)
  {
  }

  /** Reordering the records keeps the invariant. */
  lemma PermutationKeepsTracks(f: Field, a: seq<EmptyCell>, b: seq<EmptyCell>)
    requires Tracks(f, a) && multiset(a) == multiset(b)
    ensures Tracks(f, b)
  {
    forall i | 0 <= i < |b| ensures OnEmptyCell(f, b[i]) && ExactVariants(f, b[i]) {
      assert b[i] in multiset(a);
    }
    forall r, c | InRange(r) && InRange(c) && f[r][c] == Empty
      ensures exists j | 0 <= j < |b| :: b[j].row == r && b[j].col == c
    {
      var i :| 0 <= i < |a| && a[i].row == r && a[i].col == c;
      assert a[i] in multiset(b);
    }
    PermutationKeepsDistinctPlaces(a, b);
  }

  lemma PermutationKeepsDistinctPlaces(a: seq<EmptyCell>, b: seq<EmptyCell>)
    requires DistinctPlaces(a) && multiset(a) == multiset(b)
    ensures DistinctPlaces(b)
  {
    DistinctPlacesOccurOnce(a);
    forall i, j | 0 <= i < |b| && 0 <= j < |b| && SamePlace(b[i], b[j]) ensures i == j {
      assert b[i] in multiset(a) && b[j] in multiset(a);
      var p :| 0 <= p < |a| && a[p] == b[i];
      var q :| 0 <= q < |a| && a[q] == b[j];
      assert p == q;
      RepeatCountsTwice(b, i, j);
    }
  }

  lemma {:induction false} DistinctPlacesOccurOnce(s: seq<EmptyCell>)
    requires DistinctPlaces(s)
    ensures forall x :: multiset(s)[x] <= 1
  {
    if s != [] {
      var t := s[1..];
      assert s == [s[0]] + t;
      assert DistinctPlaces(t) by {
        forall i, j | 0 <= i < |t| && 0 <= j < |t| && SamePlace(t[i], t[j]) ensures i == j {
          assert s[i + 1] == t[i] && s[j + 1] == t[j];
        }
      }
      DistinctPlacesOccurOnce(t);
      forall k | 0 <= k < |t| ensures t[k] != s[0] {
        assert s[k + 1] == t[k];
      }
      assert s[0] !in t;
    }
  }

  lemma RepeatCountsTwice(s: seq<EmptyCell>, i: int, j: int)
    requires 0 <= i < |s| && 0 <= j < |s|
    ensures i != j && s[i] == s[j] ==> multiset(s)[s[i]] >= 2
  {
    if i != j && s[i] == s[j] {
      var lo, hi := if i < j then i else j, if i < j then j else i;
      assert s == s[..hi] + s[hi..];
      assert s[lo] in s[..hi] && s[hi] in s[hi..];
      assert multiset(s) == multiset(s[..hi]) + multiset(s[hi..]);
    }
  }

  // ---------------------------------------------------------------------
  // One step of the search

  /** The record after `value` has been placed in the head's cell: records in
      contact with the head lose that variant, the others are unchanged. */
  function Propagated(head: EmptyCell, value: int, e: EmptyCell): EmptyCell
    requires InRange(head.row) && InRange(head.col) && InRange(e.row) && InRange(e.col)
  {
    if CellsInContact(head.row, head.col, e.row, e.col) then e.RemoveVariantIfExists(value) else e
  }

  function Propagate(head: EmptyCell, value: int, tail: seq<EmptyCell>): seq<EmptyCell>
    requires InRange(head.row) && InRange(head.col)
    requires forall i | 0 <= i < |tail| :: InRange(tail[i].row) && InRange(tail[i].col)
  {
    seq(|tail|, i requires 0 <= i < |tail| => Propagated(head, value, tail[i]))
  }

  /** The loop of solveRec that builds the next frame's records: each record
      in contact with the head's cell loses `variant`, the others are kept. */
  method PropagateVariant(ecHead: EmptyCell, variant: int, ecTail: seq<EmptyCell>)
    returns (updatedEmptyCells: seq<EmptyCell>)
    requires InRange(ecHead.row) && InRange(ecHead.col)
    requires forall i | 0 <= i < |ecTail| :: InRange(ecTail[i].row) && InRange(ecTail[i].col)
    ensures updatedEmptyCells == Propagate(ecHead, variant, ecTail)
  {
    updatedEmptyCells := [];
    for t := 0 to |ecTail|
      invariant |updatedEmptyCells| == t
      invariant forall i | 0 <= i < t ::
                  updatedEmptyCells[i] == Propagated(ecHead, variant, ecTail[i])
    {
      var ec := ecTail[t];
      if CellsInContact(ecHead.row, ecHead.col, ec.row, ec.col) {
        updatedEmptyCells := updatedEmptyCells + [ec.RemoveVariantIfExists(variant)];
      } else {
        updatedEmptyCells := updatedEmptyCells + [ec];
      }
    }
  }

  /** Placing one of the head's variants and propagating it to the tail gives
      a new frame that again satisfies the invariant. */
  lemma PlacementKeepsTracks(f: Field, cells: seq<EmptyCell>, v: int)
    requires Tracks(f, cells) && |cells| > 0 && v in cells[0].variants && 1 <= v <= 9
    ensures Tracks(SetValue(f, cells[0].row, cells[0].col, v), Propagate(cells[0], v, cells[1..]))
  {
    var h := cells[0];
    var g := SetValue(f, h.row, h.col, v);
    var next := Propagate(h, v, cells[1..]);
    forall i | 0 <= i < |next| ensures OnEmptyCell(g, next[i]) && ExactVariants(g, next[i]) {
      PlacementKeepsRecord(f, cells, v, i + 1);
    }
    PlacementKeepsCoverage(f, cells, v);
    PlacementKeepsDistinctPlaces(f, cells, v);
  }

  lemma PlacementKeepsCoverage(f: Field, cells: seq<EmptyCell>, v: int)
    requires |cells| > 0 && 1 <= v <= 9
    requires OnEmptyCells(f, cells)
    requires forall r, c | InRange(r) && InRange(c) && f[r][c] == Empty ::
               exists i | 0 <= i < |cells| :: cells[i].row == r && cells[i].col == c
    ensures var g := SetValue(f, cells[0].row, cells[0].col, v);
            var next := Propagate(cells[0], v, cells[1..]);
            forall r, c | InRange(r) && InRange(c) && g[r][c] == Empty ::
              exists j | 0 <= j < |next| :: next[j].row == r && next[j].col == c
  {
    var h := cells[0];
    var g := SetValue(f, h.row, h.col, v);
    var next := Propagate(h, v, cells[1..]);
    PropagateKeepsPlaces(h, v, cells[1..]);
    assert GetValue(g, h.row, h.col) == v;
    forall r, c | InRange(r) && InRange(c) && g[r][c] == Empty
      ensures exists j | 0 <= j < |next| :: next[j].row == r && next[j].col == c
    {
      assert r != h.row || c != h.col;
      assert GetValue(g, r, c) == GetValue(f, r, c);
      var j :| 0 <= j < |cells| && cells[j].row == r && cells[j].col == c;
      assert j != 0;
      assert cells[1..][j - 1] == cells[j];
      assert SamePlace(next[j - 1], cells[j]);
    }
  }

  /** Propagation keeps every record on its cell. */
  lemma PropagateKeepsPlaces(h: EmptyCell, v: int, tail: seq<EmptyCell>)
    requires InRange(h.row) && InRange(h.col)
    requires forall i | 0 <= i < |tail| :: InRange(tail[i].row) && InRange(tail[i].col)
    ensures |Propagate(h, v, tail)| == |tail|
    ensures forall i | 0 <= i < |tail| :: SamePlace(Propagate(h, v, tail)[i], tail[i])
  {
  }

  lemma PlacementKeepsDistinctPlaces(f: Field, cells: seq<EmptyCell>, v: int)
    requires |cells| > 0 && DistinctPlaces(cells)
    requires OnEmptyCells(f, cells)
    ensures DistinctPlaces(Propagate(cells[0], v, cells[1..]))
  {
    var next := Propagate(cells[0], v, cells[1..]);
    PropagateKeepsPlaces(cells[0], v, cells[1..]);
    forall i, j | 0 <= i < |next| && 0 <= j < |next| && SamePlace(next[i], next[j]) ensures i == j {
      assert cells[1..][i] == cells[i + 1] && cells[1..][j] == cells[j + 1];
      assert SamePlace(cells[i + 1], cells[j + 1]);
    }
  }

  /** The propagated form of record k of the tail is exact for the new field. */
  lemma PlacementKeepsRecord(f: Field, cells: seq<EmptyCell>, v: int, k: int)
    requires Tracks(f, cells) && |cells| > 0 && v in cells[0].variants && 1 <= v <= 9
    requires 1 <= k < |cells|
    ensures var h := cells[0];
            var g := SetValue(f, h.row, h.col, v);
            var e := Propagated(h, v, cells[k]);
            OnEmptyCell(g, e) && ExactVariants(g, e)
  {
    assert !SamePlace(cells[0], cells[k]);
    PropagatedStaysExact(f, cells[0], v, cells[k]);
  }

  lemma PropagatedStaysExact(f: Field, h: EmptyCell, v: int, t: EmptyCell)
    requires OnEmptyCell(f, h) && OnEmptyCell(f, t) && !SamePlace(h, t) && 1 <= v <= 9
    requires ExactVariants(f, t)
    ensures var g := SetValue(f, h.row, h.col, v);
            var e := Propagated(h, v, t);
            OnEmptyCell(g, e) && ExactVariants(g, e)
  {
    var g := SetValue(f, h.row, h.col, v);
    assert GetValue(g, t.row, t.col) == GetValue(f, t.row, t.col);
    ContactIsSymmetric(h.row, h.col, t.row, t.col);
    var contact := CellsInContact(t.row, t.col, h.row, h.col);
    forall w | 1 <= w <= 9
      ensures ValueInContact(g, t.row, t.col, w)
          <==> (ValueInContact(f, t.row, t.col, w) || (contact && w == v))
    {
      ValueInContactAfterSet(f, h.row, h.col, v, t.row, t.col, w);
    }
    if contact {
      RemovedVariantStaysExact(f, g, t, v);
    }
  }

  /** Removing the placed value from a record in contact with its cell keeps
      the record exact. */
  lemma RemovedVariantStaysExact(f: Field, g: Field, t: EmptyCell, v: int)
    requires InRange(t.row) && InRange(t.col) && ExactVariants(f, t)
    requires forall w | 1 <= w <= 9 ::
               ValueInContact(g, t.row, t.col, w) <==> (ValueInContact(f, t.row, t.col, w) || w == v)
    ensures ExactVariants(g, t.RemoveVariantIfExists(v))
  {
    var e := t.RemoveVariantIfExists(v);
    RemoveVariantWithoutDuplicates(t, v);
    forall i | 0 <= i < |e.variants|
      ensures 1 <= e.variants[i] <= 9 && !ValueInContact(g, t.row, t.col, e.variants[i])
    {
      assert e.variants[i] in e.variants;
    }
  }

  /** Placing a value the head allows keeps the clues free of conflicts. */
  lemma PlacementKeepsConsistent(f: Field, h: EmptyCell, v: int)
    requires OnEmptyCell(f, h) && 1 <= v <= 9 && !ValueInContact(f, h.row, h.col, v)
    requires Consistent(f)
    ensures Consistent(SetValue(f, h.row, h.col, v))
  {
    var g := SetValue(f, h.row, h.col, v);
    forall r1, c1, r2, c2 |
      && InRange(r1) && InRange(c1) && InRange(r2) && InRange(c2)
      && (r1 != r2 || c1 != c2)
      && CellsInContact(r1, c1, r2, c2)
      ensures g[r1][c1] == Empty || g[r1][c1] != g[r2][c2]
    {
      assert GetValue(g, r1, c1) == g[r1][c1] && GetValue(g, r2, c2) == g[r2][c2];
      if r1 == h.row && c1 == h.col {
        assert GetValue(g, r2, c2) == GetValue(f, r2, c2);
      } else if r2 == h.row && c2 == h.col {
        ContactIsSymmetric(r1, c1, r2, c2);
        assert GetValue(g, r1, c1) == GetValue(f, r1, c1);
      } else {
        assert GetValue(g, r1, c1) == GetValue(f, r1, c1);
        assert GetValue(g, r2, c2) == GetValue(f, r2, c2);
      }
    }
  }

  /** A field completing the field after a placement completes the field before it. */
  lemma PlacementExtends(f: Field, row: int, col: int, v: int, s: Field)
    requires InRange(row) && InRange(col) && f[row][col] == Empty && 1 <= v <= 9
    requires Extends(s, SetValue(f, row, col, v))
    ensures Extends(s, f) && s[row][col] == v
  {
    var g := SetValue(f, row, col, v);
    assert GetValue(g, row, col) == v;
    forall r, c | InRange(r) && InRange(c) && f[r][c] != Empty ensures s[r][c] == f[r][c] {
      assert GetValue(g, r, c) == GetValue(f, r, c);
    }
  }

  /** Any solution completing a frame's field puts one of the head's variants
      in the head's cell, and completes the field with that variant placed. */
  lemma SolutionUsesAVariant(f: Field, cells: seq<EmptyCell>, s: Field)
    requires Tracks(f, cells) && |cells| > 0
    requires IsSolution(s) && Extends(s, f)
    ensures exists i | 0 <= i < |cells[0].variants| ::
              && cells[0].variants[i] == s[cells[0].row][cells[0].col]
              && Extends(s, SetValue(f, cells[0].row, cells[0].col, cells[0].variants[i]))
  {
    var h := cells[0];
    var w := s[h.row][h.col];
    assert 1 <= w <= 9;
    forall r, c | InRange(r) && InRange(c) && CellsInContact(h.row, h.col, r, c)
      ensures f[r][c] != w
    {
      if f[r][c] != Empty {
        assert r != h.row || c != h.col;
        assert s[r][c] == f[r][c];
      }
    }
    assert !ValueInContact(f, h.row, h.col, w);
    assert w in h.variants;
    var i :| 0 <= i < |h.variants| && h.variants[i] == w;
    var g := SetValue(f, h.row, h.col, w);
    forall r, c | InRange(r) && InRange(c) && g[r][c] != Empty ensures s[r][c] == g[r][c] {
      if r != h.row || c != h.col {
        assert GetValue(g, r, c) == GetValue(f, r, c);
      }
    }
  }

  /** When no variant of the head can be completed, the frame's field cannot be. */
  lemma AllVariantsFailed(f: Field, cells: seq<EmptyCell>)
    requires Tracks(f, cells) && |cells| > 0
    requires forall i | 0 <= i < |cells[0].variants| ::
               1 <= cells[0].variants[i] <= 9
               && !Solvable(SetValue(f, cells[0].row, cells[0].col, cells[0].variants[i]))
    ensures !Solvable(f)
  {
    forall s: Field | IsSolution(s) ensures !Extends(s, f) {
      if Extends(s, f) {
        SolutionUsesAVariant(f, cells, s);
      }
    }
  }

  /** The head's value in a result is one of the head's variants, and every
      variant before it, in their order, admits no solution once placed. */
  ghost predicate FirstWorkableVariant(f: Field, head: EmptyCell, value: int)
    requires InRange(head.row) && InRange(head.col)
  {
    exists k | 0 <= k < |head.variants| ::
      && head.variants[k] == value
      && forall i | 0 <= i < k ::
           1 <= head.variants[i] <= 9
           && !Solvable(SetValue(f, head.row, head.col, head.variants[i]))
  }

  lemma FirstWorkableAt(f: Field, head: EmptyCell, k: int)
    requires InRange(head.row) && InRange(head.col) && 0 <= k < |head.variants|
    requires forall i | 0 <= i < k ::
               1 <= head.variants[i] <= 9
               && !Solvable(SetValue(f, head.row, head.col, head.variants[i]))
    ensures FirstWorkableVariant(f, head, head.variants[k])
  {
  }

  lemma OneMoreVariantFailed(f: Field, head: EmptyCell, k: int)
    requires InRange(head.row) && InRange(head.col) && 0 <= k < |head.variants|
    requires forall i | 0 <= i < k ::
               1 <= head.variants[i] <= 9
               && !Solvable(SetValue(f, head.row, head.col, head.variants[i]))
    requires 1 <= head.variants[k] <= 9
    requires !Solvable(SetValue(f, head.row, head.col, head.variants[k]))
    ensures forall i | 0 <= i < k + 1 ::
              1 <= head.variants[i] <= 9
              && !Solvable(SetValue(f, head.row, head.col, head.variants[i]))
  {
  }

  /** The head of a sorted frame has the fewest variants, and each of them is
      a digit that no cell in contact holds. */
  lemma HeadOfFrame(f: Field, cells: seq<EmptyCell>)
    requires Tracks(f, cells) && SortedByVariantCount(cells) && |cells| > 0
    ensures forall i | 0 <= i < |cells[0].variants| ::
              1 <= cells[0].variants[i] <= 9
              && !ValueInContact(f, cells[0].row, cells[0].col, cells[0].variants[i])
    ensures forall i | 0 <= i < |cells| :: |cells[0].variants| <= |cells[i].variants|
  {
    assert ExactVariants(f, cells[0]);
    forall i | 0 <= i < |cells| ensures |cells[0].variants| <= |cells[i].variants| {
      if i > 0 {
        assert Compare(cells[0], cells[i]) <= 0;
      }
    }
  }

  /** The frame the search moves to after placing the head's variant k. */
  lemma NextFrameTracks(f: Field, cells: seq<EmptyCell>, k: int)
    requires Tracks(f, cells) && |cells| > 0 && 0 <= k < |cells[0].variants|
    ensures var h := cells[0];
            var v := h.variants[k];
            && 1 <= v <= 9
            && !ValueInContact(f, h.row, h.col, v)
            && Tracks(SetValue(f, h.row, h.col, v), SortByVariantCount(Propagate(h, v, cells[1..])))
  {
    var h := cells[0];
    var v := h.variants[k];
    assert ExactVariants(f, h);
    assert v in h.variants;
    PlacementKeepsTracks(f, cells, v);
    var next := Propagate(h, v, cells[1..]);
    PermutationKeepsTracks(SetValue(f, h.row, h.col, v), next, SortByVariantCount(next));
  }

  /** A solution found after placing v in the head's cell completes the frame's
      field and holds v there. When the frame's values do not conflict, it
      solves the field, so placing v admits a solution. */
  lemma FoundAfterPlacement(f: Field, h: EmptyCell, v: int, s: Field)
    requires OnEmptyCell(f, h) && 1 <= v <= 9 && !ValueInContact(f, h.row, h.col, v)
    requires Complete(s) && Extends(s, SetValue(f, h.row, h.col, v))
    requires Consistent(SetValue(f, h.row, h.col, v)) ==> IsSolution(s)
    ensures Extends(s, f) && s[h.row][h.col] == v
    ensures Consistent(f) ==> IsSolution(s) && Solvable(SetValue(f, h.row, h.col, v))
  {
    PlacementExtends(f, h.row, h.col, v, s);
    if Consistent(f) {
      PlacementKeepsConsistent(f, h, v);
      assert IsSolution(s) && Extends(s, SetValue(f, h.row, h.col, v));
    }
  }

  // ---------------------------------------------------------------------
  // The search

  /** solveRec: searches the completions of `field` given the records of its
      empty cells, sorted by number of variants. */
  method SolveRec(field: Field, emptyCells: seq<EmptyCell>) returns (solution: Option<Field>)
    requires Tracks(field, emptyCells)
    requires SortedByVariantCount(emptyCells)
    ensures emptyCells == [] ==> solution == Some(field)
    ensures (exists i | 0 <= i < |emptyCells| :: emptyCells[i].variants == []) ==> solution == None
    ensures solution.Some? ==> Complete(solution.value) && Extends(solution.value, field)
    ensures solution.Some? && Consistent(field) ==> IsSolution(solution.value)
    ensures solution.None? ==> !Solvable(field)
    ensures solution.Some? && emptyCells != [] ==>
              FirstWorkableVariant(field, emptyCells[0],
                                   solution.value[emptyCells[0].row][emptyCells[0].col])
    ensures solution.Some? && emptyCells != [] && Consistent(field) ==>
              var h := emptyCells[0];
              var v := solution.value[h.row][h.col];
              1 <= v <= 9 && Solvable(SetValue(field, h.row, h.col, v))
    decreases |emptyCells|
  {
    if |emptyCells| == 0 {
      NoCellsMeansComplete(field);
      return Some(field);
    }
    var ecHead := emptyCells[0];
    var ecTail := emptyCells[1..];
    HeadOfFrame(field, emptyCells);
    if |ecHead.variants| == 0 {
      AllVariantsFailed(field, emptyCells);
      return None;
    }

    for k := 0 to |ecHead.variants|
      invariant forall i | 0 <= i < k ::
                  1 <= ecHead.variants[i] <= 9
                  && !Solvable(SetValue(field, ecHead.row, ecHead.col, ecHead.variants[i]))
    {
      var variant := ecHead.variants[k];
      var updatedField := SetValue(field, ecHead.row, ecHead.col, variant);

      var updatedEmptyCells := PropagateVariant(ecHead, variant, ecTail);
      updatedEmptyCells := SortByVariantCount(updatedEmptyCells);
      NextFrameTracks(field, emptyCells, k);

      var sub := SolveRec(updatedField, updatedEmptyCells);
      if sub.Some? {
        FoundAfterPlacement(field, ecHead, variant, sub.value);
        FirstWorkableAt(field, ecHead, k);
        return sub;
      }
      OneMoreVariantFailed(field, ecHead, k);
    }
    AllVariantsFailed(field, emptyCells);
    return None;
  }

  /** solve: collects the records of the initial field's empty cells, sorts
      them by number of variants and searches. */
  method Solve(initialField: Field) returns (solution: Option<Field>)
    ensures solution.Some? ==> Complete(solution.value) && Extends(solution.value, initialField)
    ensures solution.Some? && Consistent(initialField) ==>
              IsSolution(solution.value) && PassesSumCheck(solution.value)
    ensures solution.None? ==> !Solvable(initialField)
    ensures Complete(initialField) ==> solution == Some(initialField)
  {
    var initialEmptyCells := CollectInitialEmptyCells(initialField);
    InitialCellsDescribeField(initialField);
    CollectedCellsTrack(initialField, initialEmptyCells);
    var sorted := SortByVariantCount(initialEmptyCells);
    PermutationKeepsTracks(initialField, initialEmptyCells, sorted);
    solution := SolveRec(initialField, sorted);
    if solution.Some? && Consistent(initialField) {
      SolutionPassesSumCheck(solution.value);
    }
  }
}
