/** The Sudoku field: a 9x9 grid of values in 0..9, where 0 marks an empty
    cell. The field is a value; "changing" a cell yields a new field. */
module Fields {

  /** Side of the field. */
  const FieldSize: int := 9
  /** Side of a local square (box). */
  const LocalSquareSize: int := 3
  /** The value of an empty cell. */
  const Empty: int := 0
  /** Every admissible cell value, the empty one included, in this order. */
  const PossibleValues: seq<int> := [1, 2, 3, 4, 5, 6, 7, 8, 9, Empty]

  /** A row or column number of the field. */
  predicate InRange(d: int) {
    0 <= d < FieldSize
  }

  /** A value the field may hold (membership in PossibleValues). */
  predicate IsPossibleValue(v: int) {
    Empty <= v <= 9
  }

  lemma PossibleValuesAreTheRange(v: int)
    ensures v in PossibleValues <==> IsPossibleValue(v)
  {
  }

  /** The check the constructor makes: 9 rows of 9 admissible values. */
  predicate IsGrid(values: seq<seq<int>>) {
    && |values| == FieldSize
    && forall r | 0 <= r < FieldSize ::
         && |values[r]| == FieldSize
         && forall c | 0 <= c < FieldSize :: IsPossibleValue(values[r][c])
  }

  type Field = values: seq<seq<int>> | IsGrid(values)
    witness seq(FieldSize, _ => seq(FieldSize, _ => Empty))

  /** Field(int[][]): accepts a well-formed grid and keeps its entries. */
  function NewField(values: seq<seq<int>>): (f: Field)
    requires IsGrid(values)
    ensures forall r, c | InRange(r) && InRange(c) ::
              GetValue(f, r, c) == values[r][c] && IsPossibleValue(GetValue(f, r, c))
  {
    values
  }

  /** getValue: the entry at (row, col), always an admissible value. */
  function GetValue(f: Field, row: int, col: int): (v: int)
    requires InRange(row) && InRange(col)
    ensures IsPossibleValue(v)
  {
    f[row][col]
  }

  /** setValue: the field with (row, col) set to a non-empty value. The field
      itself is returned when the cell already holds that value. */
  function SetValue(f: Field, row: int, col: int, value: int): (g: Field)
    requires InRange(row) && InRange(col)
    requires value != Empty && IsPossibleValue(value)
    ensures GetValue(g, row, col) == value
    ensures forall r, c | InRange(r) && InRange(c) && (r != row || c != col) ::
              GetValue(g, r, c) == GetValue(f, r, c)
    ensures GetValue(f, row, col) == value ==> g == f
  {
    if f[row][col] != value then
      f[row := f[row][col := value]]
    else
      f
  }

  /** Writing a cell twice keeps only the second value. */
  lemma SetValueOverwrites(f: Field, row: int, col: int, v1: int, v2: int)
    requires InRange(row) && InRange(col)
    requires v1 != Empty && IsPossibleValue(v1) && v2 != Empty && IsPossibleValue(v2)
    ensures SetValue(SetValue(f, row, col, v1), row, col, v2) == SetValue(f, row, col, v2)
  {
    var g1 := SetValue(SetValue(f, row, col, v1), row, col, v2);
    var g2 := SetValue(f, row, col, v2);
    assert forall r | 0 <= r < FieldSize :: g1[r] == g2[r];
  }

  /** Writes to two different cells commute. */
  lemma SetValueCommutes(f: Field, r1: int, c1: int, v1: int, r2: int, c2: int, v2: int)
    requires InRange(r1) && InRange(c1) && InRange(r2) && InRange(c2)
    requires r1 != r2 || c1 != c2
    requires v1 != Empty && IsPossibleValue(v1) && v2 != Empty && IsPossibleValue(v2)
    ensures SetValue(SetValue(f, r1, c1, v1), r2, c2, v2)
         == SetValue(SetValue(f, r2, c2, v2), r1, c1, v1)
  {
    var g1 := SetValue(SetValue(f, r1, c1, v1), r2, c2, v2);
    var g2 := SetValue(SetValue(f, r2, c2, v2), r1, c1, v1);
    assert forall r | 0 <= r < FieldSize :: g1[r] == g2[r];
  }

  /** The values of row `row`, left to right. */
  function RowValues(f: Field, row: int): seq<int>
    requires InRange(row)
  {
    seq(FieldSize, i requires 0 <= i < FieldSize => f[row][i])
  }

  /** The values of column `col`, top to bottom. */
  function ColValues(f: Field, col: int): seq<int>
    requires InRange(col)
  {
    seq(FieldSize, i requires 0 <= i < FieldSize => f[i][col])
  }

  /** First row (or column) of the local square holding row (or column) d. */
  function SquareStart(d: int): int
    requires InRange(d)
  {
    LocalSquareSize * (d / LocalSquareSize)
  }

  /** The values of the local square holding (row, col), in row-major order. */
  function LocalSquareValues(f: Field, row: int, col: int): seq<int>
    requires InRange(row) && InRange(col)
  {
    seq(FieldSize, k requires 0 <= k < FieldSize =>
      f[SquareStart(row) + k / LocalSquareSize][SquareStart(col) + k % LocalSquareSize])
  }

  /** getRowValues: collects the 9 values of a row. */
  method GetRowValues(f: Field, row: int) returns (values: seq<int>)
    requires InRange(row)
    ensures values == RowValues(f, row)
  {
    values := [];
    for col := 0 to FieldSize
      invariant |values| == col
      invariant forall i | 0 <= i < col :: values[i] == f[row][i]
    {
      values := values + [f[row][col]];
    }
  }

  /** getColValues: collects the 9 values of a column. */
  method GetColValues(f: Field, col: int) returns (values: seq<int>)
    requires InRange(col)
    ensures values == ColValues(f, col)
  {
    values := [];
    for row := 0 to FieldSize
      invariant |values| == row
      invariant forall i | 0 <= i < row :: values[i] == f[i][col]
    {
      values := values + [f[row][col]];
    }
  }

  /** getLocalSquareValues: collects the 9 values of the local square that
      holds (row, col), row by row. */
  method GetLocalSquareValues(f: Field, row: int, col: int) returns (values: seq<int>)
    requires InRange(row) && InRange(col)
    ensures values == LocalSquareValues(f, row, col)
  {
    var sqRow := row / LocalSquareSize;
    var sqCol := col / LocalSquareSize;
    var top, left := sqRow * LocalSquareSize, sqCol * LocalSquareSize;
    values := [];
    for cellRow := top to (sqRow + 1) * LocalSquareSize
      invariant |values| == LocalSquareSize * (cellRow - top)
      invariant forall k | 0 <= k < |values| ::
                  values[k] == f[top + k / LocalSquareSize][left + k % LocalSquareSize]
    {
      for cellCol := left to (sqCol + 1) * LocalSquareSize
        invariant |values| == LocalSquareSize * (cellRow - top) + (cellCol - left)
        invariant forall k | 0 <= k < |values| ::
                    values[k] == f[top + k / LocalSquareSize][left + k % LocalSquareSize]
      {
        values := values + [f[cellRow][cellCol]];
      }
    }
    assert SquareStart(row) == top && SquareStart(col) == left;
  }

  /** cellsInContact: the two cells share a row, a column or a local square. */
  predicate CellsInContact(row1: int, col1: int, row2: int, col2: int)
    requires InRange(row1) && InRange(col1) && InRange(row2) && InRange(col2)
  {
    || row1 == row2
    || col1 == col2
    || (row1 / LocalSquareSize == row2 / LocalSquareSize
        && col1 / LocalSquareSize == col2 / LocalSquareSize)
  }

  lemma ContactIsSymmetric(row1: int, col1: int, row2: int, col2: int)
    requires InRange(row1) && InRange(col1) && InRange(row2) && InRange(col2)
    ensures CellsInContact(row1, col1, row2, col2) == CellsInContact(row2, col2, row1, col1)
  {
  }

  lemma ContactIsReflexive(row: int, col: int)
    requires InRange(row) && InRange(col)
    ensures CellsInContact(row, col, row, col)
  {
  }

  /** Some cell in contact with (row, col) holds w. */
  ghost predicate ValueInContact(f: Field, row: int, col: int, w: int)
    requires InRange(row) && InRange(col)
  {
    exists r, c | InRange(r) && InRange(c) && CellsInContact(row, col, r, c) :: f[r][c] == w
  }

  /** The cells whose values the three collectors return for (row, col) are
      exactly the cells in contact with it: a value occurs in the row, the
      column or the local square of (row, col) iff a cell in contact holds it. */
  lemma ValueInContactIffListed(f: Field, row: int, col: int, w: int)
    requires InRange(row) && InRange(col)
    ensures ValueInContact(f, row, col, w)
        <==> (w in RowValues(f, row) || w in ColValues(f, col) || w in LocalSquareValues(f, row, col))
  {
    if ValueInContact(f, row, col, w) {
      var r, c :| InRange(r) && InRange(c) && CellsInContact(row, col, r, c) && f[r][c] == w;
      ListedIfInContact(f, row, col, r, c);
    }
    if w in RowValues(f, row) || w in ColValues(f, col) || w in LocalSquareValues(f, row, col) {
      InContactIfListed(f, row, col, w);
    }
  }

  lemma ListedIfInContact(f: Field, row: int, col: int, r: int, c: int)
    requires InRange(row) && InRange(col) && InRange(r) && InRange(c)
    requires CellsInContact(row, col, r, c)
    ensures f[r][c] in RowValues(f, row) || f[r][c] in ColValues(f, col)
         || f[r][c] in LocalSquareValues(f, row, col)
  {
    if r == row {
      assert RowValues(f, row)[c] == f[r][c];
    } else if c == col {
      assert ColValues(f, col)[r] == f[r][c];
    } else {
      var k := SquarePlace(row, col, r, c);
      assert LocalSquareValues(f, row, col)[k] == f[r][c];
    }
  }

  /** The place of (r, c) within the local square of (row, col). */
  lemma SquarePlace(row: int, col: int, r: int, c: int) returns (k: int)
    requires InRange(row) && InRange(col) && InRange(r) && InRange(c)
    requires r / 3 == row / 3 && c / 3 == col / 3
    ensures 0 <= k < 9 && SquareStart(row) + k / 3 == r && SquareStart(col) + k % 3 == c
  {
    k := 3 * (r - SquareStart(row)) + (c - SquareStart(col));
  }

  lemma InContactIfListed(f: Field, row: int, col: int, w: int)
    requires InRange(row) && InRange(col)
    requires w in RowValues(f, row) || w in ColValues(f, col) || w in LocalSquareValues(f, row, col)
    ensures ValueInContact(f, row, col, w)
  {
    if w in RowValues(f, row) {
      var i :| 0 <= i < 9 && RowValues(f, row)[i] == w;
      assert CellsInContact(row, col, row, i);
    } else if w in ColValues(f, col) {
      var i :| 0 <= i < 9 && ColValues(f, col)[i] == w;
      assert CellsInContact(row, col, i, col);
    } else {
      var k :| 0 <= k < 9 && LocalSquareValues(f, row, col)[k] == w;
      assert CellsInContact(row, col, SquareStart(row) + k / 3, SquareStart(col) + k % 3);
    }
  }

  /** All cells of one local square yield the same square values. */
  lemma LocalSquareValuesShared(f: Field, r1: int, c1: int, r2: int, c2: int)
    requires InRange(r1) && InRange(c1) && InRange(r2) && InRange(c2)
    requires r1 / LocalSquareSize == r2 / LocalSquareSize
    requires c1 / LocalSquareSize == c2 / LocalSquareSize
    ensures LocalSquareValues(f, r1, c1) == LocalSquareValues(f, r2, c2)
  {
    assert SquareStart(r1) == SquareStart(r2) && SquareStart(c1) == SquareStart(c2);
  }

  /** Writing v into an empty cell h makes v visible from exactly the cells in
      contact with h, and changes nothing else about what is visible. */
  lemma ValueInContactAfterSet(f: Field, hr: int, hc: int, v: int, row: int, col: int, w: int)
    requires InRange(hr) && InRange(hc) && InRange(row) && InRange(col)
    requires f[hr][hc] == Empty && v != Empty && IsPossibleValue(v) && w != Empty
    ensures ValueInContact(SetValue(f, hr, hc, v), row, col, w)
        <==> (ValueInContact(f, row, col, w) || (CellsInContact(row, col, hr, hc) && w == v))
  {
    var g := SetValue(f, hr, hc, v);
    if ValueInContact(g, row, col, w) {
      var r, c :| InRange(r) && InRange(c) && CellsInContact(row, col, r, c) && g[r][c] == w;
      if r != hr || c != hc {
        assert GetValue(g, r, c) == GetValue(f, r, c);
      }
    }
    if ValueInContact(f, row, col, w) {
      var r, c :| InRange(r) && InRange(c) && CellsInContact(row, col, r, c) && f[r][c] == w;
      assert GetValue(g, r, c) == GetValue(f, r, c);
    }
    if CellsInContact(row, col, hr, hc) && w == v {
      assert GetValue(g, hr, hc) == v;
    }
  }
}
