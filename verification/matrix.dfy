/**
  The fixed-size two-dimensional array of the 2DArray challenge: a Matrix of `rows` Row objects of
  `cols` cells each, bounds-checked indexing, the filler, initializer-list, copy and move
  constructors, and a forward iterator over (row, col) that wraps at `cols`.

  The template arguments become the `rows` and `cols` fields. A zero-length C++ array does not
  compile, so `cols` is at least 1. A moved-from matrix has no storage (`data == None`).
*/
module Matrix2D {
  import opened Outcome

  const InvalidRow: string := "Invalid row index."
  const InvalidColumn: string := "Invalid column index."
  const OverCapacity: string := "Number of items is more than matrix capacity."

  /** std::out_of_range with its message. */
  datatype IndexError = OutOfRange(message: string)

  datatype Matrix<T> = Matrix(rows: nat, cols: nat, data: Option<seq<seq<T>>>)

  /** `rows` rows of `cols` cells each. */
  predicate Shape<T>(cells: seq<seq<T>>, rows: nat, cols: nat) {
    |cells| == rows && forall i :: 0 <= i < rows ==> |cells[i]| == cols
  }

  predicate Valid<T>(m: Matrix<T>) {
    m.cols > 0 && (m.data.Some? ==> Shape(m.data.value, m.rows, m.cols))
  }

  function Fill<T>(n: nat, x: T): (s: seq<T>)
    ensures |s| == n && forall i :: 0 <= i < n ==> s[i] == x
  {
    seq(n, _ => x)
  }

  /** The cells in row-major order. */
  function Flatten<T>(cells: seq<seq<T>>): seq<T>
  {
    if |cells| == 0 then [] else cells[0] + Flatten(cells[1..])
  }

  // ---------------------------------------------------------------------------------------------
  // Row-major layout
  // ---------------------------------------------------------------------------------------------

  lemma {:induction false} FlattenAppend<T>(a: seq<seq<T>>, b: seq<seq<T>>)
    ensures Flatten(a + b) == Flatten(a) + Flatten(b)
  {
    if |a| > 0 {
      assert (a + b)[1..] == a[1..] + b;
      FlattenAppend(a[1..], b);
    } else {
      assert a + b == b;
    }
  }

  lemma {:induction false} FlattenLength<T>(cells: seq<seq<T>>, rows: nat, cols: nat)
    requires Shape(cells, rows, cols)
    ensures |Flatten(cells)| == rows * cols
  {
    if rows > 0 {
      FlattenLength(cells[1..], rows - 1, cols);
      assert (rows - 1) * cols + cols == rows * cols;
    }
  }

  lemma FlattenSingle<T>(row: seq<T>)
    ensures Flatten([row]) == row
  {
    assert [row][1..] == [];
  }

  /** Row r sits between the rows before it and the rows after it. */
  lemma {:induction false} FlattenSplit<T>(cells: seq<seq<T>>, r: nat)
    requires r < |cells|
    ensures Flatten(cells) == Flatten(cells[..r]) + cells[r] + Flatten(cells[r + 1..])
  {
    var before, after := cells[..r], cells[r + 1..];
    var upTo := before + [cells[r]];
    assert cells == upTo + after;
    FlattenAppend(upTo, after);
    assert Flatten(upTo) == Flatten(before) + cells[r] by {
      FlattenAppend(before, [cells[r]]);
      FlattenSingle(cells[r]);
    }
  }

  /** Cell (i, j) is element i * cols + j of the row-major order. */
  lemma FlattenIndex<T>(cells: seq<seq<T>>, rows: nat, cols: nat, i: nat, j: nat)
    requires Shape(cells, rows, cols) && i < rows && j < cols
    ensures |Flatten(cells)| == rows * cols
    ensures i * cols + j < rows * cols && Flatten(cells)[i * cols + j] == cells[i][j]
  {
    FlattenSplit(cells, i);
    FlattenLength(cells[..i], i, cols);
    FlattenLength(cells, rows, cols);
  }

  /** Writing cell (i, j) writes element i * cols + j of the row-major order. */
  lemma FlattenUpdate<T>(cells: seq<seq<T>>, rows: nat, cols: nat, i: nat, j: nat, x: T)
    requires Shape(cells, rows, cols) && i < rows && j < cols
    ensures |Flatten(cells)| == rows * cols && i * cols + j < rows * cols
    ensures Flatten(cells[i := cells[i][j := x]]) == Flatten(cells)[i * cols + j := x]
  {
    var updated := cells[i := cells[i][j := x]];
    FlattenIndex(cells, rows, cols, i, j);
    FlattenSplit(cells, i);
    FlattenSplit(updated, i);
    assert updated[..i] == cells[..i] && updated[i + 1..] == cells[i + 1..];
    FlattenLength(cells[..i], i, cols);
  }

  lemma {:induction false} MulMono(a: nat, b: nat, c: nat)
    requires a <= b
    ensures a * c <= b * c
    decreases b - a
  {
    if a < b {
      MulMono(a, b - 1, c);
      assert (b - 1) * c + c == b * c;
    }
  }

  /** A flat position below rows * cols lies in one of the rows. */
  lemma RowInRange(row: nat, col: nat, rows: nat, cols: nat)
    requires row * cols + col < rows * cols
    ensures row < rows
  {
    if row >= rows {
      MulMono(rows, row, cols);
    }
  }

  // ---------------------------------------------------------------------------------------------
  // Indexing
  // ---------------------------------------------------------------------------------------------

  /** Matrix::operator[]: the row, or out_of_range for an index below 0 or from `rows` on. */
  function RowAt<T>(m: Matrix<T>, r: int): (res: Result<seq<T>, IndexError>)
    requires Valid(m) && m.data.Some?
    ensures res.Err? <==> r < 0 || r >= m.rows
    ensures res.Err? ==> res.error == OutOfRange(InvalidRow)
    ensures res.Ok? ==> |res.value| == m.cols
  {
    if r < 0 || r >= m.rows then Err(OutOfRange(InvalidRow)) else Ok(m.data.value[r])
  }

  /** Row::operator[]: the cell, or out_of_range for an index below 0 or from `cols` on. */
  function ColumnAt<T>(row: seq<T>, c: int): (res: Result<T, IndexError>)
    ensures res.Err? <==> c < 0 || c >= |row|
    ensures res.Err? ==> res.error == OutOfRange(InvalidColumn)
  {
    if c < 0 || c >= |row| then Err(OutOfRange(InvalidColumn)) else Ok(row[c])
  }

  /** mat[r][c]: the row check first, then the column check; it succeeds exactly inside the matrix. */
  function At<T>(m: Matrix<T>, r: int, c: int): (res: Result<T, IndexError>)
    requires Valid(m) && m.data.Some?
    ensures res.Ok? <==> 0 <= r < m.rows && 0 <= c < m.cols
  {
    match RowAt(m, r)
    case Err(e) => Err(e)
    case Ok(row) => ColumnAt(row, c)
  }

  /**
    mat[r][c] fails with the row message for a bad row (whatever the column), with the column
    message for a good row and a bad column, and otherwise gives element r * cols + c of the
    row-major order.
  */
  lemma AtIsRowMajor<T>(m: Matrix<T>, r: int, c: int)
    requires Valid(m) && m.data.Some?
    ensures r < 0 || r >= m.rows ==> At(m, r, c) == Err(OutOfRange(InvalidRow))
    ensures 0 <= r < m.rows && (c < 0 || c >= m.cols) ==> At(m, r, c) == Err(OutOfRange(InvalidColumn))
    ensures 0 <= r < m.rows && 0 <= c < m.cols ==>
      r * m.cols + c < |Flatten(m.data.value)| == m.rows * m.cols &&
      At(m, r, c) == Ok(Flatten(m.data.value)[r * m.cols + c])
  {
    if 0 <= r < m.rows && 0 <= c < m.cols {
      FlattenIndex(m.data.value, m.rows, m.cols, r, c);
    }
  }

  // ---------------------------------------------------------------------------------------------
  // Constructors
  // ---------------------------------------------------------------------------------------------

  /** Matrix(filler): every one of the rows * cols cells holds the filler. */
  function Filled<T>(rows: nat, cols: nat, filler: T): (m: Matrix<T>)
    requires cols > 0
    ensures Valid(m) && m.rows == rows && m.cols == cols && m.data.Some?
    ensures forall i, j :: 0 <= i < rows && 0 <= j < cols ==> m.data.value[i][j] == filler
  {
    Matrix(rows, cols, Some(seq(rows, _ => Fill(cols, filler))))
  }

  lemma {:induction false} FlattenFilled<T>(rows: nat, cols: nat, x: T)
    requires cols > 0
    ensures Flatten(Filled(rows, cols, x).data.value) == Fill(rows * cols, x)
  {
    var cells := Filled(rows, cols, x).data.value;
    if rows > 0 {
      assert cells[1..] == Filled(rows - 1, cols, x).data.value;
      FlattenFilled(rows - 1, cols, x);
      assert (rows - 1) * cols + cols == rows * cols;
      assert Fill(cols, x) + Fill((rows - 1) * cols, x) == Fill(rows * cols, x);
    }
  }

  /** Placing item k on the zero-filled rest moves the boundary one to the right. */
  lemma PlaceNext<T>(lst: seq<T>, k: nat, n: nat, zero: T)
    requires k < |lst| && k < n
    ensures (lst[..k] + Fill(n - k, zero))[k := lst[k]] == lst[..k + 1] + Fill(n - k - 1, zero)
  {
  }

  /**
    Matrix(initializer_list): out_of_range when there are more items than cells; otherwise the
    items are stored in row-major order, a column counter wrapping to the next row at `cols`, and
    the remaining cells keep the value-initialised T{} (`zero`).
  */
  method FromList<T>(rows: nat, cols: nat, lst: seq<T>, zero: T) returns (res: Result<Matrix<T>, IndexError>)
    requires cols > 0
    ensures res.Err? <==> |lst| > rows * cols
    ensures res.Err? ==> res.error == OutOfRange(OverCapacity)
    ensures res.Ok? ==>
      Valid(res.value) && res.value.rows == rows && res.value.cols == cols && res.value.data.Some? &&
      Flatten(res.value.data.value) == lst + Fill(rows * cols - |lst|, zero)
  {
    if |lst| > rows * cols {
      return Err(OutOfRange(OverCapacity));
    }
    var cells := Filled(rows, cols, zero).data.value;
    FlattenFilled(rows, cols, zero);
    var r: nat, c: nat, k: nat := 0, 0, 0;
    while k < |lst|
      invariant k <= |lst| && c <= cols && k == r * cols + c
      invariant Shape(cells, rows, cols)
      invariant Flatten(cells) == lst[..k] + Fill(rows * cols - k, zero)
    {
      if c >= cols {
        c, r := 0, r + 1;
        assert r * cols == (r - 1) * cols + cols;
      }
      RowInRange(r, c, rows, cols);
      FlattenUpdate(cells, rows, cols, r, c, lst[k]);
      PlaceNext(lst, k, rows * cols, zero);
      cells := cells[r := cells[r][c := lst[k]]];
      c, k := c + 1, k + 1;
    }
    assert lst[..k] == lst;
    return Ok(Matrix(rows, cols, Some(cells)));
  }

  /** Item k of the list lands in row k / cols, column k % cols. */
  lemma FromListPlacesItem<T>(m: Matrix<T>, lst: seq<T>, zero: T, k: nat)
    requires Valid(m) && m.data.Some? && |lst| <= m.rows * m.cols
    requires Flatten(m.data.value) == lst + Fill(m.rows * m.cols - |lst|, zero)
    requires k < |lst|
    ensures k / m.cols < m.rows && m.data.value[k / m.cols][k % m.cols] == lst[k]
  {
    var i, j := k / m.cols, k % m.cols;
    assert k == i * m.cols + j;
    RowInRange(i, j, m.rows, m.cols);
    FlattenIndex(m.data.value, m.rows, m.cols, i, j);
  }

  /** The cells after the list keep T{}. */
  lemma FromListKeepsRest<T>(m: Matrix<T>, lst: seq<T>, zero: T, i: nat, j: nat)
    requires Valid(m) && m.data.Some? && |lst| <= m.rows * m.cols
    requires Flatten(m.data.value) == lst + Fill(m.rows * m.cols - |lst|, zero)
    requires i < m.rows && j < m.cols && i * m.cols + j >= |lst|
    ensures m.data.value[i][j] == zero
  {
    FlattenIndex(m.data.value, m.rows, m.cols, i, j);
  }

  /**
    Matrix(const Matrix&): storage of T{} filled cell by cell from the source, row by row; the
    copy is element-wise equal to the source.
  */
  method CopyOf<T>(m: Matrix<T>, zero: T) returns (copy: Matrix<T>)
    requires Valid(m) && m.data.Some?
    ensures Valid(copy) && copy.rows == m.rows && copy.cols == m.cols && copy.data.Some?
    ensures forall i, j :: 0 <= i < m.rows && 0 <= j < m.cols ==> copy.data.value[i][j] == m.data.value[i][j]
  {
    var source := m.data.value;
    var cells := Filled(m.rows, m.cols, zero).data.value;
    for r := 0 to m.rows
      invariant Shape(cells, m.rows, m.cols)
      invariant forall i, j :: 0 <= i < r && 0 <= j < m.cols ==> cells[i][j] == source[i][j]
    {
      for c := 0 to m.cols
        invariant Shape(cells, m.rows, m.cols)
        invariant forall i, j :: 0 <= i < r && 0 <= j < m.cols ==> cells[i][j] == source[i][j]
        invariant forall j :: 0 <= j < c ==> cells[r][j] == source[r][j]
      {
        cells := cells[r := cells[r][c := source[r][c]]];
      }
    }
    copy := Matrix(m.rows, m.cols, Some(cells));
  }

  /** Matrix(Matrix&&): the new matrix takes the source's storage and the source is left without. */
  function Move<T>(m: Matrix<T>): (out: (Matrix<T>, Matrix<T>))
    ensures out.0.data == m.data && out.1.data.None?
    ensures out.0.rows == out.1.rows == m.rows && out.0.cols == out.1.cols == m.cols
  {
    (m, m.(data := None))
  }

  /** A moved-to matrix is indexed exactly like its source was. */
  lemma MovePreservesCells<T>(m: Matrix<T>, r: int, c: int)
    requires Valid(m) && m.data.Some?
    ensures Valid(Move(m).0) && Valid(Move(m).1) && At(Move(m).0, r, c) == At(m, r, c)
  {
  }

  // ---------------------------------------------------------------------------------------------
  // The iterator
  // ---------------------------------------------------------------------------------------------

  /** Matrix::Iterator: the matrix it points into (an address) and a (row, col) position. */
  datatype Iterator = Iterator(owner: nat, row: int, col: int)

  /** The position of an iterator in row-major order. */
  function Position(it: Iterator, cols: nat): int {
    it.row * cols + it.col
  }

  /** incrementIndex, as prefix ++ does it: the column advances and wraps to the next row at cols. */
  function Increment(it: Iterator, cols: nat): (next: Iterator)
    requires cols > 0
    ensures next.owner == it.owner
    ensures 0 <= it.col < cols ==> 0 <= next.col < cols && Position(next, cols) == Position(it, cols) + 1
    ensures 0 <= it.col < cols ==> next.row == it.row || (next.row == it.row + 1 && next.col == 0)
  {
    var col := it.col + 1;
    if col == cols then
      assert (it.row + 1) * cols == it.row * cols + cols;
      it.(row := it.row + 1, col := 0)
    else it.(col := col)
  }

  /** Postfix ++: the iterator before the increment, and the advanced one. */
  function PostIncrement(it: Iterator, cols: nat): (out: (Iterator, Iterator))
    requires cols > 0
    ensures out.0 == it
    ensures 0 <= it.col < cols ==> Position(out.1, cols) == Position(it, cols) + 1
  {
    (it, Increment(it, cols))
  }

  /**
    operator==: row and column only, so iterators into different matrices compare equal at the
    same position.
  */
  predicate IterEqual(a: Iterator, b: Iterator)
    ensures IterEqual(a, b) <==> a.(owner := b.owner) == b
  {
    a.row == b.row && a.col == b.col
  }

  /** begin(): the first cell in row-major order. */
  function Begin<T>(m: Matrix<T>, owner: nat): (it: Iterator)
    ensures it.owner == owner && Position(it, m.cols) == 0 && it.col == 0
  {
    Iterator(owner, 0, 0)
  }

  /**
    end(): one past the last cell in row-major order, at column 0 of row Rows; it equals begin()
    exactly when the matrix has no rows.
  */
  function End<T>(m: Matrix<T>, owner: nat): (it: Iterator)
    ensures it.owner == owner && Position(it, m.cols) == m.rows * m.cols && it.col == 0
    ensures IterEqual(Begin(m, owner), it) <==> m.rows == 0
  {
    Iterator(owner, m.rows, 0)
  }

  /**
    operator*: `mat->data[row][col]`. The row index goes to the raw array of rows unchecked (out
    of range it is undefined behaviour, so the caller must keep it in range); the column goes
    through Row::operator[], which throws "Invalid column index." out of range. In range it is
    the cell at the iterator's row-major position.
  */
  function Deref<T>(m: Matrix<T>, it: Iterator): (res: Result<T, IndexError>)
    requires Valid(m) && m.data.Some?
    requires 0 <= it.row < m.rows
    ensures res.Err? <==> it.col < 0 || it.col >= m.cols
    ensures res.Err? ==> res.error == OutOfRange(InvalidColumn)
    ensures res.Ok? ==>
      Position(it, m.cols) < |Flatten(m.data.value)| && res.value == Flatten(m.data.value)[Position(it, m.cols)]
  {
    var res := ColumnAt(m.data.value[it.row], it.col);
    if res.Ok? then
      FlattenIndex(m.data.value, m.rows, m.cols, it.row, it.col);
      res
    else res
  }

  /**
    `for (it = begin(); it != end(); ++it) *it`: the loop visits rows * cols cells, in row-major
    order, and stops exactly at end().
  */
  method Traverse<T>(m: Matrix<T>, owner: nat) returns (visited: seq<T>, steps: nat)
    requires Valid(m) && m.data.Some?
    ensures visited == Flatten(m.data.value) && steps == |visited| == m.rows * m.cols
  {
    var cells := m.data.value;
    var it := Begin(m, owner);
    visited, steps := [], 0;
    while !IterEqual(it, End(m, owner))
      invariant 0 <= it.row <= m.rows && 0 <= it.col < m.cols
      invariant it.row == m.rows ==> it.col == 0
      invariant it.row < m.rows ==> visited == Flatten(cells[..it.row]) + cells[it.row][..it.col]
      invariant it.row == m.rows ==> visited == Flatten(cells[..it.row])
      invariant steps == |visited|
      decreases m.rows - it.row, m.cols - it.col
    {
      visited := visited + [Deref(m, it).value];
      steps := steps + 1;
      assert cells[it.row][..it.col] + [cells[it.row][it.col]] == cells[it.row][..it.col + 1];
      if it.col + 1 == m.cols {
        assert cells[it.row][..it.col + 1] == cells[it.row];
        FlattenAppend(cells[..it.row], [cells[it.row]]);
        assert cells[..it.row + 1] == cells[..it.row] + [cells[it.row]];
        assert Flatten([cells[it.row]]) == cells[it.row] + Flatten([]);
        if it.row + 1 < m.rows {
          assert cells[it.row + 1][..0] == [];
        }
      }
      it := Increment(it, m.cols);
    }
    assert cells[..m.rows] == cells;
    FlattenLength(cells, m.rows, m.cols);
  }

  /**
    std::fill(begin(), end(), v): every cell the iterator passes is set to v, which gives the
    matrix the filler constructor makes.
  */
  method FillThrough<T>(m: Matrix<T>, owner: nat, v: T) returns (filled: Matrix<T>)
    requires Valid(m) && m.data.Some?
    ensures filled == Filled(m.rows, m.cols, v)
  {
    var cells := m.data.value;
    var it := Begin(m, owner);
    while !IterEqual(it, End(m, owner))
      invariant 0 <= it.row <= m.rows && 0 <= it.col < m.cols
      invariant it.row == m.rows ==> it.col == 0
      invariant Shape(cells, m.rows, m.cols)
      invariant forall i, j :: 0 <= i < m.rows && 0 <= j < m.cols && (i < it.row || (i == it.row && j < it.col)) ==>
        cells[i][j] == v
      decreases m.rows - it.row, m.cols - it.col
    {
      cells := cells[it.row := cells[it.row][it.col := v]];
      it := Increment(it, m.cols);
    }
    forall i | 0 <= i < m.rows
      ensures cells[i] == Fill(m.cols, v)
    {
      assert forall j :: 0 <= j < m.cols ==> cells[i][j] == v;
    }
    assert cells == seq(m.rows, _ => Fill(m.cols, v));
    filled := Matrix(m.rows, m.cols, Some(cells));
  }
}
