/**
 * The tableau container: a RowNumber x ColNumber buffer of elements
 * (`Matrix` holds floats, `FractionalMatrix` fractions; both are the
 * generic class below). The last row is the objective row and the last
 * column the right-hand side, which is why the swaps may not touch them.
 * The value view of a buffer is a `Grid`, a sequence of equally long rows.
 */
module Matrices {

  type Grid<T> = seq<seq<T>>

  /** `g` has `rows` rows of `cols` entries each. */
  ghost predicate IsGrid<T>(g: Grid<T>, rows: nat, cols: nat) {
    |g| == rows && forall i :: 0 <= i < rows ==> |g[i]| == cols
  }

  /** The grid with column `k` taken out of every row. */
  function DeleteColumnOf<T>(g: Grid<T>, k: nat): (r: Grid<T>)
    requires forall i :: 0 <= i < |g| ==> k < |g[i]|
    ensures |r| == |g|
    ensures forall i :: 0 <= i < |g| ==> |r[i]| == |g[i]| - 1
    ensures forall i, j :: 0 <= i < |g| && 0 <= j < k ==> r[i][j] == g[i][j]
    ensures forall i, j :: 0 <= i < |g| && k <= j < |g[i]| - 1 ==> r[i][j] == g[i][j + 1]
  {
    seq(|g|, i requires 0 <= i < |g| => g[i][..k] + g[i][k + 1..])
  }

  /** Rows `a` and `b` exchanged. */
  function SwapRowsOf<T>(g: Grid<T>, a: nat, b: nat): (r: Grid<T>)
    requires a < |g| && b < |g|
    ensures |r| == |g| && r[a] == g[b] && r[b] == g[a]
    ensures forall i :: 0 <= i < |g| && i != a && i != b ==> r[i] == g[i]
  {
    g[a := g[b]][b := g[a]]
  }

  /** Columns `a` and `b` exchanged in every row. */
  function SwapColumnsOf<T>(g: Grid<T>, a: nat, b: nat): (r: Grid<T>)
    requires forall i :: 0 <= i < |g| ==> a < |g[i]| && b < |g[i]|
    ensures |r| == |g|
    ensures forall i :: 0 <= i < |g| ==>
      |r[i]| == |g[i]| && r[i][a] == g[i][b] && r[i][b] == g[i][a] &&
      forall j :: 0 <= j < |g[i]| && j != a && j != b ==> r[i][j] == g[i][j]
  {
    seq(|g|, i requires 0 <= i < |g| => g[i][a := g[i][b]][b := g[i][a]])
  }

  /** `std::swap` of two entries of a sequence. */
  function Swapped<T>(s: seq<T>, a: nat, b: nat): (r: seq<T>)
    requires a < |s| && b < |s|
    ensures |r| == |s| && r[a] == s[b] && r[b] == s[a]
    ensures forall j :: 0 <= j < |s| && j != a && j != b ==> r[j] == s[j]
  {
    s[a := s[b]][b := s[a]]
  }

  /** A swap keeps the entries, with their multiplicities. */
  lemma SwappedPermutes<T>(s: seq<T>, a: nat, b: nat)
    requires a < |s| && b < |s|
    ensures multiset(Swapped(s, a, b)) == multiset(s)
  {
  }

  /** Swapping two rows twice restores the grid. */
  lemma SwapRowsSelfInverse<T>(g: Grid<T>, a: nat, b: nat)
    requires a < |g| && b < |g|
    ensures SwapRowsOf(SwapRowsOf(g, a, b), a, b) == g
  {
    var r := SwapRowsOf(SwapRowsOf(g, a, b), a, b);
    assert forall i :: 0 <= i < |g| ==> r[i] == g[i];
  }

  /** Swapping two columns twice restores the grid. */
  lemma SwapColumnsSelfInverse<T>(g: Grid<T>, a: nat, b: nat)
    requires forall i :: 0 <= i < |g| ==> a < |g[i]| && b < |g[i]|
    ensures SwapColumnsOf(SwapColumnsOf(g, a, b), a, b) == g
  {
    var r := SwapColumnsOf(SwapColumnsOf(g, a, b), a, b);
    forall i | 0 <= i < |g|
      ensures r[i] == g[i]
    {
      assert forall j :: 0 <= j < |g[i]| ==> r[i][j] == g[i][j];
    }
  }

  /** A row swap only reorders the rows. */
  lemma SwapRowsPermutes<T>(g: Grid<T>, a: nat, b: nat)
    requires a < |g| && b < |g|
    ensures multiset(SwapRowsOf(g, a, b)) == multiset(g)
  {
    if a != b {
      var r := SwapRowsOf(g, a, b);
      calc {
        multiset(r);
        multiset(g[a := g[b]][b := g[a]]);
        multiset(g[a := g[b]]) - multiset{g[a := g[b]][b]} + multiset{g[a]};
        multiset(g) - multiset{g[a]} + multiset{g[b]} - multiset{g[b]} + multiset{g[a]};
        multiset(g);
      }
    }
  }

  /** Row-major storage of a grid: the rows one after another. */
  function Flatten<T>(g: Grid<T>): seq<T>
  {
    if |g| == 0 then [] else Flatten(g[..|g| - 1]) + g[|g| - 1]
  }

  /** In row-major storage, element (i, j) of a rows x cols grid sits at i * cols + j. */
  lemma {:induction false} FlattenIndex<T>(g: Grid<T>, rows: nat, cols: nat, i: nat, j: nat)
    requires IsGrid(g, rows, cols) && i < rows && j < cols
    ensures |Flatten(g)| == rows * cols
    ensures i * cols + j < rows * cols && Flatten(g)[i * cols + j] == g[i][j]
  {
    var p := g[..rows - 1];
    FlattenLength(p, rows - 1, cols);
    assert rows * cols == (rows - 1) * cols + cols;
    if i < rows - 1 {
      FlattenIndex(p, rows - 1, cols, i, j);
    } else {
      assert i * cols == (rows - 1) * cols;
    }
  }

  lemma {:induction false} FlattenLength<T>(g: Grid<T>, rows: nat, cols: nat)
    requires IsGrid(g, rows, cols)
    ensures |Flatten(g)| == rows * cols
  {
    if rows > 0 {
      FlattenLength(g[..rows - 1], rows - 1, cols);
      assert rows * cols == (rows - 1) * cols + cols;
    }
  }

  /** The grid an array of elements holds. */
  ghost function GridOf<T>(a: array2<T>): (g: Grid<T>)
    reads a
    ensures IsGrid(g, a.Length0, a.Length1)
    ensures forall i, j :: 0 <= i < a.Length0 && 0 <= j < a.Length1 ==> g[i][j] == a[i, j]
  {
    RowsOf(a, a.Length0)
  }

  /** The first `n` rows of `a`. */
  ghost function RowsOf<T>(a: array2<T>, n: nat): (g: Grid<T>)
    requires n <= a.Length0
    reads a
    ensures IsGrid(g, n, a.Length1)
    ensures forall i, j :: 0 <= i < n && 0 <= j < a.Length1 ==> g[i][j] == a[i, j]
    decreases n
  {
    if n == 0 then [] else RowsOf(a, n - 1) + [CellsOf(a, n - 1, a.Length1)]
  }

  /** The first `n` cells of row `i` of `a`. */
  ghost function CellsOf<T>(a: array2<T>, i: nat, n: nat): (r: seq<T>)
    requires i < a.Length0 && n <= a.Length1
    reads a
    ensures |r| == n && forall j :: 0 <= j < n ==> r[j] == a[i, j]
    decreases n
  {
    if n == 0 then [] else CellsOf(a, i, n - 1) + [a[i, n - 1]]
  }

  /** An array holds a grid when the two agree cell by cell. */
  lemma GridOfCells<T>(a: array2<T>, g: Grid<T>)
    requires IsGrid(g, a.Length0, a.Length1)
    requires forall i, j :: 0 <= i < a.Length0 && 0 <= j < a.Length1 ==> a[i, j] == g[i][j]
    ensures GridOf(a) == g
  {
    var h := GridOf(a);
    forall i | 0 <= i < a.Length0
      ensures h[i] == g[i]
    {
    }
  }

  /**
   * `Matrix` / `FractionalMatrix`: the buffer and its dimensions. Methods that
   * rebuild the buffer allocate a fresh one, as the source does.
   */
  class Matrix<T(0)> {
    var matrix: array2<T>
    var RowNumber: nat
    var ColNumber: nat

    ghost predicate Valid()
      reads this
    {
      matrix.Length0 == RowNumber && matrix.Length1 == ColNumber
    }

    ghost function Contents(): (g: Grid<T>)
      reads this, matrix
      ensures Valid() ==> IsGrid(g, RowNumber, ColNumber)
    {
      GridOf(matrix)
    }

    /** `Matrix(RowNumber, ColNumber)`: a buffer of the given size. */
    constructor (RowNumber: nat, ColNumber: nat)
      ensures Valid() && fresh(matrix)
      ensures this.RowNumber == RowNumber && this.ColNumber == ColNumber
    {
      this.RowNumber := RowNumber;
      this.ColNumber := ColNumber;
      matrix := new T[RowNumber, ColNumber];
    }

    /** The copy constructor: same dimensions, element-wise equal, own buffer. */
    constructor Copy(mat: Matrix<T>)
      requires mat.Valid()
      ensures Valid() && fresh(matrix)
      ensures RowNumber == mat.RowNumber && ColNumber == mat.ColNumber
      ensures Contents() == mat.Contents()
    {
      RowNumber := mat.RowNumber;
      ColNumber := mat.ColNumber;
      matrix := new T[mat.RowNumber, mat.ColNumber];
      new;
      CopyCells(mat.matrix, matrix);
      GridOfCells(matrix, mat.Contents());
    }

    /** A buffer holding the given grid (the tableau a step carries). */
    constructor FromContents(g: Grid<T>, rows: nat, cols: nat)
      requires IsGrid(g, rows, cols)
      ensures Valid() && fresh(matrix)
      ensures RowNumber == rows && ColNumber == cols && Contents() == g
    {
      RowNumber := rows;
      ColNumber := cols;
      matrix := new T[rows, cols];
      new;
      var i := 0;
      while i < rows
        modifies matrix
        invariant 0 <= i <= rows
        invariant forall i', j :: 0 <= i' < i && 0 <= j < cols ==> matrix[i', j] == g[i'][j]
      {
        var j := 0;
        while j < cols
          modifies matrix
          invariant 0 <= j <= cols
          invariant forall i', j' :: 0 <= i' < i && 0 <= j' < cols ==> matrix[i', j'] == g[i'][j']
          invariant forall j' :: 0 <= j' < j ==> matrix[i, j'] == g[i][j']
        {
          matrix[i, j] := g[i][j];
          j := j + 1;
        }
        i := i + 1;
      }
      GridOfCells(matrix, g);
    }

    /** The grid the buffer holds, as a value (what assigning into a step copies). */
    method Snapshot() returns (g: Grid<T>)
      requires Valid()
      ensures g == Contents()
    {
      g := [];
      var i := 0;
      while i < RowNumber
        invariant 0 <= i <= RowNumber && |g| == i
        invariant forall i' :: 0 <= i' < i ==> g[i'] == Contents()[i']
      {
        var row := [];
        var j := 0;
        while j < ColNumber
          invariant 0 <= j <= ColNumber && |row| == j
          invariant forall j' :: 0 <= j' < j ==> row[j'] == matrix[i, j']
        {
          row := row + [matrix[i, j]];
          j := j + 1;
        }
        g := g + [row];
        i := i + 1;
      }
    }

    /** `operator=`: a fresh buffer with the other matrix's dimensions and elements. */
    method Assign(mat: Matrix<T>)
      requires mat.Valid() && mat != this
      modifies this
      ensures Valid() && fresh(matrix)
      ensures RowNumber == mat.RowNumber && ColNumber == mat.ColNumber
      ensures Contents() == mat.Contents()
    {
      var temp := new T[mat.RowNumber, mat.ColNumber];
      CopyCells(mat.matrix, temp);
      GridOfCells(temp, mat.Contents());
      matrix := temp;
      RowNumber := mat.RowNumber;
      ColNumber := mat.ColNumber;
    }

    /**
     * `DeleteColumn`: copies every element except those of the given column
     * into a buffer one column narrower.
     */
    method DeleteColumn(NumberOfColumn: nat)
      requires Valid() && NumberOfColumn < ColNumber
      modifies this
      ensures Valid() && fresh(matrix)
      ensures RowNumber == old(RowNumber) && ColNumber == old(ColNumber) - 1
      ensures Contents() == DeleteColumnOf(old(Contents()), NumberOfColumn)
    {
      var temp := new T[RowNumber, ColNumber - 1];
      var i := 0;
      while i < RowNumber
        modifies temp
        invariant 0 <= i <= RowNumber
        invariant forall i', j :: 0 <= i' < i && 0 <= j < ColNumber - 1 ==>
          temp[i', j] == matrix[i', if j < NumberOfColumn then j else j + 1]
      {
        CopyRowWithout(temp, i, NumberOfColumn);
        i := i + 1;
      }
      ghost var g := DeleteColumnOf(Contents(), NumberOfColumn);
      GridOfCells(temp, g);
      matrix := temp;
      ColNumber := ColNumber - 1;
    }

    /** The inner loop of `DeleteColumn`: row i of the buffer is row i of the matrix without one column. */
    method CopyRowWithout(temp: array2<T>, i: nat, NumberOfColumn: nat)
      requires Valid() && temp != matrix && NumberOfColumn < ColNumber
      requires temp.Length0 == RowNumber && temp.Length1 == ColNumber - 1 && i < RowNumber
      modifies temp
      ensures forall i', j :: 0 <= i' < RowNumber && i' != i && 0 <= j < ColNumber - 1 ==> temp[i', j] == old(temp[i', j])
      ensures forall j :: 0 <= j < ColNumber - 1 ==> temp[i, j] == matrix[i, if j < NumberOfColumn then j else j + 1]
    {
      var j, jNew := 0, 0;
      while j < ColNumber
        invariant 0 <= j <= ColNumber
        invariant jNew == (if j <= NumberOfColumn then j else j - 1)
        invariant forall i', j' :: 0 <= i' < RowNumber && i' != i && 0 <= j' < ColNumber - 1 ==> temp[i', j'] == old(temp[i', j'])
        invariant forall j' :: 0 <= j' < jNew ==> temp[i, j'] == matrix[i, if j' < NumberOfColumn then j' else j' + 1]
      {
        if j == NumberOfColumn {
          jNew := jNew - 1;
        } else {
          temp[i, jNew] := matrix[i, j];
        }
        j, jNew := j + 1, jNew + 1;
      }
    }

    /** `Resize`: new dimensions over a fresh buffer; the old contents are not kept. */
    method Resize(NewRowNumber: nat, NewColNumber: nat)
      modifies this
      ensures Valid() && fresh(matrix)
      ensures RowNumber == NewRowNumber && ColNumber == NewColNumber
    {
      matrix := new T[NewRowNumber, NewColNumber];
      RowNumber := NewRowNumber;
      ColNumber := NewColNumber;
    }

    /**
     * `operator[](row)`: the offset of the row in row-major storage; the
     * ColNumber elements from there are exactly that row.
     */
    method RowOffset(row: nat) returns (offset: nat)
      requires Valid() && row < RowNumber
      ensures offset == row * ColNumber
      ensures offset + ColNumber <= |Flatten(Contents())|
      ensures Flatten(Contents())[offset..offset + ColNumber] == Contents()[row]
    {
      ghost var g := Contents();
      offset := row * ColNumber;
      FlattenRow(g, RowNumber, ColNumber, row, offset);
    }

    /** `SwapColumns`: exchanges two non-RHS columns in every row. */
    method SwapColumns(IdxC1: nat, IdxC2: nat)
      requires Valid() && IdxC1 < ColNumber - 1 && IdxC2 < ColNumber - 1
      modifies matrix
      ensures Valid()
      ensures Contents() == SwapColumnsOf(old(Contents()), IdxC1, IdxC2)
    {
      ghost var g := SwapColumnsOf(Contents(), IdxC1, IdxC2);
      var i := 0;
      while i < RowNumber
        invariant 0 <= i <= RowNumber
        invariant forall i', j :: 0 <= i' < i && 0 <= j < ColNumber ==> matrix[i', j] == g[i'][j]
        invariant forall i', j :: i <= i' < RowNumber && 0 <= j < ColNumber ==> matrix[i', j] == old(matrix[i', j])
      {
        matrix[i, IdxC1], matrix[i, IdxC2] := matrix[i, IdxC2], matrix[i, IdxC1];
        i := i + 1;
      }
      GridOfCells(matrix, g);
    }

    /** `SwapRows`: exchanges two constraint rows in every column. */
    method SwapRows(IdxR1: nat, IdxR2: nat)
      requires Valid() && IdxR1 < RowNumber - 1 && IdxR2 < RowNumber - 1
      modifies matrix
      ensures Valid()
      ensures Contents() == SwapRowsOf(old(Contents()), IdxR1, IdxR2)
    {
      ghost var g := SwapRowsOf(Contents(), IdxR1, IdxR2);
      var Col := 0;
      while Col < ColNumber
        invariant 0 <= Col <= ColNumber
        invariant forall i, j :: 0 <= i < RowNumber && 0 <= j < Col ==> matrix[i, j] == g[i][j]
        invariant forall i, j :: 0 <= i < RowNumber && Col <= j < ColNumber ==> matrix[i, j] == old(matrix[i, j])
      {
        matrix[IdxR1, Col], matrix[IdxR2, Col] := matrix[IdxR2, Col], matrix[IdxR1, Col];
        Col := Col + 1;
      }
      GridOfCells(matrix, g);
    }
  }

  /** Row i of a grid is the slice of its row-major storage that starts at i * cols. */
  lemma FlattenRow<T>(g: Grid<T>, rows: nat, cols: nat, i: nat, offset: nat)
    requires IsGrid(g, rows, cols) && i < rows && offset == i * cols
    ensures offset + cols <= |Flatten(g)|
    ensures Flatten(g)[offset..offset + cols] == g[i]
  {
    FlattenLength(g, rows, cols);
    RowOffsetBound(i, rows, cols);
    var s := Flatten(g)[offset..offset + cols];
    forall j | 0 <= j < cols
      ensures s[j] == g[i][j]
    {
      FlattenIndex(g, rows, cols, i, j);
    }
    assert s == g[i];
  }

  lemma RowOffsetBound(row: nat, rows: nat, cols: nat)
    requires row < rows
    ensures row * cols + cols <= rows * cols
  {
    assert row * cols + cols == (row + 1) * cols;
  }

  /** The element-wise copy (`memmove`) of one buffer into another of the same shape. */
  method CopyCells<T>(src: array2<T>, dst: array2<T>)
    requires src.Length0 == dst.Length0 && src.Length1 == dst.Length1 && src != dst
    modifies dst
    ensures forall i, j :: 0 <= i < dst.Length0 && 0 <= j < dst.Length1 ==> dst[i, j] == src[i, j]
  {
    var i := 0;
    while i < src.Length0
      invariant 0 <= i <= src.Length0
      invariant forall i', j :: 0 <= i' < i && 0 <= j < src.Length1 ==> dst[i', j] == src[i', j]
    {
      var j := 0;
      while j < src.Length1
        invariant 0 <= j <= src.Length1
        invariant forall i', j' :: 0 <= i' < i && 0 <= j' < src.Length1 ==> dst[i', j'] == src[i', j']
        invariant forall j' :: 0 <= j' < j ==> dst[i, j'] == src[i, j']
      {
        dst[i, j] := src[i, j];
        j := j + 1;
      }
      i := i + 1;
    }
  }
}
