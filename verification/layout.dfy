/** Index arithmetic of the two ways a hall's rows x cols grid is walked.

    Row-major: row 0 left to right, then row 1 left to right, and so on.
    Serpentine ("S-pattern"): rows alternate direction. A row runs forward
    (left to right) when its parity is even, unless the whole walk is flipped,
    in which case odd rows run forward. The placement of University students
    walks unflipped; the continuous seat numbering flips the walk when a hall
    continues the numbering of an earlier hall with the same base code. */
module Layout {

  predicate Forward(r: nat, flip: bool)
  {
    (r % 2 == 0) != flip
  }

  /** The column of the j-th cell visited in row r. */
  function SerpCol(r: nat, j: nat, cols: nat, flip: bool): (c: nat)
    requires j < cols
    ensures c < cols
  {
    if Forward(r, flip) then j else cols - 1 - j
  }

  /** Position of cell (r, c) in the serpentine walk. */
  function SerpIndex(r: nat, c: nat, cols: nat, flip: bool): nat
    requires c < cols
  {
    r * cols + SerpCol(r, c, cols, flip)
  }

  /** Position of cell (r, c) in the row-major walk. */
  function RowMajor(r: nat, c: nat, cols: nat): nat
  {
    r * cols + c
  }

  /** Row of the k-th cell visited, in either walk. */
  function RowOf(k: nat, cols: nat): nat
    requires cols > 0
  {
    k / cols
  }

  /** Column of the k-th cell visited in the row-major walk. */
  function ColOf(k: nat, cols: nat): nat
    requires cols > 0
  {
    k % cols
  }

  /** Column of the k-th cell visited in the serpentine walk. */
  function SerpColOf(k: nat, cols: nat, flip: bool): nat
    requires cols > 0
  {
    SerpCol(k / cols, k % cols, cols, flip)
  }

  lemma DivModOf(r: nat, j: nat, cols: nat)
    requires j < cols
    ensures (r * cols + j) / cols == r && (r * cols + j) % cols == j
  {
    var k := r * cols + j;
    var q, m := k / cols, k % cols;
    assert k == q * cols + m && 0 <= m < cols;
    if q < r {
      MulSplit(q, r - q, cols);
    } else if q > r {
      MulSplit(r, q - r, cols);
    }
  }

  lemma MulSplit(a: nat, d: nat, cols: nat)
    requires d >= 1
    ensures (a + d) * cols >= a * cols + cols
  {
    assert (a + d) * cols == a * cols + d * cols;
    assert d * cols >= cols;
  }

  lemma NextRow(r: nat, cols: nat)
    ensures (r + 1) * cols == r * cols + cols
  {
  }

  /** Cells of rows before r come before every cell of row r in either walk. */
  lemma RowBound(r: nat, c: nat, rows: nat, cols: nat)
    requires r < rows && c < cols
    ensures r * cols + c < rows * cols
  {
    assert (r + 1) * cols <= rows * cols;
  }

  /** The serpentine walk is a numbering of the grid: it stays inside
      0 .. rows*cols - 1, and no two cells share a position. */
  lemma {:induction false} SerpIndexBijective(r1: nat, c1: nat, r2: nat, c2: nat, rows: nat, cols: nat, flip: bool)
    requires r1 < rows && c1 < cols && r2 < rows && c2 < cols
    ensures SerpIndex(r1, c1, cols, flip) < rows * cols
    ensures SerpIndex(r1, c1, cols, flip) == SerpIndex(r2, c2, cols, flip) ==> r1 == r2 && c1 == c2
  {
    var j1, j2 := SerpCol(r1, c1, cols, flip), SerpCol(r2, c2, cols, flip);
    RowBound(r1, j1, rows, cols);
    DivModOf(r1, j1, cols);
    DivModOf(r2, j2, cols);
  }

  /** Every position of the walk is the position of some cell: the k-th cell
      visited lies in row k / cols. */
  lemma SerpIndexOnto(k: nat, rows: nat, cols: nat, flip: bool)
    requires k < rows * cols
    ensures cols > 0 && RowOf(k, cols) < rows && SerpColOf(k, cols, flip) < cols
    ensures SerpIndex(RowOf(k, cols), SerpColOf(k, cols, flip), cols, flip) == k
  {
    assert cols > 0;
    DivModOf(k / cols, k % cols, cols);
    if k / cols >= rows {
      MulSplit(rows, k / cols - rows, cols);
    }
  }

  lemma {:induction false} RowMajorBijective(r1: nat, c1: nat, r2: nat, c2: nat, rows: nat, cols: nat)
    requires r1 < rows && c1 < cols && r2 < rows && c2 < cols
    ensures RowMajor(r1, c1, cols) < rows * cols
    ensures RowMajor(r1, c1, cols) == RowMajor(r2, c2, cols) ==> r1 == r2 && c1 == c2
  {
    RowBound(r1, c1, rows, cols);
    DivModOf(r1, c1, cols);
    DivModOf(r2, c2, cols);
  }

  lemma RowMajorOnto(k: nat, rows: nat, cols: nat)
    requires k < rows * cols
    ensures cols > 0 && RowOf(k, cols) < rows && ColOf(k, cols) < cols
    ensures RowMajor(RowOf(k, cols), ColOf(k, cols), cols) == k
  {
    SerpIndexOnto(k, rows, cols, false);
  }

  /** The j-th step along row r of the unflipped walk lands on the column
      `range(cols)` or `range(cols - 1, -1, -1)` gives it, at position
      r * cols + j, and no other cell of the grid has that position. */
  lemma PlaceStep(r: nat, j: nat, rows: nat, cols: nat)
    requires r < rows && j < cols
    ensures var c := if r % 2 == 0 then j else cols - 1 - j;
            c < cols && SerpIndex(r, c, cols, false) == r * cols + j
            && RowOf(r * cols + j, cols) == r && SerpColOf(r * cols + j, cols, false) == c
    ensures var c := if r % 2 == 0 then j else cols - 1 - j;
            forall r', c' :: 0 <= r' < rows && 0 <= c' < cols && (r' != r || c' != c) ==>
              SerpIndex(r', c', cols, false) != r * cols + j
  {
    var c := if r % 2 == 0 then j else cols - 1 - j;
    DivModOf(r, j, cols);
    forall r', c' | 0 <= r' < rows && 0 <= c' < cols && (r' != r || c' != c)
      ensures SerpIndex(r', c', cols, false) != r * cols + j
    {
      SerpIndexBijective(r', c', r, c, rows, cols, false);
    }
  }
}
