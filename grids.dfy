/** Rectangular grids of cells, indexed [row][column] like the numpy arrays
    the notebooks keep their forest in, and the whole-array numpy operations
    the temperature post-processing applies to them (`+=`, `np.max`,
    `np.flip(...).T`). */
module Grids {

  type Grid<T> = seq<seq<T>>

  /** g has `rows` rows of `cols` cells each. */
  predicate IsGrid<T>(g: Grid<T>, rows: nat, cols: nat) {
    |g| == rows && forall i :: 0 <= i < rows ==> |g[i]| == cols
  }

  /** The number of columns of a grid (that of its first row). */
  function Cols<T>(g: Grid<T>): nat {
    if |g| == 0 then 0 else |g[0]|
  }

  /** Every row has as many cells as the first: a numpy 2-D array. */
  predicate IsRect<T>(g: Grid<T>) {
    IsGrid(g, |g|, Cols(g))
  }

  /** At least one row and one column: what `np.max` needs. */
  predicate NonEmpty<T>(g: Grid<T>) {
    IsRect(g) && |g| > 0 && Cols(g) > 0
  }

  /** A grid of the given shape with every cell `v`; stands for the buffer
      `np.empty_like` allocates, whose every cell is then overwritten. */
  function Filled<T>(rows: nat, cols: nat, v: T): (g: Grid<T>)
    ensures IsGrid(g, rows, cols)
  {
    seq(rows, _ => seq(cols, _ => v))
  }

  /** The transpose `g.T`: cell [i][j] of the result is cell [j][i] of g. */
  function Transposed<T>(g: Grid<T>): (r: Grid<T>)
    requires IsRect(g)
    ensures IsGrid(r, Cols(g), |g|)
  {
    var rows, cols := |g|, Cols(g);
    seq(cols, i requires 0 <= i < cols => seq(rows, j requires 0 <= j < rows => g[j][i]))
  }

  /** Two grids of one shape that agree cell by cell are equal. */
  lemma SameCells<T>(a: Grid<T>, b: Grid<T>, rows: nat, cols: nat)
    requires IsGrid(a, rows, cols) && IsGrid(b, rows, cols)
    requires forall i, j :: 0 <= i < rows && 0 <= j < cols ==> a[i][j] == b[i][j]
    ensures a == b
  {
    forall i | 0 <= i < rows
      ensures a[i] == b[i]
    {
    }
  }

  /** m is the largest cell of t and some cell holds it. */
  ghost predicate IsGridMax(t: Grid<int>, m: int) {
    && (exists i, j :: 0 <= i < |t| && 0 <= j < |t[i]| && t[i][j] == m)
    && (forall i, j :: 0 <= i < |t| && 0 <= j < |t[i]| ==> t[i][j] <= m)
  }

  /** The position of a largest cell of a non-empty row. */
  function RowArgMax(row: seq<int>): (k: nat)
    requires |row| > 0
    ensures k < |row|
    ensures forall j :: 0 <= j < |row| ==> row[j] <= row[k]
  {
    if |row| == 1 then 0
    else
      var k := RowArgMax(row[..|row| - 1]);
      if row[|row| - 1] > row[k] then |row| - 1 else k
  }

  /** The position (row, column) of a largest cell of a non-empty grid. */
  function GridArgMax(t: Grid<int>): (p: (nat, nat))
    requires |t| > 0 && forall i :: 0 <= i < |t| ==> |t[i]| > 0
    ensures p.0 < |t| && p.1 < |t[p.0]|
    ensures forall i, j :: 0 <= i < |t| && 0 <= j < |t[i]| ==> t[i][j] <= t[p.0][p.1]
  {
    if |t| == 1 then (0, RowArgMax(t[0]))
    else
      var p := GridArgMax(t[..|t| - 1]);
      var k := RowArgMax(t[|t| - 1]);
      if t[|t| - 1][k] > t[p.0][p.1] then (|t| - 1, k) else p
  }

  /** `np.max(t)`. */
  function GridMax(t: Grid<int>): (m: int)
    requires NonEmpty(t)
    ensures IsGridMax(t, m)
  {
    var p := GridArgMax(t);
    assert t[p.0][p.1] == t[p.0][p.1];
    t[p.0][p.1]
  }

  /** `t += highest - np.max(t)`: every cell moves by the same amount, chosen
      so that the largest cell becomes exactly `highest`. */
  function Shifted(t: Grid<int>, highest: int): (r: Grid<int>)
    requires NonEmpty(t)
    ensures IsGrid(r, |t|, Cols(t)) && NonEmpty(r)
    ensures IsGridMax(r, highest)
    ensures forall i, j :: 0 <= i < |t| && 0 <= j < |t[i]| ==> r[i][j] - t[i][j] == r[0][0] - t[0][0]
  {
    var d := highest - GridMax(t);
    var r := seq(|t|, i requires 0 <= i < |t| => seq(|t[i]|, j requires 0 <= j < |t[i]| => t[i][j] + d));
    var p := GridArgMax(t);
    assert r[p.0][p.1] == highest;
    r
  }

  /** `np.flip(t).T`: flipping both axes and then transposing sends the cell
      at (i, j) of the result to (rows-1-j, cols-1-i) of t. */
  function FlipTransposed(t: Grid<int>): (r: Grid<int>)
    requires IsRect(t)
    ensures IsGrid(r, Cols(t), |t|)
    ensures forall i, j :: 0 <= i < Cols(t) && 0 <= j < |t| ==> r[i][j] == t[|t| - 1 - j][Cols(t) - 1 - i]
  {
    var rows, cols := |t|, Cols(t);
    seq(cols, i requires 0 <= i < cols => seq(rows, j requires 0 <= j < rows => t[rows - 1 - j][cols - 1 - i]))
  }

  /** Flipping and transposing twice gives back the grid: the rearrangement
      is a bijection on cells. */
  lemma FlipTransposedInvolution(t: Grid<int>)
    requires NonEmpty(t)
    ensures FlipTransposed(FlipTransposed(t)) == t
  {
    var r := FlipTransposed(t);
    var r2 := FlipTransposed(r);
    assert Cols(r) == |t|;
    forall i | 0 <= i < |t|
      ensures r2[i] == t[i]
    {
      forall j | 0 <= j < Cols(t)
        ensures r2[i][j] == t[i][j]
      {
        assert r2[i][j] == r[Cols(t) - 1 - j][|t| - 1 - i];
      }
    }
  }

  /** The largest temperature survives the flip and transpose. */
  lemma FlipTransposedKeepsMax(t: Grid<int>, m: int)
    requires NonEmpty(t) && IsGridMax(t, m)
    ensures NonEmpty(FlipTransposed(t)) && IsGridMax(FlipTransposed(t), m)
  {
    var rows, cols := |t|, Cols(t);
    var r := FlipTransposed(t);
    var a, b :| 0 <= a < rows && 0 <= b < |t[a]| && t[a][b] == m;
    assert r[cols - 1 - b][rows - 1 - a] == m;
    forall i, j | 0 <= i < |r| && 0 <= j < |r[i]|
      ensures r[i][j] <= m
    {
      assert r[i][j] == t[rows - 1 - j][cols - 1 - i];
    }
  }

  /** The cells of t that hold the value v. */
  ghost function CellsWith(t: Grid<int>, v: int): set<(int, int)> {
    set i, j | 0 <= i < |t| && 0 <= j < |t[i]| && t[i][j] == v :: (i, j)
  }

  /** Where flip-and-transpose sends the cell p of a rows x cols grid. */
  function Mirror(rows: int, cols: int, p: (int, int)): (int, int) {
    (cols - 1 - p.1, rows - 1 - p.0)
  }

  ghost function MirrorImage(s: set<(int, int)>, rows: int, cols: int): set<(int, int)> {
    set p | p in s :: Mirror(rows, cols, p)
  }

  lemma {:induction false} MirrorImageSize(s: set<(int, int)>, rows: int, cols: int)
    ensures |MirrorImage(s, rows, cols)| == |s|
  {
    if s != {} {
      var a :| a in s;
      var s' := s - {a};
      MirrorImageSize(s', rows, cols);
      assert MirrorImage(s, rows, cols) == MirrorImage(s', rows, cols) + {Mirror(rows, cols, a)};
    }
  }

  lemma CellsWithFlipTransposed(t: Grid<int>, v: int)
    requires IsRect(t)
    ensures CellsWith(FlipTransposed(t), v) == MirrorImage(CellsWith(t, v), |t|, Cols(t))
  {
    var rows, cols := |t|, Cols(t);
    var r := FlipTransposed(t);
    var s := CellsWith(t, v);
    forall q | q in CellsWith(r, v)
      ensures q in MirrorImage(s, rows, cols)
    {
      var p := (rows - 1 - q.1, cols - 1 - q.0);
      assert p in s && Mirror(rows, cols, p) == q;
    }
    forall p | p in s
      ensures Mirror(rows, cols, p) in CellsWith(r, v)
    {
      assert r[cols - 1 - p.1][rows - 1 - p.0] == t[p.0][p.1];
    }
  }

  /** Flip and transpose is a permutation of the cells: every value occurs
      in the result exactly as often as in t (the multisets agree). */
  lemma FlipTransposedKeepsCounts(t: Grid<int>, v: int)
    requires IsRect(t)
    ensures |CellsWith(FlipTransposed(t), v)| == |CellsWith(t, v)|
  {
    CellsWithFlipTransposed(t, v);
    MirrorImageSize(CellsWith(t, v), |t|, Cols(t));
  }
}
