/** The plotly notebook: a 35 x 35 forest whose temperature field is
    flipped and transposed after the shift, whose fire rule needs the rain
    flag to be absent, and whose cells carry a hover text stored in a
    fixed-width numpy string array. */
module LargerForests {
  import opened Grids
  import opened Text
  import opened Ignition

  /** `regenerate_forest` always draws a 35 x 35 forest. */
  const LargerSize := 35

  function BoolText(b: bool): string {
    if b then "True" else "False"
  }

  /** The hover text of one cell, before it is stored. */
  function CellAnnotation(rain: bool, t: int, lightning: bool): string {
    "Rain: " + BoolText(rain) + "<br>Temp: " + IntToString(t) + "<br>Lightning: " + BoolText(lightning)
  }

  lemma CellAnnotationLength(rain: bool, t: int, lightning: bool)
    ensures |CellAnnotation(rain, t, lightning)| == 31 + |BoolText(rain)| + |IntToString(t)| + |BoolText(lightning)|
  {
  }

  /** A temperature written with at most seven characters keeps the whole
      hover text inside the 48-character cell, whatever the flags. */
  lemma CellAnnotationFits(rain: bool, t: int, lightning: bool)
    requires -1000000 < t < 10000000
    ensures |CellAnnotation(rain, t, lightning)| <= FixedWidth
    ensures StoreFixedWidth(CellAnnotation(rain, t, lightning)) == CellAnnotation(rain, t, lightning)
  {
    CellAnnotationLength(rain, t, lightning);
    if t >= 0 {
      assert Pow10(7) == 10000000;
      NatToStringLength(t, 7);
    } else {
      assert Pow10(6) == 1000000;
      NatToStringLength(-t, 6);
    }
  }

  /** An eight-digit temperature of a cell without rain or lightning is cut:
      the stored text loses its last character. */
  lemma CellAnnotationTruncated()
    ensures |CellAnnotation(false, 10000000, false)| == FixedWidth + 1
    ensures StoreFixedWidth(CellAnnotation(false, 10000000, false)) != CellAnnotation(false, 10000000, false)
  {
    CellAnnotationLength(false, 10000000, false);
    assert Pow10(7) == 10000000;
    NatToStringPow10(7);
  }

  lemma NoAngleInIntToString(t: int)
    ensures '<' !in IntToString(t)
  {
  }

  /** The text splits into a part fixed by the rain flag and a part that
      starts with the temperature. */
  lemma CellAnnotationSplits(rain: bool, t: int, lightning: bool)
    ensures CellAnnotation(rain, t, lightning)
         == ("Rain: " + BoolText(rain) + "<br>Temp: ") + (IntToString(t) + ("<br>Lightning: " + BoolText(lightning)))
  {
  }

  /** In x + m, with no '<' in x and m starting with '<', the first '<' is
      at index |x|. */
  lemma FirstAngle(x: string, m: string)
    requires '<' !in x && |m| > 0 && m[0] == '<'
    ensures (x + m)[|x|] == '<'
    ensures forall k :: 0 <= k < |x| ==> (x + m)[k] != '<'
  {
    forall k | 0 <= k < |x|
      ensures (x + m)[k] != '<'
    {
      assert (x + m)[k] == x[k];
    }
  }

  /** A string without '<' followed by a tail starting with '<' is
      determined by the whole: the first '<' marks where it ends. */
  lemma PrefixBeforeAngle(x1: string, m1: string, x2: string, m2: string)
    requires '<' !in x1 && '<' !in x2
    requires |m1| > 0 && |m2| > 0 && m1[0] == '<' && m2[0] == '<'
    requires x1 + m1 == x2 + m2
    ensures x1 == x2 && m1 == m2
  {
    FirstAngle(x1, m1);
    FirstAngle(x2, m2);
    assert |x1| == |x2|;
    assert x1 == (x1 + m1)[..|x1|];
    assert x2 == (x2 + m2)[..|x2|];
    assert m1 == (x1 + m1)[|x1|..];
    assert m2 == (x2 + m2)[|x2|..];
  }

  lemma SameSuffix(p: string, q1: string, q2: string)
    requires p + q1 == p + q2
    ensures q1 == q2
  {
    assert q1 == (p + q1)[|p|..];
    assert q2 == (p + q2)[|p|..];
  }

  /** Different (rain, temperature, lightning) triples give different hover
      texts: the text identifies the cell's conditions. */
  lemma CellAnnotationInjective(r1: bool, t1: int, l1: bool, r2: bool, t2: int, l2: bool)
    requires CellAnnotation(r1, t1, l1) == CellAnnotation(r2, t2, l2)
    ensures r1 == r2 && t1 == t2 && l1 == l2
  {
    CellAnnotationSplits(r1, t1, l1);
    CellAnnotationSplits(r2, t2, l2);
    var p1, p2 := "Rain: " + BoolText(r1) + "<br>Temp: ", "Rain: " + BoolText(r2) + "<br>Temp: ";
    var m1, m2 := "<br>Lightning: " + BoolText(l1), "<br>Lightning: " + BoolText(l2);
    var x1, x2 := IntToString(t1), IntToString(t2);
    assert (p1 + (x1 + m1))[6] == p1[6] == BoolText(r1)[0];
    assert (p2 + (x2 + m2))[6] == p2[6] == BoolText(r2)[0];
    assert r1 == r2;
    SameSuffix(p1, x1 + m1, x2 + m2);
    NoAngleInIntToString(t1);
    NoAngleInIntToString(t2);
    PrefixBeforeAngle(x1, m1, x2, m2);
    ParseIntToString(t1);
    ParseIntToString(t2);
    SameSuffix("<br>Lightning: ", BoolText(l1), BoolText(l2));
  }

  /** What one cell of the `'<U48'` array holds. */
  function StoredAnnotation(rain: bool, t: int, lightning: bool): string {
    StoreFixedWidth(CellAnnotation(rain, t, lightning))
  }

  /** The nested loop of `construct_annotation_matrix`, for cells of any
      type: a rows x cols buffer of `blank` (what `np.empty_like` hands
      out) whose cell [i][j] is overwritten with `cell(i, j)`, for i over
      the rows and j over the columns. */
  method FillCells<T>(rows: nat, cols: nat, blank: T, cell: (int, int) --> T) returns (g: Grid<T>)
    requires forall i, j :: 0 <= i < rows && 0 <= j < cols ==> cell.requires(i, j)
    ensures IsGrid(g, rows, cols)
    ensures forall i, j :: 0 <= i < rows && 0 <= j < cols ==> g[i][j] == cell(i, j)
  {
    g := Filled(rows, cols, blank);
    var i := 0;
    while i < rows
      invariant 0 <= i <= rows
      invariant IsGrid(g, rows, cols)
      invariant forall a, b :: 0 <= a < i && 0 <= b < cols ==> g[a][b] == cell(a, b)
    {
      var j := 0;
      while j < cols
        invariant 0 <= j <= cols
        invariant IsGrid(g, rows, cols)
        invariant forall a, b :: 0 <= a < i && 0 <= b < cols ==> g[a][b] == cell(a, b)
        invariant forall b :: 0 <= b < j ==> g[i][b] == cell(i, b)
      {
        g := g[i := g[i][j := cell(i, j)]];
        j := j + 1;
      }
      i := i + 1;
    }
  }

  /** `construct_annotation_matrix`: a `'<U48'` array shaped like
      `lightning`, filled cell by cell with the hover text of the conditions
      at the same index, each cut to 48 characters. */
  method ConstructAnnotationMatrix(lightning: Grid<bool>, rain: Grid<bool>, temperature: Grid<int>)
    returns (annotations: Grid<string>)
    requires SameShape(lightning, rain, temperature)
    ensures IsGrid(annotations, |lightning|, Cols(lightning))
    ensures forall i, j :: 0 <= i < |lightning| && 0 <= j < Cols(lightning) ==>
              annotations[i][j] == StoredAnnotation(rain[i][j], temperature[i][j], lightning[i][j])
  {
    var rows, cols := |lightning|, Cols(lightning);
    annotations := FillCells(rows, cols, "", (i, j) requires 0 <= i < rows && 0 <= j < cols =>
                     StoredAnnotation(rain[i][j], temperature[i][j], lightning[i][j]));
  }

  /** The `Forest` of the plotly notebook. */
  class LargerForest {
    var lightning: Grid<bool>
    var rain: Grid<bool>
    var temperature: Grid<int>

    /** `Forest()`: nothing generated yet. */
    constructor ()
      ensures lightning == [] && rain == [] && temperature == []
    {
      lightning, rain, temperature := [], [], [];
    }

    /** `regenerate_forest` without the plot: stores the generated grids,
        with the temperature shifted to the slider's highest value and then
        flipped and transposed, and computes the hover texts and the fire
        grid under the rain-absent rule. The flip moves each temperature to
        the mirrored cell, so the fire rule at (i, j) judges the shifted
        temperature of cell (34 - j, 34 - i). */
    method RegenerateForest(lightning0: Grid<bool>, rain0: Grid<bool>, smoothed: Grid<int>, highest: int)
      returns (annotations: Grid<string>, wildfires: Grid<bool>)
      requires IsGrid(lightning0, LargerSize, LargerSize) && IsGrid(rain0, LargerSize, LargerSize)
      requires IsGrid(smoothed, LargerSize, LargerSize)
      modifies this
      ensures lightning == lightning0 && rain == rain0
      ensures temperature == FlipTransposed(Shifted(smoothed, highest))
      ensures IsGridMax(temperature, highest)
      ensures IsGrid(wildfires, LargerSize, LargerSize) && IsGrid(annotations, LargerSize, LargerSize)
      ensures forall i, j :: 0 <= i < LargerSize && 0 <= j < LargerSize ==>
                temperature[i][j] == Shifted(smoothed, highest)[LargerSize - 1 - j][LargerSize - 1 - i]
      ensures forall i, j :: 0 <= i < LargerSize && 0 <= j < LargerSize ==>
                wildfires[i][j] == IsAreaOnFire(lightning[i][j], rain[i][j], temperature[i][j], RainAbsentRequired)
      ensures forall i, j :: 0 <= i < LargerSize && 0 <= j < LargerSize ==>
                annotations[i][j] == StoredAnnotation(rain[i][j], temperature[i][j], lightning[i][j])
    {
      var shifted := Shifted(smoothed, highest);
      FlipTransposedKeepsMax(shifted, highest);
      lightning, rain, temperature := lightning0, rain0, FlipTransposed(shifted);
      assert IsGrid(temperature, LargerSize, LargerSize);
      annotations := ConstructAnnotationMatrix(lightning, rain, temperature);
      wildfires := FillWildfires(lightning, rain, temperature, RainAbsentRequired);
    }

    /** `is_lightning(x, y)`: reads `[y][x]`. */
    function IsLightning(x: int, y: int): bool
      reads this
      requires 0 <= y < |lightning| && 0 <= x < |lightning[y]|
    {
      lightning[y][x]
    }

    /** `is_raining(x, y)`: reads `[y][x]`. */
    function IsRaining(x: int, y: int): bool
      reads this
      requires 0 <= y < |rain| && 0 <= x < |rain[y]|
    {
      rain[y][x]
    }

    /** `get_temperature(x, y)`: reads `[y][x]`. */
    function GetTemperature(x: int, y: int): int
      reads this
      requires 0 <= y < |temperature| && 0 <= x < |temperature[y]|
    {
      temperature[y][x]
    }
  }

  /** After `regenerate_forest`, the fire grid at `[y][x]` is the rain-absent
      rule applied to what the accessors report at (x, y). */
  lemma LargerFireGridAgreesWithAccessors(f: LargerForest, wildfires: Grid<bool>, x: int, y: int)
    requires IsGrid(f.lightning, LargerSize, LargerSize) && IsGrid(f.rain, LargerSize, LargerSize)
    requires IsGrid(f.temperature, LargerSize, LargerSize)
    requires IsGrid(wildfires, LargerSize, LargerSize)
    requires forall i, j :: 0 <= i < LargerSize && 0 <= j < LargerSize ==>
               wildfires[i][j] == IsAreaOnFire(f.lightning[i][j], f.rain[i][j], f.temperature[i][j], RainAbsentRequired)
    requires 0 <= x < LargerSize && 0 <= y < LargerSize
    ensures wildfires[y][x]
         == IsAreaOnFire(f.IsLightning(x, y), f.IsRaining(x, y), f.GetTemperature(x, y), RainAbsentRequired)
  {
  }
}
