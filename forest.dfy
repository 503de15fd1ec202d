/** The `Forest` class of the three canvas notebooks: the lightning, rain
    and temperature grids it was generated with, the fire grid computed from
    them, the prediction rule the controls evaluate against it, and its
    accessors. */
module Forests {
  import opened Grids
  import opened Ignition

  /** `highest_temperature` that every `Forest()` is built with. */
  const HighestTemperature := 90

  class Forest {
    var lightning: Grid<bool>
    var rain: Grid<bool>
    var temperature: Grid<int>
    var wildfires: Grid<bool>

    /** The three condition grids share a non-empty shape, the fire grid
        has that shape too, and every cell of it follows the rain-required
        ignition rule at the same index. */
    ghost predicate Valid()
      reads this
    {
      && SameShape(lightning, rain, temperature)
      && NonEmpty(lightning)
      && IsGrid(wildfires, |lightning|, Cols(lightning))
      && forall i, j :: 0 <= i < |lightning| && 0 <= j < Cols(lightning) ==>
           wildfires[i][j] == IsAreaOnFire(lightning[i][j], rain[i][j], temperature[i][j], RainRequired)
    }

    /** `Forest()`: a `size` x `size` forest whose random draws (the lightning
        and rain flags and the smoothed temperature field) are given, built
        with a highest temperature of 90. */
    constructor (size: nat, lightning0: Grid<bool>, rain0: Grid<bool>, smoothed: Grid<int>)
      requires size > 0
      requires IsGrid(lightning0, size, size) && IsGrid(rain0, size, size) && IsGrid(smoothed, size, size)
      ensures Valid()
      ensures lightning == lightning0 && rain == rain0
      ensures temperature == Shifted(smoothed, HighestTemperature)
      ensures IsGridMax(temperature, HighestTemperature)
    {
      lightning, rain, temperature, wildfires := [], [], [], [];
      new;
      var fires := ConstructWildfireMatrix(lightning0, rain0, smoothed, HighestTemperature);
    }

    /** `construct_wildfire_matrix`: stores the generated grids, with the
        temperature shifted so that its maximum is `highest`, then fills the
        fire grid cell by cell and stores and returns it. */
    method ConstructWildfireMatrix(lightning0: Grid<bool>, rain0: Grid<bool>, smoothed: Grid<int>, highest: int)
      returns (fires: Grid<bool>)
      requires SameShape(lightning0, rain0, smoothed) && NonEmpty(lightning0)
      modifies this
      ensures lightning == lightning0 && rain == rain0
      ensures temperature == Shifted(smoothed, highest)
      ensures IsGridMax(temperature, highest)
      ensures fires == wildfires && Valid()
    {
      lightning, rain, temperature := lightning0, rain0, Shifted(smoothed, highest);
      fires := FillWildfires(lightning, rain, temperature, RainRequired);
      wildfires := fires;
    }

    /** `predict_area_on_fire(x, y, ...)`: reads the grids at `[x][y]`. */
    function PredictAreaOnFire(x: int, y: int, hyp: Hypothesis): bool
      reads this
      requires Valid()
      requires 0 <= x < |lightning| && 0 <= y < Cols(lightning)
    {
      PredictCell(lightning[x][y], rain[x][y], temperature[x][y], hyp)
    }

    /** `is_lightning(x, y)`: reads `[y][x]`. */
    function IsLightning(x: int, y: int): bool
      reads this
      requires Valid()
      requires 0 <= x < Cols(lightning) && 0 <= y < |lightning|
    {
      lightning[y][x]
    }

    /** `is_raining(x, y)`, called `is_rainshadow` in the expert notebooks:
        reads `[y][x]`. */
    function IsRaining(x: int, y: int): bool
      reads this
      requires Valid()
      requires 0 <= x < Cols(lightning) && 0 <= y < |lightning|
    {
      rain[y][x]
    }

    /** `get_temperature(x, y)`: reads `[y][x]`. */
    function GetTemperature(x: int, y: int): int
      reads this
      requires Valid()
      requires 0 <= x < Cols(lightning) && 0 <= y < |lightning|
    {
      temperature[y][x]
    }
  }

  /** The accessors take (column, row) while `predict_area_on_fire` takes
      (row, column): predicting at (x, y) judges the conditions the accessors
      report at (y, x). */
  lemma PredictReadsAccessorsTransposed(f: Forest, x: int, y: int, hyp: Hypothesis)
    requires f.Valid()
    requires 0 <= x < |f.lightning| && 0 <= y < Cols(f.lightning)
    ensures f.PredictAreaOnFire(x, y, hyp)
         == PredictCell(f.IsLightning(y, x), f.IsRaining(y, x), f.GetTemperature(y, x), hyp)
  {
  }

  /** The fire grid at `[y][x]` is the ignition rule applied to what the
      accessors report at (x, y). */
  lemma FireGridAgreesWithAccessors(f: Forest, x: int, y: int)
    requires f.Valid()
    requires 0 <= x < Cols(f.lightning) && 0 <= y < |f.lightning|
    ensures f.wildfires[y][x]
         == IsAreaOnFire(f.IsLightning(x, y), f.IsRaining(x, y), f.GetTemperature(x, y), RainRequired)
  {
  }

  /** With the answers ("Yes", 55, "Yes") the prediction equals the fire
      grid in every cell, so the mismatch overlay is empty. */
  lemma ExactHypothesisAgreesEverywhere(f: Forest)
    requires f.Valid()
    ensures forall i, j :: 0 <= i < |f.lightning| && 0 <= j < Cols(f.lightning) ==>
              f.PredictAreaOnFire(i, j, ExactHypothesis) == f.wildfires[i][j]
  {
    forall i, j | 0 <= i < |f.lightning| && 0 <= j < Cols(f.lightning)
      ensures f.PredictAreaOnFire(i, j, ExactHypothesis) == f.wildfires[i][j]
    {
      ExactHypothesisIsIgnition(f.lightning[i][j], f.rain[i][j], f.temperature[i][j]);
    }
  }
}
