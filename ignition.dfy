/** The ground-truth ignition rule, the user's prediction rule, and the
    nested loop that applies the ignition rule to every cell of a forest. */
module Ignition {
  import opened Grids

  /** Which rain flag lets a hot cell without lightning catch fire: the
      notebooks test `rain == True`, the larger plotly notebook `rain == False`. */
  datatype RainPolarity = RainRequired | RainAbsentRequired

  /** A cell hotter than this (strictly) can ignite without lightning. */
  const IgnitionTemperature := 55

  /** `is_area_on_fire` for one cell: lightning always ignites; otherwise the
      cell burns when it is above 55 degrees and its rain flag has the
      polarity's value. */
  function IsAreaOnFire(lightning: bool, rain: bool, temperature: int, polarity: RainPolarity): (burning: bool)
    ensures lightning ==> burning
    ensures temperature <= IgnitionTemperature ==> (burning <==> lightning)
    ensures !lightning && temperature > IgnitionTemperature ==> (burning <==> rain == polarity.RainRequired?)
  {
    if lightning then true
    else if temperature > IgnitionTemperature && rain == polarity.RainRequired? then true
    else false
  }

  /** A hotter cell is at least as likely to burn: the rule is monotone in
      the temperature. */
  lemma IgnitionMonotoneInTemperature(lightning: bool, rain: bool, t: int, t': int, polarity: RainPolarity)
    requires t <= t' && IsAreaOnFire(lightning, rain, t, polarity)
    ensures IsAreaOnFire(lightning, rain, t', polarity)
  {
  }

  /** The two polarities are the same rule with the rain flag negated. */
  lemma PolaritiesMirror(lightning: bool, rain: bool, t: int)
    ensures IsAreaOnFire(lightning, rain, t, RainAbsentRequired) == IsAreaOnFire(lightning, !rain, t, RainRequired)
  {
  }

  /** `is_area_on_fire(x, y, lightning, rain, temperature)`: reads the three
      grids at `[x][y]`. */
  function IsAreaOnFireAt(x: int, y: int, lightning: Grid<bool>, rain: Grid<bool>, temperature: Grid<int>,
                          polarity: RainPolarity): bool
    requires 0 <= x < |lightning| && 0 <= y < |lightning[x]|
    requires 0 <= x < |rain| && 0 <= y < |rain[x]|
    requires 0 <= x < |temperature| && 0 <= y < |temperature[x]|
  {
    IsAreaOnFire(lightning[x][y], rain[x][y], temperature[x][y], polarity)
  }

  /** The lightning, rain and temperature grids all have lightning's shape. */
  predicate SameShape(lightning: Grid<bool>, rain: Grid<bool>, temperature: Grid<int>) {
    IsRect(lightning) && IsGrid(rain, |lightning|, Cols(lightning)) && IsGrid(temperature, |lightning|, Cols(lightning))
  }

  /** The body of `construct_wildfire_matrix`: a buffer shaped like
      `lightning` is overwritten cell by cell, row by row, with the ignition
      rule. */
  method FillWildfires(lightning: Grid<bool>, rain: Grid<bool>, temperature: Grid<int>, polarity: RainPolarity)
    returns (wildfires: Grid<bool>)
    requires SameShape(lightning, rain, temperature)
    ensures IsGrid(wildfires, |lightning|, Cols(lightning))
    ensures forall i, j :: 0 <= i < |lightning| && 0 <= j < Cols(lightning) ==>
              wildfires[i][j] == IsAreaOnFire(lightning[i][j], rain[i][j], temperature[i][j], polarity)
  {
    var rows, cols := |lightning|, Cols(lightning);
    wildfires := Filled(rows, cols, false);
    var i := 0;
    while i < rows
      invariant 0 <= i <= rows
      invariant IsGrid(wildfires, rows, cols)
      invariant forall a, b :: 0 <= a < i && 0 <= b < cols ==>
                  wildfires[a][b] == IsAreaOnFire(lightning[a][b], rain[a][b], temperature[a][b], polarity)
    {
      var j := 0;
      while j < cols
        invariant 0 <= j <= cols
        invariant IsGrid(wildfires, rows, cols)
        invariant forall a, b :: 0 <= a < i && 0 <= b < cols ==>
                    wildfires[a][b] == IsAreaOnFire(lightning[a][b], rain[a][b], temperature[a][b], polarity)
        invariant forall b :: 0 <= b < j ==>
                    wildfires[i][b] == IsAreaOnFire(lightning[i][b], rain[i][b], temperature[i][b], polarity)
      {
        wildfires := wildfires[i := wildfires[i][j := IsAreaOnFireAt(i, j, lightning, rain, temperature, polarity)]];
        j := j + 1;
      }
      i := i + 1;
    }
  }

  /** The user's hypothesis, as the three controls deliver it: the lightning
      and rain-shadow dropdowns ("Yes"/"No") and the temperature slider. */
  datatype Hypothesis = Hypothesis(lightningValue: string, tempValue: real, rainValue: string)

  /** `predict_area_on_fire` for one cell. The flags are compared for
      EQUALITY with the answers: a cell burns when its lightning flag equals
      `lightningValue == "Yes"`, or when it is hotter than the slider and its
      rain flag equals `rainValue == "Yes"`. */
  function PredictCell(lightning: bool, rain: bool, temperature: int, hyp: Hypothesis): (burning: bool)
    ensures lightning == (hyp.lightningValue == "Yes") ==> burning
    ensures temperature as real <= hyp.tempValue ==> (burning <==> lightning == (hyp.lightningValue == "Yes"))
    ensures rain != (hyp.rainValue == "Yes") ==> (burning <==> lightning == (hyp.lightningValue == "Yes"))
    ensures lightning != (hyp.lightningValue == "Yes") ==>
              (burning <==> temperature as real > hyp.tempValue && rain == (hyp.rainValue == "Yes"))
  {
    if lightning == (hyp.lightningValue == "Yes") then true
    else if temperature as real > hyp.tempValue && rain == (hyp.rainValue == "Yes") then true
    else false
  }

  /** Answering "No" to lightning predicts fire in every cell without
      lightning, whatever its temperature and rain. */
  lemma AnswerNoPredictsLightningFreeCells(rain: bool, temperature: int, hyp: Hypothesis)
    requires hyp.lightningValue != "Yes"
    ensures PredictCell(false, rain, temperature, hyp)
  {
  }

  /** The hypothesis that reproduces the notebooks' own rule. */
  const ExactHypothesis := Hypothesis("Yes", 55.0, "Yes")

  /** ("Yes", 55, "Yes") predicts exactly the ground truth of the
      rain-required rule, cell for cell. */
  lemma ExactHypothesisIsIgnition(lightning: bool, rain: bool, temperature: int)
    ensures PredictCell(lightning, rain, temperature, ExactHypothesis)
         == IsAreaOnFire(lightning, rain, temperature, RainRequired)
  {
  }

  /** ("Yes", 55, "No") predicts exactly the ground truth of the larger
      notebook's rain-absent rule. */
  lemma InvertedHypothesisIsIgnition(lightning: bool, rain: bool, temperature: int)
    ensures PredictCell(lightning, rain, temperature, Hypothesis("Yes", 55.0, "No"))
         == IsAreaOnFire(lightning, rain, temperature, RainAbsentRequired)
  {
  }
}
