/** Comparing the user's prediction with the fire grid, cell by cell: the
    condition of the overlay loops, and the loop of the expert notebooks that
    overwrites a `predictions` array with 1 where they disagree and 0 where
    they agree. */
module Mismatches {
  import opened Grids
  import opened Ignition
  import opened Forests

  /** Where `predict_area_on_fire(i, j, ...) != wildfires[i][j]`. */
  function MismatchGrid(forest: Forest, hyp: Hypothesis): Grid<bool>
    reads forest
    requires forest.Valid()
  {
    var rows, cols := |forest.lightning|, Cols(forest.lightning);
    seq(rows, i requires 0 <= i < rows && forest.Valid() && rows == |forest.lightning| && cols == Cols(forest.lightning)
                reads forest =>
      seq(cols, j requires 0 <= j < cols && forest.Valid() && rows == |forest.lightning| && cols == Cols(forest.lightning)
                  reads forest =>
        forest.PredictAreaOnFire(i, j, hyp) != forest.wildfires[i][j]))
  }

  /** The answers ("Yes", 55, "Yes") leave no cell marked. */
  lemma ExactHypothesisMarksNothing(forest: Forest)
    requires forest.Valid()
    ensures forall i, j :: 0 <= i < |forest.lightning| && 0 <= j < Cols(forest.lightning) ==>
              !MismatchGrid(forest, ExactHypothesis)[i][j]
  {
    ExactHypothesisAgreesEverywhere(forest);
  }

  /** Answering "Yes" to lightning never marks a cell that has lightning:
      the prediction and the fire grid both say it burns. */
  lemma LightningCellsAgreeUnderYes(forest: Forest, hyp: Hypothesis, i: int, j: int)
    requires forest.Valid() && hyp.lightningValue == "Yes"
    requires 0 <= i < |forest.lightning| && 0 <= j < Cols(forest.lightning)
    requires forest.lightning[i][j]
    ensures !MismatchGrid(forest, hyp)[i][j]
  {
  }

  /** With "Yes" for lightning and for rain, a cell is marked exactly when
      it has rain and no lightning and the slider value and 55 disagree on
      whether the cell is hot enough. */
  lemma MarkedUnderYesYes(forest: Forest, tempValue: real, i: int, j: int)
    requires forest.Valid()
    requires 0 <= i < |forest.lightning| && 0 <= j < Cols(forest.lightning)
    ensures var t := forest.temperature[i][j];
            MismatchGrid(forest, Hypothesis("Yes", tempValue, "Yes"))[i][j]
            <==> !forest.lightning[i][j] && forest.rain[i][j]
                 && ((t as real > tempValue) != (t > IgnitionTemperature))
  {
  }

  /** `draw_canvas_with_controls`' loop over a `predictions` array shaped
      like the fire grid: whatever it held before, every cell becomes 1
      where the prediction differs from `wildfires[i][j]` and 0 where it
      agrees. */
  method MarkMismatches(forest: Forest, predictions: array2<int>, hyp: Hypothesis)
    requires forest.Valid()
    requires predictions.Length0 == |forest.wildfires| && predictions.Length1 == Cols(forest.wildfires)
    modifies predictions
    ensures forall i, j :: 0 <= i < predictions.Length0 && 0 <= j < predictions.Length1 ==>
              (predictions[i, j] == 1 <==> forest.PredictAreaOnFire(i, j, hyp) != forest.wildfires[i][j])
              && (predictions[i, j] == 0 <==> forest.PredictAreaOnFire(i, j, hyp) == forest.wildfires[i][j])
    ensures forall i, j :: 0 <= i < predictions.Length0 && 0 <= j < predictions.Length1 ==>
              predictions[i, j] == if MismatchGrid(forest, hyp)[i][j] then 1 else 0
    ensures hyp == ExactHypothesis ==>
              forall i, j :: 0 <= i < predictions.Length0 && 0 <= j < predictions.Length1 ==> predictions[i, j] == 0
  {
    ghost var m := MismatchGrid(forest, hyp);
    var i := 0;
    while i < predictions.Length0
      invariant 0 <= i <= predictions.Length0
      invariant forall a, b :: 0 <= a < i && 0 <= b < predictions.Length1 ==>
                  predictions[a, b] == if m[a][b] then 1 else 0
    {
      var j := 0;
      while j < predictions.Length1
        invariant 0 <= j <= predictions.Length1
        invariant forall a, b :: 0 <= a < i && 0 <= b < predictions.Length1 ==>
                    predictions[a, b] == if m[a][b] then 1 else 0
        invariant forall b :: 0 <= b < j ==>
                    predictions[i, b] == if m[i][b] then 1 else 0
      {
        if forest.PredictAreaOnFire(i, j, hyp) != forest.wildfires[i][j] {
          predictions[i, j] := 1;
        } else {
          predictions[i, j] := 0;
        }
        j := j + 1;
      }
      i := i + 1;
    }
    if hyp == ExactHypothesis {
      ExactHypothesisMarksNothing(forest);
    }
  }
}
