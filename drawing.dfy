/** The `Drawer` of the canvas notebooks: the table of sprite placements that
    `draw_canvas` fills, the sprite each cell shows, and the red rectangles
    the prediction overlays draw over the cells they mark. */
module Drawing {
  import opened Grids
  import opened Ignition
  import opened Geometry
  import opened Forests
  import opened Mismatches

  /** An entry of `sprite_locations`: `(pos_x, pos_y, scale)`. */
  datatype Placement = Placement(x: real, y: real, scale: real)

  /** One `fill_rect(x, y, width, height)` call, in drawing coordinates. */
  datatype Rect = Rect(x: real, y: real, width: real, height: real)

  datatype Sprite = Tree | Fire

  /** The sprite drawn for column x, row y: `wildfire_state[y, x]` picks the
      fire, anything else the tree. */
  function SpriteAt(wildfires: Grid<bool>, x: int, y: int): Sprite
    requires 0 <= y < |wildfires| && 0 <= x < |wildfires[y]|
  {
    if wildfires[y][x] then Fire else Tree
  }

  /** Key k = [x, y] names a column and a row of the frame's grid. */
  predicate InGrid(f: Frame, k: (int, int)) {
    0 <= k.0 < f.sizeX && 0 <= k.1 < f.sizeY
  }

  /** Key k has been written once the placement loop has finished the
      columns before x and the rows before y of column x. */
  predicate Placed(f: Frame, x: int, y: int, k: (int, int)) {
    InGrid(f, k) && (k.0 < x || (k.0 == x && k.1 < y))
  }

  /** What the placement loop stores under key [x, y]. */
  function PlacementOf(f: Frame, k: (int, int), scale: real): Placement
    requires f.Valid()
  {
    Placement(SpriteX(f, k.0), SpriteY(f, k.1), scale)
  }

  /** The rectangle an overlay fills for a cell stored at p: `side * scale`
      pixels wide and high, moved by `shift` (the `+50` of the expert
      notebooks) in both directions. */
  function OverlayRect(p: Placement, side: real, shift: real): Rect {
    Rect(p.x + shift, p.y + shift, side * p.scale, side * p.scale)
  }

  /** The marked cells among the first n cells of row i, left to right. */
  function MarkedInRow(row: seq<bool>, i: int, n: nat): (cells: seq<(int, int)>)
    requires n <= |row|
    ensures forall c :: c in cells ==> c.0 == i && 0 <= c.1 < n && row[c.1]
  {
    if n == 0 then [] else MarkedInRow(row, i, n - 1) + (if row[n - 1] then [(i, n - 1)] else [])
  }

  /** The marked cells of the first m rows, in the row-major order of the
      overlay loops. */
  function MarkedCells(marks: Grid<bool>, m: nat): (cells: seq<(int, int)>)
    requires m <= |marks|
    ensures forall c :: c in cells ==> 0 <= c.0 < m && 0 <= c.1 < |marks[c.0]| && marks[c.0][c.1]
  {
    if m == 0 then [] else MarkedCells(marks, m - 1) + MarkedInRow(marks[m - 1], m - 1, |marks[m - 1]|)
  }

  lemma {:induction false} MarkedInRowComplete(row: seq<bool>, i: int, n: nat, j: int)
    requires n <= |row| && 0 <= j < n && row[j]
    ensures (i, j) in MarkedInRow(row, i, n)
  {
    if j < n - 1 {
      MarkedInRowComplete(row, i, n - 1, j);
    }
  }

  /** Every marked cell of the first m rows is listed, so together with
      `MarkedCells`' own contract: a cell is listed iff it is marked. */
  lemma {:induction false} MarkedCellsComplete(marks: Grid<bool>, m: nat, i: int, j: int)
    requires m <= |marks| && 0 <= i < m && 0 <= j < |marks[i]| && marks[i][j]
    ensures (i, j) in MarkedCells(marks, m)
  {
    if i < m - 1 {
      MarkedCellsComplete(marks, m - 1, i, j);
    } else {
      MarkedInRowComplete(marks[i], i, |marks[i]|, j);
    }
  }

  lemma {:induction false} NoMarksInRow(row: seq<bool>, i: int, n: nat)
    requires n <= |row|
    requires forall j :: 0 <= j < |row| ==> !row[j]
    ensures MarkedInRow(row, i, n) == []
  {
    if n > 0 {
      NoMarksInRow(row, i, n - 1);
    }
  }

  /** A grid with no marked cell yields no cell at all. */
  lemma {:induction false} NoMarksNoCells(marks: Grid<bool>, m: nat)
    requires m <= |marks|
    requires forall i, j :: 0 <= i < |marks| && 0 <= j < |marks[i]| ==> !marks[i][j]
    ensures MarkedCells(marks, m) == []
  {
    if m > 0 {
      NoMarksNoCells(marks, m - 1);
      NoMarksInRow(marks[m - 1], m - 1, |marks[m - 1]|);
    }
  }

  /** rects is one overlay rectangle per cell of `cells`, in that order, each
      at the placement stored under the cell's key. */
  predicate DrawsCells(rects: seq<Rect>, cells: seq<(int, int)>, locations: map<(int, int), Placement>,
                       side: real, shift: real)
  {
    && |rects| == |cells|
    && (forall c :: c in cells ==> c in locations)
    && forall n :: 0 <= n < |cells| ==> rects[n] == OverlayRect(locations[cells[n]], side, shift)
  }

  /** The overlay loop shared by all notebooks: for i over the rows and j
      over the columns, a marked cell [i][j] gets a rectangle at the
      placement stored under key [i, j]. */
  method Overlay(marks: Grid<bool>, cols: nat, locations: map<(int, int), Placement>, side: real, shift: real)
    returns (rects: seq<Rect>)
    requires IsGrid(marks, |marks|, cols)
    requires forall i, j :: 0 <= i < |marks| && 0 <= j < cols ==> (i, j) in locations
    ensures DrawsCells(rects, MarkedCells(marks, |marks|), locations, side, shift)
  {
    rects := [];
    var i := 0;
    while i < |marks|
      invariant 0 <= i <= |marks|
      invariant DrawsCells(rects, MarkedCells(marks, i), locations, side, shift)
    {
      var j := 0;
      while j < cols
        invariant 0 <= j <= cols
        invariant DrawsCells(rects, MarkedCells(marks, i) + MarkedInRow(marks[i], i, j), locations, side, shift)
      {
        if marks[i][j] {
          rects := rects + [OverlayRect(locations[(i, j)], side, shift)];
        }
        j := j + 1;
      }
      i := i + 1;
    }
  }

  /** The truthiness of a `predictions` array, `if predictions[i][j]:`. */
  function Truthy(predictions: array2<int>): (marks: Grid<bool>)
    reads predictions
    ensures IsGrid(marks, predictions.Length0, predictions.Length1)
  {
    seq(predictions.Length0, i requires 0 <= i < predictions.Length0 reads predictions =>
      seq(predictions.Length1, j requires 0 <= j < predictions.Length1 reads predictions =>
        predictions[i, j] != 0))
  }

  class Drawer {
    var spriteLocations: map<(int, int), Placement>

    /** `Drawer(forest)` of the colab notebook, whose `draw_canvas` call is
        commented out: no placement yet. */
    constructor ()
      ensures spriteLocations == map[]
    {
      spriteLocations := map[];
    }

    /** `Drawer(forest)` of the sprite notebook: `__init__` ends by drawing
        the 30 x 30 canvas, so the new drawer holds a placement under every
        key [x, y] of that grid and under no other key. */
    constructor Drawn(scaleOf: ((int, int)) -> real)
      ensures forall k :: k in spriteLocations <==> InGrid(SrcFrame, k)
      ensures forall k :: InGrid(SrcFrame, k) ==> spriteLocations[k] == PlacementOf(SrcFrame, k, scaleOf(k))
    {
      spriteLocations := map[];
      new;
      PlaceSprites(SrcFrame, scaleOf);
    }

    /** `Drawer(sprite_locations)` of the expert notebooks: the placements
        are handed in. */
    constructor WithLocations(locations: map<(int, int), Placement>)
      ensures spriteLocations == locations
    {
      spriteLocations := locations;
    }

    /** The placement loop of `draw_canvas`: for x over the columns and y
        over the rows, key [x, y] gets the sprite's position and the scale
        drawn for it (`scaleOf`, which stands for the random `uniform`
        draw or the fixed 1); keys outside the grid keep their entry. */
    method PlaceSprites(f: Frame, scaleOf: ((int, int)) -> real)
      requires f.Valid()
      modifies this
      ensures forall k :: k in spriteLocations <==> k in old(spriteLocations) || InGrid(f, k)
      ensures forall k :: InGrid(f, k) ==> spriteLocations[k] == PlacementOf(f, k, scaleOf(k))
      ensures forall k :: k in old(spriteLocations) && !InGrid(f, k) ==> spriteLocations[k] == old(spriteLocations)[k]
    {
      var x := 0;
      while x < f.sizeX
        invariant 0 <= x <= f.sizeX
        invariant forall k :: k in spriteLocations <==> k in old(spriteLocations) || Placed(f, x, 0, k)
        invariant forall k :: Placed(f, x, 0, k) ==> spriteLocations[k] == PlacementOf(f, k, scaleOf(k))
        invariant forall k :: k in old(spriteLocations) && !Placed(f, x, 0, k) ==>
                    spriteLocations[k] == old(spriteLocations)[k]
      {
        var y := 0;
        while y < f.sizeY
          invariant 0 <= y <= f.sizeY
          invariant forall k :: k in spriteLocations <==> k in old(spriteLocations) || Placed(f, x, y, k)
          invariant forall k :: Placed(f, x, y, k) ==> spriteLocations[k] == PlacementOf(f, k, scaleOf(k))
          invariant forall k :: k in old(spriteLocations) && !Placed(f, x, y, k) ==>
                      spriteLocations[k] == old(spriteLocations)[k]
        {
          spriteLocations := spriteLocations[(x, y) := Placement(SpriteX(f, x), SpriteY(f, y), scaleOf((x, y)))];
          y := y + 1;
        }
        x := x + 1;
      }
    }

    /** The mismatch overlay of the sprite notebooks (`on_value_change`, and
        `draw_canvas` under `draw_predictions`): for i over the rows and j
        over the columns, a rectangle at key [i, j] wherever the prediction
        differs from `wildfires[i][j]`, and nothing when the flag is off. */
    method MismatchOverlay(forest: Forest, hyp: Hypothesis, drawPredictions: bool, side: real)
      returns (rects: seq<Rect>)
      requires forest.Valid()
      requires forall i, j :: 0 <= i < |forest.wildfires| && 0 <= j < Cols(forest.wildfires) ==>
                 (i, j) in spriteLocations
      ensures drawPredictions ==>
                DrawsCells(rects, MarkedCells(MismatchGrid(forest, hyp), |forest.wildfires|), spriteLocations, side, 0.0)
      ensures !drawPredictions ==> rects == []
      ensures hyp == ExactHypothesis ==> rects == []
    {
      rects := [];
      if drawPredictions {
        var marks := MismatchGrid(forest, hyp);
        rects := Overlay(marks, Cols(forest.wildfires), spriteLocations, side, 0.0);
        if hyp == ExactHypothesis {
          ExactHypothesisMarksNothing(forest);
          NoMarksNoCells(marks, |marks|);
        }
      }
    }

    /** The same overlay with the mismatch grid transposed, so that the
        rectangle for row i, column j lands on key [j, i], the sprite that
        shows `wildfires[i][j]`. */
    method CorrectedMismatchOverlay(forest: Forest, hyp: Hypothesis, drawPredictions: bool, side: real)
      returns (rects: seq<Rect>)
      requires forest.Valid()
      requires forall x, y :: 0 <= x < Cols(forest.wildfires) && 0 <= y < |forest.wildfires| ==>
                 (x, y) in spriteLocations
      ensures drawPredictions ==>
                DrawsCells(rects, MarkedCells(Transposed(MismatchGrid(forest, hyp)), Cols(forest.wildfires)),
                           spriteLocations, side, 0.0)
      ensures !drawPredictions ==> rects == []
      ensures hyp == ExactHypothesis ==> rects == []
    {
      rects := [];
      if drawPredictions {
        var marks := Transposed(MismatchGrid(forest, hyp));
        rects := Overlay(marks, |forest.wildfires|, spriteLocations, side, 0.0);
        if hyp == ExactHypothesis {
          ExactHypothesisMarksNothing(forest);
          NoMarksNoCells(marks, |marks|);
        }
      }
    }

    /** `on_value_change` of the sprite notebook: `draw_canvas` runs again,
        storing a fresh placement for every cell, and a rectangle of side
        `side * scale` is then drawn at the placement of every cell whose
        prediction differs from the fire grid. */
    method RedrawWithOverlay(f: Frame, forest: Forest, hyp: Hypothesis, scaleOf: ((int, int)) -> real, side: real)
      returns (rects: seq<Rect>)
      requires f.Valid() && forest.Valid()
      requires f.sizeX == |forest.wildfires| && f.sizeY == Cols(forest.wildfires)
      modifies this
      ensures forall k :: k in spriteLocations <==> k in old(spriteLocations) || InGrid(f, k)
      ensures forall k :: InGrid(f, k) ==> k in spriteLocations && spriteLocations[k] == PlacementOf(f, k, scaleOf(k))
      ensures forall k :: k in old(spriteLocations) && !InGrid(f, k) ==> spriteLocations[k] == old(spriteLocations)[k]
      ensures DrawsCells(rects, MarkedCells(MismatchGrid(forest, hyp), |forest.wildfires|), spriteLocations, side, 0.0)
      ensures hyp == ExactHypothesis ==> rects == []
    {
      PlaceSprites(f, scaleOf);
      assert forall i, j :: 0 <= i < |forest.wildfires| && 0 <= j < Cols(forest.wildfires) ==> InGrid(f, (i, j));
      rects := MismatchOverlay(forest, hyp, true, side);
    }

    /** The overlay of the expert notebooks: under `draw_predictions`, a
        rectangle of side `15 * scale` at the stored placement moved by 50
        for every truthy `predictions[i][j]`. */
    method PredictionOverlay(predictions: array2<int>, drawPredictions: bool) returns (rects: seq<Rect>)
      requires forall i, j :: 0 <= i < predictions.Length0 && 0 <= j < predictions.Length1 ==>
                 (i, j) in spriteLocations
      ensures drawPredictions ==>
                DrawsCells(rects, MarkedCells(Truthy(predictions), predictions.Length0), spriteLocations, 15.0, 50.0)
      ensures !drawPredictions ==> rects == []
    {
      rects := [];
      if drawPredictions {
        rects := Overlay(Truthy(predictions), predictions.Length1, spriteLocations, 15.0, 50.0);
      }
    }

    /** `draw_canvas_with_controls` of the expert notebooks: the mismatch
        loop overwrites `predictions`, then `draw_canvas` runs with
        `draw_predictions` set, so exactly the mismatched cells get a
        rectangle, and none under the answers ("Yes", 55, "Yes"). */
    method DrawCanvasWithControls(forest: Forest, predictions: array2<int>, hyp: Hypothesis) returns (rects: seq<Rect>)
      requires forest.Valid()
      requires predictions.Length0 == |forest.wildfires| && predictions.Length1 == Cols(forest.wildfires)
      requires forall i, j :: 0 <= i < predictions.Length0 && 0 <= j < predictions.Length1 ==>
                 (i, j) in spriteLocations
      modifies predictions
      ensures forall i, j :: 0 <= i < predictions.Length0 && 0 <= j < predictions.Length1 ==>
                predictions[i, j] == if MismatchGrid(forest, hyp)[i][j] then 1 else 0
      ensures DrawsCells(rects, MarkedCells(MismatchGrid(forest, hyp), |forest.wildfires|), spriteLocations, 15.0, 50.0)
      ensures hyp == ExactHypothesis ==> rects == []
    {
      MarkMismatches(forest, predictions, hyp);
      SameCells(Truthy(predictions), MismatchGrid(forest, hyp), predictions.Length0, predictions.Length1);
      rects := PredictionOverlay(predictions, true);
      if hyp == ExactHypothesis {
        ExactHypothesisMarksNothing(forest);
        NoMarksNoCells(MismatchGrid(forest, hyp), |forest.wildfires|);
      }
    }
  }

  /** The placements of a square frame's sprites, as the placement loop
      stores them: key [x, y] at the sprite position of column x, row y. */
  ghost predicate PlacesSprites(f: Frame, locations: map<(int, int), Placement>)
    requires f.Valid()
  {
    forall k :: InGrid(f, k) ==>
      k in locations && locations[k].x == SpriteX(f, k.0) && locations[k].y == SpriteY(f, k.1)
  }

  /** As written, the rectangle for a mark at row i, column j sits at key
      [i, j], the sprite of column i, row j, which shows `wildfires[j][i]`. */
  lemma OverlayCoversTransposedSprite(f: Frame, locations: map<(int, int), Placement>, marks: Grid<bool>,
                                      wildfires: Grid<bool>, rects: seq<Rect>, side: real, n: int)
    requires f.Valid() && f.sizeX == f.sizeY && PlacesSprites(f, locations)
    requires IsGrid(marks, f.sizeX, f.sizeY) && IsGrid(wildfires, f.sizeY, f.sizeX)
    requires DrawsCells(rects, MarkedCells(marks, |marks|), locations, side, 0.0)
    requires 0 <= n < |rects|
    ensures var c := MarkedCells(marks, |marks|)[n];
            && 0 <= c.0 < f.sizeX && 0 <= c.1 < f.sizeY && marks[c.0][c.1]
            && rects[n].x == SpriteX(f, c.0) && rects[n].y == SpriteY(f, c.1)
            && (SpriteAt(wildfires, c.0, c.1) == Fire <==> wildfires[c.1][c.0])
  {
    var cells := MarkedCells(marks, |marks|);
    assert cells[n] in cells;
    assert InGrid(f, cells[n]);
  }

  /** A 2 x 2 fire grid where only row 0, column 1 burns: the sprite at key
      [0, 1] is a tree, so a rectangle for that cell covers a tree. */
  lemma TransposedSpriteDiffers()
    ensures var w := [[false, true], [false, false]];
            w[0][1] && SpriteAt(w, 0, 1) == Tree
  {
  }

  /** Corrected, the marks are transposed first: every rectangle covers the
      sprite that shows the very cell that is marked. */
  lemma CorrectedOverlayCoversItsSprite(f: Frame, locations: map<(int, int), Placement>, marks: Grid<bool>,
                                        wildfires: Grid<bool>, rects: seq<Rect>, side: real, n: int)
    requires f.Valid() && PlacesSprites(f, locations)
    requires IsGrid(marks, f.sizeY, f.sizeX) && IsGrid(wildfires, f.sizeY, f.sizeX)
    requires DrawsCells(rects, MarkedCells(Transposed(marks), f.sizeX), locations, side, 0.0)
    requires 0 <= n < |rects|
    ensures var c := MarkedCells(Transposed(marks), f.sizeX)[n];
            && 0 <= c.0 < f.sizeX && 0 <= c.1 < f.sizeY && marks[c.1][c.0]
            && rects[n].x == SpriteX(f, c.0) && rects[n].y == SpriteY(f, c.1)
            && (SpriteAt(wildfires, c.0, c.1) == Fire <==> wildfires[c.1][c.0])
  {
    var cells := MarkedCells(Transposed(marks), f.sizeX);
    assert cells[n] in cells;
    assert InGrid(f, cells[n]);
  }
}
