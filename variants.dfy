/** The constants of each canvas notebook: the geometry its sprites are drawn
    with, the geometry its click handler inverts, and the wording of its
    annotation; and what they imply for clicking on a sprite. */
module Variants {
  import opened Geometry
  import opened Forests
  import opened Annotations
  import opened Drawing

  /** A notebook's drawing frame, click frame and annotation wording. */
  datatype Notebook = Notebook(placement: Frame, click: Frame, unit: TemperatureUnit, wording: RainWording)

  /** The colab notebook draws after `translate(50, 50)` from x = 100 on a
      400 x 400 area of 20 x 20 cells. */
  const ColabPlacementFrame := Frame(50, 50, 100, 400, 400, 20, 20)

  /** The colab handler, as written, subtracts 100 and then 200. */
  const ColabClickFrame := Frame(100, 100, 200, 400, 400, 20, 20)

  /** The expert notebooks' handler subtracts 50 and then 100, on the same
      400 x 400 area of 20 x 20 cells; the overlay adds 50 to the stored
      placement, which is where the colab drawing puts its sprites. */
  const ExpertFrame := Frame(50, 50, 100, 400, 400, 20, 20)

  const Src := Notebook(SrcFrame, SrcFrame, Celsius, Raining)
  const Colab := Notebook(ColabPlacementFrame, ColabClickFrame, Celsius, Raining)
  const Expert := Notebook(ExpertFrame, ExpertFrame, Fahrenheit, Rainshadow)
  const Persistent := Notebook(ExpertFrame, ExpertFrame, Celsius, Rainshadow)

  /** The colab handler with its offsets matched to the drawing. */
  const CorrectedColab := Notebook(ColabPlacementFrame, ColabPlacementFrame, Celsius, Raining)

  /** A click on a notebook's canvas, as its `handle_mouse_down` computes it. */
  function Click(nb: Notebook, forest: Forest, px: real, py: real): (annotation: Option<string>)
    reads forest
    requires nb.click.Valid() && Fits(forest, nb.click)
    ensures annotation.None? <==> Locate(nb.click, px, py).None?
  {
    HandleMouseDown(forest, nb.click, nb.unit, nb.wording, px, py)
  }

  /** In the sprite notebook and the two expert notebooks, a click on the
      pixel where the sprite of (x, y) starts annotates (x, y). */
  lemma ClickOnSpriteRoundTrips(nb: Notebook, forest: Forest, x: int, y: int)
    requires nb == Src || nb == Expert || nb == Persistent || nb == CorrectedColab
    requires Fits(forest, nb.click)
    requires 0 <= x < nb.click.sizeX && 0 <= y < nb.click.sizeY
    ensures Click(nb, forest, ScreenX(nb.placement, x), ScreenY(nb.placement, y))
         == Some(Annotation(x, y, forest.wildfires[y][x], forest.GetTemperature(x, y), forest.IsRaining(x, y),
                            forest.IsLightning(x, y), nb.unit, nb.wording))
  {
    ClickOnSpriteAnnotatesItsCell(forest, nb.click, nb.unit, nb.wording, x, y);
  }

  /** As written, the colab handler sends the sprite of (x, y), drawn from
      pixel (150 + 20x, 50 + 20y), to column `int(x - 7.5)` and row
      `int(y - 2.5)`: never to (x, y) itself. */
  lemma ColabClickMissesSprite(x: int, y: int)
    requires 0 <= x < 20 && 0 <= y < 20
    ensures Column(ColabClickFrame, ScreenX(ColabPlacementFrame, x)) == (if x >= 8 then x - 8 else x - 7)
    ensures Row(ColabClickFrame, ScreenY(ColabPlacementFrame, y)) == (if y >= 3 then y - 3 else y - 2)
    ensures Locate(ColabClickFrame, ScreenX(ColabPlacementFrame, x), ScreenY(ColabPlacementFrame, y)) != Some((x, y))
  {
    assert ScreenX(ColabPlacementFrame, x) == 150.0 + 20.0 * x as real;
    assert ScreenY(ColabPlacementFrame, y) == 50.0 + 20.0 * y as real;
    CellIndexIsTrunc(20, 400, ScreenX(ColabPlacementFrame, x) - 300.0);
    CellIndexIsTrunc(20, 400, ScreenY(ColabPlacementFrame, y) - 100.0);
    assert 20.0 * (ScreenX(ColabPlacementFrame, x) - 300.0) / 400.0 == x as real - 7.5;
    assert 20.0 * (ScreenY(ColabPlacementFrame, y) - 100.0) / 400.0 == y as real - 2.5;
  }

  /** The sprite of (10, 10) starts at pixel (350, 250); the colab handler
      reports cell (2, 7) for it. */
  lemma ColabSpriteTenTen()
    ensures ScreenX(ColabPlacementFrame, 10) == 350.0 && ScreenY(ColabPlacementFrame, 10) == 250.0
    ensures Locate(ColabClickFrame, 350.0, 250.0) == Some((2, 7))
  {
    ColabClickMissesSprite(10, 10);
  }

  /** The sprite of (0, 0) starts at pixel (150, 50); the colab handler
      computes column -7 there and discards the click. */
  lemma ColabTopLeftSpriteIgnored()
    ensures Locate(ColabClickFrame, ScreenX(ColabPlacementFrame, 0), ScreenY(ColabPlacementFrame, 0)) == None
  {
    ColabClickMissesSprite(0, 0);
  }

  /** In the expert notebooks, with the stored placements of the colab
      drawing at scale 1, a click anywhere inside the 15 x 15 rectangle the
      overlay draws for key [x, y] selects cell (x, y). */
  lemma ExpertOverlayRectSelectsItsCell(x: int, y: int, px: real, py: real)
    requires 0 <= x < 20 && 0 <= y < 20
    requires var r := OverlayRect(PlacementOf(ColabPlacementFrame, (x, y), 1.0), 15.0, 50.0);
             r.x <= px < r.x + r.width && r.y <= py < r.y + r.height
    ensures Locate(ExpertFrame, px, py) == Some((x, y))
  {
    assert ScreenX(ExpertFrame, x) == 150.0 + 20.0 * x as real;
    assert ScreenX(ExpertFrame, x + 1) == 170.0 + 20.0 * x as real;
    assert ScreenY(ExpertFrame, y) == 50.0 + 20.0 * y as real;
    assert ScreenY(ExpertFrame, y + 1) == 70.0 + 20.0 * y as real;
    LocateInsideCell(ExpertFrame, px, py, x, y);
  }
}
