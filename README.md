# Wildfire expert system: a verified model of its forest logic

The wildfire notebooks teach a simple rule for when a patch of forest burns.
A `Forest` draws random lightning and rain flags and a smoothed temperature
field on a square grid. It shifts the temperatures so that the hottest cell
reaches a chosen highest temperature. It then computes a fire grid cell by
cell: a cell burns when it has lightning, or when it is hotter than 55 degrees
and its rain flag has the right value.

A `Drawer` places one sprite per cell on a canvas and remembers each sprite's
position in `sprite_locations`. A mouse click is turned back into a cell and
annotated with four sentences. The learner answers three controls: lightning
yes/no, a temperature threshold, and rain yes/no. An overlay then draws a red
rectangle for every cell where the learner's prediction disagrees with the fire
grid, at the sprite stored under that cell's row and column indices in that
order. As the second finding below shows, that sprite is the one of the
transposed cell.

Five notebooks share this logic with different constants:

- `wildfire_src.py`: 30 x 30 cells on an 800-pixel area, with drawing and
  clicks offset by 100 and 200.
- `wildfire_src_colab.py`: 20 x 20 cells on 400 pixels.
- `wildfire_expert.py`: the same 20 x 20 grid, temperatures in °F, rain worded
  as "rainshadow".
- The persistent checkpoint of the expert notebook: the same, in °C.
- `wildfire_src_larger.py`: a 35 x 35 plotly version. Its temperature field is
  flipped and transposed, its fire rule requires the *absence* of rain, and
  its hover texts are stored in a fixed-width string array.

The model is organised as follows:

- `Grids` holds the numpy whole-array operations: the shift, the maximum, and
  the flip-and-transpose.
- `Text` holds integer formatting and parsing, `str.split` and the 48-character
  numpy string cell.
- `Ignition` holds the fire rule, the fill loop and the prediction rule.
- `Forests` holds the `Forest` class.
- `Geometry` holds the placement formula and its inverse, with Python's `int()`
  as truncation toward zero.
- `Annotations` holds the click handler and its four sentences.
- `Mismatches` holds the prediction-versus-fire comparison and the loop that
  writes it into a `predictions` array.
- `LargerForests` holds the plotly notebook.
- `Drawing` holds the `Drawer` class: the placement table and the overlays.
- `Variants` holds each notebook's constants and what they imply for clicks.

Two details of the code are kept as written:

- The click inversion truncates toward zero (`int()`) rather than flooring.
  So a click less than one cell left of or above the grid is accepted as
  column or row 0 (`Geometry.LocateAcceptsStripLeftOfGrid`,
  `Geometry.LocateAcceptsStripAboveGrid`). A click exactly one cell or more
  outside is discarded.
- The larger notebook's rule `rain == False` is modelled as written, as its own
  polarity (`Ignition.RainAbsentRequired`). It is not replaced by the
  rain-required rule of the other notebooks.

## Model

| member | source | states |
|---|---|---|
| Grids.Shifted | wildfire_src.py:33 | `temperature += highest - max` keeps the shape, makes the largest cell exactly `highest`, and moves every cell by the same amount |
| Grids.GridMax | wildfire_src.py:33 | `np.max` returns a value some cell holds and no cell exceeds |
| Grids.FlipTransposedInvolution | wildfire_src_larger.py:92 | `np.flip(t).T` applied twice gives back t: it loses no cell |
| Grids.FlipTransposedKeepsMax | wildfire_src_larger.py:91-92 | after the shift and the flip-and-transpose, the largest temperature is still `highest_temperature` |
| Grids.CellsWithFlipTransposed | wildfire_src_larger.py:92 | the cells holding a value after the flip are exactly the mirror images `(n-1-j, n-1-i)` of the cells holding it before |
| Grids.FlipTransposedKeepsCounts | wildfire_src_larger.py:92 | the flip-and-transpose is a permutation: every value occurs as often as before |
| Text.IntToString | wildfire_src.py:218 | the decimal text an f-string gives an integer is non-empty, holds no '.', and is digits with an optional leading '-' |
| Text.ParseIntToString | wildfire_src.py:224 | reading that text back as a decimal gives the integer |
| Text.SplitJoin | wildfire_src.py:246 | `str.split` on a join of separator-free parts gives back the parts |
| Text.JoinSplit | wildfire_src.py:246 | joining the pieces `str.split` returns gives back the string |
| Text.StoreFixedWidth | wildfire_src_larger.py:96 | a `'<U48'` cell holds a prefix of what was assigned: all of it when it has at most 48 characters, and exactly its first 48 otherwise |
| Ignition.IsAreaOnFire | wildfire_src.py:55-62 | lightning means fire; at 55 degrees or less a cell burns iff it has lightning; above 55 without lightning it burns iff the rain flag has the notebook's polarity |
| Ignition.IgnitionMonotoneInTemperature | wildfire_src.py:58 | raising a cell's temperature never puts a fire out |
| Ignition.PolaritiesMirror | wildfire_src_larger.py:107-114 | the rain-absent rule is the rain-required rule applied to the negated rain flag |
| Ignition.FillWildfires | wildfire_src.py:63-68 | the filled grid has the shape of `lightning`, and cell [i][j] is the rule applied to the conditions at [i][j] |
| Ignition.PredictCell | wildfire_src.py:70-77 | a cell whose lightning flag equals the "Yes" answer is predicted to burn; otherwise it is predicted to burn iff it is hotter than the slider and its rain flag equals the rain answer; at or below the slider, or with the other rain flag, it burns iff the lightning flag equals the answer |
| Ignition.AnswerNoPredictsLightningFreeCells | wildfire_src.py:71-72 | answering "No" for lightning predicts fire in every cell without lightning |
| Ignition.ExactHypothesisIsIgnition | wildfire_src.py:55-77 | the answers ("Yes", 55, "Yes") predict exactly the rain-required rule |
| Ignition.InvertedHypothesisIsIgnition | wildfire_src_larger.py:107-114 | the answers ("Yes", 55, "No") predict exactly the larger notebook's rain-absent rule |
| Forests.Forest.constructor | wildfire_src.py:15-22 | a new forest stores the given draws, shifts the temperature to a maximum of 90 and holds a fire grid that follows the rule |
| Forests.Forest.ConstructWildfireMatrix | wildfire_src.py:48-68 | stores the conditions with the shifted temperature (maximum `highest`), fills the fire grid cell by cell, and stores and returns it |
| Forests.PredictReadsAccessorsTransposed | wildfire_src.py:70-86 | `predict_area_on_fire(x, y)` judges the conditions the accessors report at (y, x) |
| Forests.FireGridAgreesWithAccessors | wildfire_src_colab.py:64-87 | `wildfires[y][x]` is the rule applied to what the accessors report at (x, y) |
| Forests.ExactHypothesisAgreesEverywhere | wildfire_expert.py:56-78 | under ("Yes", 55, "Yes") the prediction equals the fire grid in every cell |
| Annotations.Annotation | wildfire_src.py:218-232 | the text built by `+=` splits on '.' into the four sentences and an empty tail |
| Annotations.HandleMouseDown | wildfire_src.py:211-250 | a click outside the grid yields nothing; inside, the four drawn parts name the cell, report its fire flag (the rule applied to the reported conditions), temperature with unit, rain and lightning |
| Annotations.ClickOnSpriteAnnotatesItsCell | wildfire_src.py:212-232 | when drawing and handler share their offsets, a click where the sprite of (x, y) starts annotates (x, y) |
| Annotations.TemperatureReadsBack | wildfire_src.py:224 | the number in the temperature sentence parses back to the cell's temperature |
| Geometry.Locate | wildfire_src.py:212-217 | the handler yields a cell iff the computed column and row are inside the grid, and the cell it yields is inside |
| Geometry.TruncOfOpenUnit | wildfire_src.py:214-215 | `int()` of any value strictly between -1 and 1 is 0 |
| Geometry.LocateInsideCell | wildfire_src.py:212-217 | every pixel of a cell's on-screen square maps back to that cell |
| Geometry.LocateInvertsPlacement | wildfire_src.py:212-215 | the pixel where the sprite of (x, y) is placed maps back to (x, y) |
| Geometry.LocateAcceptsStripLeftOfGrid | wildfire_src.py:214-217 | a click less than one cell left of the grid is accepted as column 0 |
| Geometry.LocateDiscardsOutsideColumns | wildfire_src.py:216-217 | a click a whole cell or more left of the grid, or right of it, is discarded |
| Geometry.LocateAcceptsStripAboveGrid | wildfire_src.py:213-217 | a click less than one cell above the grid, inside column x's strip, is accepted as (x, 0) |
| Geometry.LocateDiscardsOutsideRows | wildfire_src.py:213-217 | a click a whole cell or more above the grid, or below it, is discarded |
| Mismatches.ExactHypothesisMarksNothing | wildfire_src.py:364-368 | under ("Yes", 55, "Yes") no cell is marked |
| Mismatches.LightningCellsAgreeUnderYes | wildfire_expert.py:71-78 | answering "Yes" for lightning never marks a cell that has lightning |
| Mismatches.MarkedUnderYesYes | wildfire_src_colab.py:71-78 | under "Yes"/"Yes", a cell is marked iff it has rain and no lightning and the slider and 55 disagree on whether it is hot enough |
| Mismatches.MarkMismatches | wildfire_expert.py:230-236 | whatever `predictions` held, each cell becomes 1 iff the prediction differs from `wildfires[i][j]` and 0 iff it agrees; all 0 under ("Yes", 55, "Yes") |
| LargerForests.CellAnnotationFits | wildfire_src_larger.py:96-103 | a temperature of at most seven characters keeps the hover text within 48 characters, so it is stored whole |
| LargerForests.CellAnnotationTruncated | wildfire_src_larger.py:96-103 | a text of 49 characters (temperature 10000000, no rain, no lightning) loses its last character in the cell |
| LargerForests.CellAnnotationInjective | wildfire_src_larger.py:101-103 | different (rain, temperature, lightning) triples give different hover texts |
| LargerForests.ConstructAnnotationMatrix | wildfire_src_larger.py:95-104 | the array has the shape of `lightning`, and cell [i][j] is the hover text of the conditions at [i][j], cut to 48 characters |
| LargerForests.LargerForest.constructor | wildfire_src_larger.py:13-16 | a new forest holds no grids |
| LargerForests.LargerForest.RegenerateForest | wildfire_src_larger.py:121-127 | stores the 35 x 35 draws with the temperature shifted and flipped so that cell [i][j] holds shifted cell [34-j][34-i] with maximum `highest`; fire grid and hover texts follow the rain-absent rule and the stored temperature |
| LargerForests.LargerFireGridAgreesWithAccessors | wildfire_src_larger.py:159-166 | the fire grid at [y][x] is the rain-absent rule applied to what the accessors report at (x, y) |
| Drawing.MarkedCells | wildfire_src_colab.py:225-227 | every listed cell is inside the grid and marked |
| Drawing.MarkedCellsComplete | wildfire_src_colab.py:225-227 | every marked cell is listed, so a cell is listed iff it is marked |
| Drawing.NoMarksNoCells | wildfire_src.py:364-368 | a grid without marks lists no cell |
| Drawing.Overlay | wildfire_src.py:364-368 | one rectangle per marked cell in row-major order, at the placement stored under key [i, j] and `side * scale` pixels wide |
| Drawing.Drawer.constructor | wildfire_src_colab.py:92-99 | a new colab drawer, whose `draw_canvas` call is commented out, has no placements |
| Drawing.Drawer.Drawn | wildfire_src.py:91-97 | a new sprite-notebook drawer has drawn its canvas: it holds a placement under exactly the keys [x, y] of the 30 x 30 grid, each at `(200 + 800*x/30, 800*y/30, scale)` |
| Drawing.Drawer.WithLocations | wildfire_expert.py:90-91 | an expert drawer holds the placements it is handed |
| Drawing.Drawer.PlaceSprites | wildfire_src.py:178-198 | afterwards every key [x, y] of the grid holds `(offset + canvas*x/size, canvas*y/size, scale)`, other keys keep their entries and no other key appears |
| Drawing.Drawer.RedrawWithOverlay | wildfire_src.py:304-368 | the redraw stores a fresh placement under every grid key, keeps every other key's entry and adds no other key; exactly the mismatched cells get a rectangle at their fresh placement; none under ("Yes", 55, "Yes") |
| Drawing.Drawer.MismatchOverlay | wildfire_src_colab.py:224-231 | with `draw_predictions`, one rectangle per cell whose prediction differs from `wildfires[i][j]`; without it, none; none under ("Yes", 55, "Yes") |
| Drawing.Drawer.CorrectedMismatchOverlay | wildfire_src_colab.py:224-231 | the same overlay drawn for the transposed marks, so that the rectangle for row i, column j sits at key [j, i] |
| Drawing.Drawer.PredictionOverlay | wildfire_expert.py:116-123 | with `draw_predictions`, one 15-pixel rectangle moved by 50 per truthy `predictions[i][j]`; without it, none |
| Drawing.Drawer.DrawCanvasWithControls | persistent/.ipynb_checkpoints/wildfire_expert_persistent-checkpoint.py:122-156 | the mismatch loop leaves `predictions` holding 1 at every mismatched cell and 0 elsewhere; the overlay then gives exactly the mismatched cells a rectangle; none under ("Yes", 55, "Yes") |
| Drawing.OverlayCoversTransposedSprite | wildfire_src.py:364-368 | as written, the rectangle for a mark at row i, column j lies at the sprite of column i, row j, which shows `wildfires[j][i]` |
| Drawing.TransposedSpriteDiffers | wildfire_src.py:181-184 | in a 2 x 2 grid where only row 0, column 1 burns, the sprite under key [0, 1] is a tree |
| Drawing.CorrectedOverlayCoversItsSprite | wildfire_src.py:178-198 | corrected, every rectangle lies at the sprite that shows the marked cell itself |
| Variants.Click | wildfire_expert.py:128-149 | a notebook's click yields nothing iff its handler's computed cell is outside the grid |
| Variants.ClickOnSpriteRoundTrips | persistent/.ipynb_checkpoints/wildfire_expert_persistent-checkpoint.py:45-66 | in the sprite, expert and persistent notebooks (and the corrected colab handler), a click where the sprite of (x, y) starts annotates (x, y) in that notebook's wording |
| Variants.ColabClickMissesSprite | wildfire_src_colab.py:237-240 | as written, the colab handler sends the sprite of (x, y) to column x-8 (x-7 below 8) and row y-3 (y-2 below 3), never to (x, y) |
| Variants.ColabSpriteTenTen | wildfire_src_colab.py:199-200 | the sprite of (10, 10) starts at pixel (350, 250), which the colab handler reports as cell (2, 7) |
| Variants.ColabTopLeftSpriteIgnored | wildfire_src_colab.py:241-242 | a click on the sprite of (0, 0) is discarded |
| Variants.ExpertOverlayRectSelectsItsCell | wildfire_expert.py:300-307 | a click anywhere inside the rectangle the expert overlay draws for key [x, y] selects cell (x, y) |

## Findings

| source | as written | input that shows it | evidently intended | confidence | as-written member | corrected member |
|---|---|---|---|---|---|---|
| wildfire_src_colab.py:237-240 | the handler subtracts 100 and then 200, the offsets of the 800-pixel notebook, while this notebook draws after `translate(50, 50)` from x = 100 | a click at (350, 250), where the sprite of (10, 10) starts, is reported as cell (2, 7); a click on the sprite of (0, 0) is ignored | subtract 50 and then 100, as the expert notebooks' handlers do | high (not executed) | Variants.ColabSpriteTenTen | Variants.ClickOnSpriteRoundTrips |
| wildfire_src.py:367 | the rectangle for `predict_area_on_fire(i, j) != wildfires[i][j]` is drawn at key `[i, j]`, which the placement loop gave to column i, row j, whose sprite shows `wildfire_state[j, i]` | a 2 x 2 grid where only row 0, column 1 burns and that cell is mispredicted: its rectangle covers the tree sprite of column 0, row 1 | draw the rectangle for row i, column j at key `[j, i]`, the sprite of that cell | medium (not executed) | Drawing.OverlayCoversTransposedSprite | Drawing.CorrectedOverlayCoversItsSprite |

The second row applies alike to the colab overlay (wildfire_src_colab.py:228).
`Variants.CorrectedColab` and `Drawing.Drawer.CorrectedMismatchOverlay` are the corrected definitions.

## Left out

- Random draws: the `binomial` lightning and rain flags, the `normal` temperature vectors, the random `predictions` placeholders, the random mountain sprites and the random sprite scale are all inputs. The scale is the `scaleOf` parameter of `Drawing.Drawer.PlaceSprites`.
- The float part of the temperature generation (`np.linspace(..., dtype=int)` and the 0.25-weight `np.convolve`) is not modelled. The model starts from the smoothed integer grid.
- Widgets, layouts, plotly figures, fill styles, text positions, `clear_rect`, `display` and event registration are left out. The model computes the data these callbacks produce: placements, rectangles and annotation text.
- Pixel arithmetic uses exact reals. Float rounding in `canvas_size*x/size` is not modelled.
- The canvas transform set by `canvas.scale(scale)` in the overlay loops is not modelled. The `fill_rect` arguments are the rectangles. With the colab scale of 1 this changes nothing.
- Drawing.Drawer.WithLocations: the expert notebooks receive `sprite_locations` from outside. The lemmas about their clicks assume the colab drawing's placements at scale 1. Under that assumption the transposition of the second finding reaches the expert overlays too (wildfire_expert.py:117-123, 300-307): the rectangle for mark [i][j] selects cell (i, j) (`Variants.ExpertOverlayRectSelectsItsCell`), and a click there reports `wildfires[j][i]`.
- The `sprite_locations` keys `str([x, y])` are modelled as integer pairs. The string rendering of a pair of integers is injective, so lookups behave the same.
- The fire grid is an integer array in numpy (`np.empty_like(lightning)`). It is modelled as booleans, since the rule only produces 0 and 1.
- `construct_annotation_matrix` of the sprite, colab and expert notebooks is never called there. Its body is the one modelled for the larger notebook (`LargerForests.ConstructAnnotationMatrix`).
- The second `handle_mouse_down` inside `on_value_change` (wildfire_src.py:310-356) duplicates the first. `Annotations.HandleMouseDown` models both.
- Forests.Forest.constructor: the grid size is a parameter. The notebooks pass 30 (sprite) or 20 (colab, expert).
