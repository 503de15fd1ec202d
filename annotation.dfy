/** The click handler `handle_mouse_down` of the canvas notebooks: the
    clicked pixel is turned into a cell (or discarded), and the cell is
    described by an annotation of four '.'-terminated sentences, of which
    the parts 0-3 of `annotation.split('.')` are drawn. */
module Annotations {
  import opened Grids
  import opened Text
  import opened Ignition
  import opened Geometry
  import opened Forests

  /** The unit printed after the temperature: °C, or °F in the expert
      notebook. */
  datatype TemperatureUnit = Celsius | Fahrenheit

  /** How the rain flag is reported: "raining" in the source notebooks,
      "a rainshadow area" in the expert ones. */
  datatype RainWording = Raining | Rainshadow

  function UnitSymbol(unit: TemperatureUnit): string {
    match unit
    case Celsius => "°C"
    case Fahrenheit => "°F"
  }

  function RainPhrase(rain: bool, wording: RainWording): string {
    match wording
    case Raining => if rain then "raining" else "not raining"
    case Rainshadow => if rain then "a rainshadow area" else "not a rainshadow area"
  }

  /** The first sentence: the cell and whether it burns. */
  function AreaSentence(cx: int, cy: int, burning: bool): string {
    "The selected area (" + IntToString(cx) + ", " + IntToString(cy) + ") is "
      + (if burning then "burning" else "not burning")
  }

  function TemperatureSentence(t: int, unit: TemperatureUnit): string {
    "The temperature is " + IntToString(t) + UnitSymbol(unit)
  }

  function RainSentence(rain: bool, wording: RainWording): string {
    "It is " + RainPhrase(rain, wording)
  }

  function LightningSentence(lightning: bool): string {
    "There are " + (if lightning then "lightning strikes in the area" else "no lightning strikes in the area")
  }

  /** The four sentences, without their closing '.'. */
  function Sentences(cx: int, cy: int, burning: bool, t: int, rain: bool, lightning: bool,
                     unit: TemperatureUnit, wording: RainWording): seq<string> {
    [AreaSentence(cx, cy, burning), TemperatureSentence(t, unit), RainSentence(rain, wording), LightningSentence(lightning)]
  }

  lemma NoDotInConcat(a: string, b: string)
    requires '.' !in a && '.' !in b
    ensures '.' !in a + b
  {
  }

  lemma AreaSentenceHasNoDot(cx: int, cy: int, burning: bool)
    ensures '.' !in AreaSentence(cx, cy, burning)
  {
    var a, b := IntToString(cx), IntToString(cy);
    var fire := if burning then "burning" else "not burning";
    assert '.' !in "The selected area (" && '.' !in ", " && '.' !in ") is " && '.' !in fire;
    NoDotInConcat("The selected area (", a);
    NoDotInConcat("The selected area (" + a, ", ");
    NoDotInConcat("The selected area (" + a + ", ", b);
    NoDotInConcat("The selected area (" + a + ", " + b, ") is ");
    NoDotInConcat("The selected area (" + a + ", " + b + ") is ", fire);
  }

  lemma TemperatureSentenceHasNoDot(t: int, unit: TemperatureUnit)
    ensures '.' !in TemperatureSentence(t, unit)
  {
    var c := IntToString(t);
    assert '.' !in "The temperature is " && '.' !in UnitSymbol(unit);
    NoDotInConcat("The temperature is ", c);
    NoDotInConcat("The temperature is " + c, UnitSymbol(unit));
  }

  lemma RainSentenceHasNoDot(rain: bool, wording: RainWording)
    ensures '.' !in RainSentence(rain, wording)
  {
  }

  lemma LightningSentenceHasNoDot(lightning: bool)
    ensures '.' !in LightningSentence(lightning)
  {
  }

  /** Python's `s.split('.')` of four dot-free sentences each closed by a
      '.' gives the sentences and an empty last part. */
  lemma SplitFourSentences(s0: string, s1: string, s2: string, s3: string)
    requires '.' !in s0 && '.' !in s1 && '.' !in s2 && '.' !in s3
    ensures Split(s0 + "." + (s1 + "." + (s2 + "." + (s3 + "."))), '.') == [s0, s1, s2, s3, ""]
  {
    assert Split("", '.') == [""];
    SplitAtFirstSeparator(s3, '.', "");
    assert s3 + "." == s3 + ['.'] + "";
    SplitAtFirstSeparator(s2, '.', s3 + ".");
    SplitAtFirstSeparator(s1, '.', s2 + "." + (s3 + "."));
    SplitAtFirstSeparator(s0, '.', s1 + "." + (s2 + "." + (s3 + ".")));
  }

  /** The annotation, assembled piece by piece as the handler's `+=`
      statements do. Splitting it at '.' gives back the four sentences and
      an empty last part. */
  function Annotation(cx: int, cy: int, burning: bool, t: int, rain: bool, lightning: bool,
                      unit: TemperatureUnit, wording: RainWording): (text: string)
    ensures Split(text, '.') == Sentences(cx, cy, burning, t, rain, lightning, unit, wording) + [""]
  {
    var a := "The selected area (" + IntToString(cx) + ", " + IntToString(cy) + ") is ";
    var a := a + (if burning then "burning." else "not burning.");
    var a := a + "The temperature is " + IntToString(t) + UnitSymbol(unit) + ".It is ";
    var a := a + RainPhrase(rain, wording) + ".There are ";
    var text := a + (if lightning then "lightning strikes in the area." else "no lightning strikes in the area.");
    AnnotationIsJoin(cx, cy, burning, t, rain, lightning, unit, wording);
    text
  }

  /** Regrouping the handler's `+=` pieces into sentences closed by '.':
      each piece that carries a '.' is that '.' next to its words. */
  lemma Regroup(head: string, fire: string, fireDot: string, tempIs: string, c: string, u: string,
                itIs: string, itIsDot: string, r: string, thereAre: string, thereAreDot: string,
                l: string, lDot: string)
    requires fireDot == fire + "." && itIsDot == "." + itIs
    requires thereAreDot == "." + thereAre && lDot == l + "."
    ensures head + fireDot + tempIs + c + u + itIsDot + r + thereAreDot + lDot
         == (head + fire) + "." + ((tempIs + c + u) + "." + ((itIs + r) + "." + ((thereAre + l) + ".")))
  {
  }

  /** The handler's literals that carry a '.'. */
  lemma DottedLiterals(burning: bool, lightning: bool)
    ensures (if burning then "burning." else "not burning.") == (if burning then "burning" else "not burning") + "."
    ensures ".It is " == "." + "It is "
    ensures ".There are " == "." + "There are "
    ensures (if lightning then "lightning strikes in the area." else "no lightning strikes in the area.")
         == (if lightning then "lightning strikes in the area" else "no lightning strikes in the area") + "."
  {
  }

  /** The four sentences, each closed by '.', split back into themselves
      and an empty last part. */
  lemma SentencesSplit(cx: int, cy: int, burning: bool, t: int, rain: bool, lightning: bool,
                       unit: TemperatureUnit, wording: RainWording)
    ensures var s0, s1, s2, s3 := AreaSentence(cx, cy, burning), TemperatureSentence(t, unit),
                                  RainSentence(rain, wording), LightningSentence(lightning);
            Split(s0 + "." + (s1 + "." + (s2 + "." + (s3 + "."))), '.')
            == Sentences(cx, cy, burning, t, rain, lightning, unit, wording) + [""]
  {
    var s0, s1, s2, s3 := AreaSentence(cx, cy, burning), TemperatureSentence(t, unit),
                          RainSentence(rain, wording), LightningSentence(lightning);
    AreaSentenceHasNoDot(cx, cy, burning);
    TemperatureSentenceHasNoDot(t, unit);
    RainSentenceHasNoDot(rain, wording);
    LightningSentenceHasNoDot(lightning);
    SplitFourSentences(s0, s1, s2, s3);
    assert Sentences(cx, cy, burning, t, rain, lightning, unit, wording) + [""] == [s0, s1, s2, s3, ""];
  }

  lemma AnnotationIsJoin(cx: int, cy: int, burning: bool, t: int, rain: bool, lightning: bool,
                         unit: TemperatureUnit, wording: RainWording)
    ensures var text := "The selected area (" + IntToString(cx) + ", " + IntToString(cy) + ") is "
                     + (if burning then "burning." else "not burning.")
                     + "The temperature is " + IntToString(t) + UnitSymbol(unit) + ".It is "
                     + RainPhrase(rain, wording) + ".There are "
                     + (if lightning then "lightning strikes in the area." else "no lightning strikes in the area.");
            Split(text, '.') == Sentences(cx, cy, burning, t, rain, lightning, unit, wording) + [""]
  {
    var head := "The selected area (" + IntToString(cx) + ", " + IntToString(cy) + ") is ";
    DottedLiterals(burning, lightning);
    Regroup(head, if burning then "burning" else "not burning", if burning then "burning." else "not burning.",
            "The temperature is ", IntToString(t), UnitSymbol(unit),
            "It is ", ".It is ", RainPhrase(rain, wording), "There are ", ".There are ",
            if lightning then "lightning strikes in the area" else "no lightning strikes in the area",
            if lightning then "lightning strikes in the area." else "no lightning strikes in the area.");
    SentencesSplit(cx, cy, burning, t, rain, lightning, unit, wording);
  }

  /** The forest fits the canvas: `size_x` columns and `size_y` rows. */
  ghost predicate Fits(forest: Forest, f: Frame)
    reads forest
  {
    forest.Valid() && |forest.lightning| == f.sizeY && Cols(forest.lightning) == f.sizeX
  }

  /** `handle_mouse_down(x, y)`: None when the computed cell is outside the
      grid (the handler returns without drawing); otherwise the annotation of
      the cell, whose fire flag is read as `wildfires[coord_y, coord_x]` and
      whose conditions come from the accessors at (coord_x, coord_y). The
      first four parts of its split are the four sentences, and the fire
      flag reported is the ignition rule applied to the reported
      conditions. */
  function HandleMouseDown(forest: Forest, f: Frame, unit: TemperatureUnit, wording: RainWording,
                           px: real, py: real): (annotation: Option<string>)
    reads forest
    requires f.Valid() && Fits(forest, f)
    ensures annotation.None? <==> Locate(f, px, py).None?
    ensures annotation.Some? ==>
              var (cx, cy) := Locate(f, px, py).value;
              && 0 <= cx < f.sizeX && 0 <= cy < f.sizeY
              && |Split(annotation.value, '.')| == 5
              && Split(annotation.value, '.')[..4]
                 == Sentences(cx, cy,
                              IsAreaOnFire(forest.IsLightning(cx, cy), forest.IsRaining(cx, cy),
                                           forest.GetTemperature(cx, cy), RainRequired),
                              forest.GetTemperature(cx, cy), forest.IsRaining(cx, cy),
                              forest.IsLightning(cx, cy), unit, wording)
  {
    match Locate(f, px, py)
    case None => None
    case Some((cx, cy)) =>
      var burning := cx < 0 || forest.wildfires[cy][cx];
      FireGridAgreesWithAccessors(forest, cx, cy);
      var text := Annotation(cx, cy, burning, forest.GetTemperature(cx, cy), forest.IsRaining(cx, cy),
                             forest.IsLightning(cx, cy), unit, wording);
      assert (Sentences(cx, cy, burning, forest.GetTemperature(cx, cy), forest.IsRaining(cx, cy),
                        forest.IsLightning(cx, cy), unit, wording) + [""])[..4]
          == Sentences(cx, cy, burning, forest.GetTemperature(cx, cy), forest.IsRaining(cx, cy),
                       forest.IsLightning(cx, cy), unit, wording);
      Some(text)
  }

  /** A click on the pixel where the sprite of (x, y) starts annotates
      (x, y), in a notebook whose drawing and click handler share a frame. */
  lemma ClickOnSpriteAnnotatesItsCell(forest: Forest, f: Frame, unit: TemperatureUnit, wording: RainWording,
                                      x: int, y: int)
    requires f.Valid() && Fits(forest, f)
    requires 0 <= x < f.sizeX && 0 <= y < f.sizeY
    ensures HandleMouseDown(forest, f, unit, wording, ScreenX(f, x), ScreenY(f, y))
         == Some(Annotation(x, y, forest.wildfires[y][x], forest.GetTemperature(x, y), forest.IsRaining(x, y),
                            forest.IsLightning(x, y), unit, wording))
  {
    LocateInvertsPlacement(f, x, y);
  }

  /** The temperature in the second sentence reads back as the cell's
      temperature. */
  lemma TemperatureReadsBack(cx: int, cy: int, burning: bool, t: int, rain: bool, lightning: bool,
                             unit: TemperatureUnit, wording: RainWording)
    ensures var s := Sentences(cx, cy, burning, t, rain, lightning, unit, wording)[1];
            var digits := s[|"The temperature is "| .. |s| - 2];
            |digits| > 0
            && (if digits[0] == '-' then AllDigits(digits[1..]) else AllDigits(digits))
            && ParseInt(digits) == t
  {
    var s := Sentences(cx, cy, burning, t, rain, lightning, unit, wording)[1];
    assert s == "The temperature is " + IntToString(t) + UnitSymbol(unit);
    assert s[|"The temperature is "| .. |s| - 2] == IntToString(t);
    ParseIntToString(t);
  }
}
