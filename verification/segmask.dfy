/**
  The interactive edits of the segmentation view: two parallel RGBA
  rasters, the mask (`segImage`, whose colours identify segments) and the
  output image (`image`, what is shown and handed to the renderer), and the
  mouse and colour-edit handlers that change them. Colours are byte triples;
  the source's round trip through floats in [0, 1] is not modelled.
 */
module SegMask {
  import opened Pixels
  import opened Blinking

  /** The mask raster and the output raster of one segmentation view. */
  datatype MaskImages = MaskImages(width: nat, height: nat, segImage: Buffer, image: Buffer)
  {
    function PixelCount(): nat { width * height }

    /** Both rasters hold width * height RGBA pixels. */
    predicate Valid()
    {
      |segImage| == PixelCount() * Channels && |image| == PixelCount() * Channels
    }
  }

  /** The interaction state the panel keeps between frames: the colour under
      the last click (`active`), the colour the output was last focused on,
      the two mode check boxes, and the brush. */
  datatype Session = Session(
    active: Rgb,
    focus: Rgb,
    focusEnable: bool,
    painting: bool,
    paintColor: Rgb,
    brushRadius: nat)

  /** Alpha given to a pixel by the focus pass. */
  function FocusAlpha(mask: Rgb, active: Rgb): Byte
  {
    if mask == active then 255 else 0
  }

  // ---------------------------------------------------------------------
  // Focus pass
  // ---------------------------------------------------------------------

  /** The focus pass over the first `m` pixels: their output alpha is 255
      where the mask colour is the active colour and 0 elsewhere; the output
      colours, the mask and the later pixels are untouched. */
  function FocusUpTo(img: MaskImages, active: Rgb, m: nat): (r: MaskImages)
    requires img.Valid() && m <= img.PixelCount()
    ensures r.Valid() && r.width == img.width && r.height == img.height
    ensures r.segImage == img.segImage
    ensures forall p | 0 <= p < m :: AlphaAt(r.image, p) == FocusAlpha(RgbAt(img.segImage, p), active)
    ensures forall p | m <= p < img.PixelCount() :: AlphaAt(r.image, p) == AlphaAt(img.image, p)
    ensures forall p | 0 <= p < img.PixelCount() :: RgbAt(r.image, p) == RgbAt(img.image, p)
  {
    if m == 0 then img
    else
      var r := FocusUpTo(img, active, m - 1);
      r.(image := SetAlpha(r.image, m - 1, FocusAlpha(RgbAt(r.segImage, m - 1), active)))
  }

  /** The focus pass over the whole image: afterwards every pixel is opaque
      exactly when its mask colour is the active colour and transparent
      otherwise, while the output colours and the whole mask stay as they
      were. */
  function Focus(img: MaskImages, active: Rgb): (r: MaskImages)
    requires img.Valid()
    ensures r.Valid() && r.width == img.width && r.height == img.height
    ensures r.segImage == img.segImage
    ensures forall p | 0 <= p < img.PixelCount() ::
      && (AlphaAt(r.image, p) == 255 <==> RgbAt(img.segImage, p) == active)
      && (AlphaAt(r.image, p) == 0 <==> RgbAt(img.segImage, p) != active)
      && RgbAt(r.image, p) == RgbAt(img.image, p)
  {
    FocusUpTo(img, active, img.PixelCount())
  }

  /** The output image only depends on the mask, the active colour and the
      output colours, so focusing twice on one colour equals focusing once. */
  lemma FocusIdempotent(img: MaskImages, active: Rgb)
    requires img.Valid()
    ensures Focus(Focus(img, active), active) == Focus(img, active)
  {
    var once := Focus(img, active);
    var twice := Focus(once, active);
    forall p | 0 <= p < |once.image| / 4
      ensures RgbAt(twice.image, p) == RgbAt(once.image, p)
      ensures AlphaAt(twice.image, p) == AlphaAt(once.image, p)
    {
    }
    PixelwiseEqual(twice.image, once.image);
  }

  /** The output image is showing exactly the pixels of mask colour `c`. */
  predicate FocusedOn(img: MaskImages, c: Rgb)
    requires img.Valid()
  {
    Focus(img, c) == img
  }

  // ---------------------------------------------------------------------
  // Right-click re-focus
  // ---------------------------------------------------------------------

  /** The right-click handler in focus mode as written: the focus pass is
      rerun only when the remembered focus colour differs from the active
      colour, and afterwards the focus colour is the active colour. */
  function RefocusAsWritten(img: MaskImages, s: Session): (r: (MaskImages, Session))
    requires img.Valid()
    ensures r.0.Valid() && r.0.segImage == img.segImage
    ensures r.1 == s.(focus := s.active)
    ensures s.focus == s.active ==> r.0 == img
    ensures s.focus != s.active ==> r.0 == Focus(img, s.active)
  {
    if s.focus != s.active then (Focus(img, s.active), s.(focus := s.active))
    else (img, s)
  }

  /** The remembered focus colour outlives the focus itself: the blink's
      alpha restore and unticking focus mode rewrite the alpha bytes but keep
      the focus colour. On a 1 x 1 mask of colour (1, 2, 3) whose output alpha
      was restored to 7, a right click on that colour skips the pass and the
      output stays unfocused. */
  lemma StaleGuardLeavesUnfocused()
    ensures var c := Rgb(1, 2, 3);
      var img := MaskImages(1, 1, [1, 2, 3, 255], [1, 2, 3, 7]);
      var s := Session(c, c, true, false, c, 5);
      && img.Valid()
      && RefocusAsWritten(img, s) == (img, s)
      && !FocusedOn(img, c)
  {
    var c := Rgb(1, 2, 3);
    var img := MaskImages(1, 1, [1, 2, 3, 255], [1, 2, 3, 7]);
    assert AlphaAt(Focus(img, c).image, 0) == 255;
  }

  /** The right-click handler in focus mode with the guard dropped: the focus
      pass always runs on the active colour, which becomes the focus colour. */
  function Refocus(img: MaskImages, s: Session): (r: (MaskImages, Session))
    requires img.Valid()
    ensures r.0.Valid() && r.0.segImage == img.segImage
    ensures r.0.width == img.width && r.0.height == img.height
    ensures r.1 == s.(focus := s.active)
    ensures forall p | 0 <= p < img.PixelCount() ::
      && RgbAt(r.0.image, p) == RgbAt(img.image, p)
      && (AlphaAt(r.0.image, p) == 255 <==> RgbAt(img.segImage, p) == s.active)
      && (AlphaAt(r.0.image, p) == 0 <==> RgbAt(img.segImage, p) != s.active)
  {
    (Focus(img, s.active), s.(focus := s.active))
  }

  /** Whatever state the alpha bytes were left in, a right click in focus
      mode leaves the output focused on the new focus colour. */
  lemma RefocusEstablishesFocus(img: MaskImages, s: Session)
    requires img.Valid()
    ensures var r := Refocus(img, s); r.0.Valid() && FocusedOn(r.0, r.1.focus)
  {
    FocusIdempotent(img, s.active);
  }

  /** Where the guard's premise holds (the output already focused on the
      focus colour whenever that colour is active), dropping the guard
      changes nothing. */
  lemma RefocusAgreesWhenGuardSound(img: MaskImages, s: Session)
    requires img.Valid()
    requires s.focus == s.active ==> FocusedOn(img, s.focus)
    ensures Refocus(img, s) == RefocusAsWritten(img, s)
  {
  }

  /** A second right click with the same active colour changes nothing. */
  lemma RefocusIdempotent(img: MaskImages, s: Session)
    requires img.Valid()
    ensures var r := Refocus(img, s); Refocus(r.0, r.1) == r
  {
    FocusIdempotent(img, s.active);
  }

  // ---------------------------------------------------------------------
  // Region recolour
  // ---------------------------------------------------------------------

  /** The recolour pass over the first `m` pixels: each of them whose mask
      colour is `from` gets colour `to` in both the mask and the output; all
      other pixels and every alpha byte keep their values. */
  function RecolorUpTo(img: MaskImages, from: Rgb, to: Rgb, m: nat): (r: MaskImages)
    requires img.Valid() && m <= img.PixelCount()
    ensures r.Valid() && r.width == img.width && r.height == img.height
    ensures forall p | 0 <= p < img.PixelCount() ::
      && AlphaAt(r.segImage, p) == AlphaAt(img.segImage, p)
      && AlphaAt(r.image, p) == AlphaAt(img.image, p)
    ensures forall p | 0 <= p < img.PixelCount() ::
      if p < m && RgbAt(img.segImage, p) == from
      then RgbAt(r.segImage, p) == to && RgbAt(r.image, p) == to
      else RgbAt(r.segImage, p) == RgbAt(img.segImage, p) && RgbAt(r.image, p) == RgbAt(img.image, p)
  {
    if m == 0 then img
    else
      var r := RecolorUpTo(img, from, to, m - 1);
      if RgbAt(r.segImage, m - 1) == from then
        r.(segImage := SetRgb(r.segImage, m - 1, to), image := SetRgb(r.image, m - 1, to))
      else r
  }

  /** The colour edit of the active segment: every pixel whose mask colour is
      the active colour takes the new colour in both rasters, nothing else
      changes, and the new colour becomes the active one. */
  function Recolor(img: MaskImages, s: Session, newColor: Rgb): (r: (MaskImages, Session))
    requires img.Valid()
    ensures r.0.Valid() && r.0.width == img.width && r.0.height == img.height
    ensures r.1 == s.(active := newColor)
    ensures forall p | 0 <= p < img.PixelCount() ::
      && AlphaAt(r.0.segImage, p) == AlphaAt(img.segImage, p)
      && AlphaAt(r.0.image, p) == AlphaAt(img.image, p)
    ensures forall p | 0 <= p < img.PixelCount() ::
      if RgbAt(img.segImage, p) == s.active
      then RgbAt(r.0.segImage, p) == newColor && RgbAt(r.0.image, p) == newColor
      else RgbAt(r.0.segImage, p) == RgbAt(img.segImage, p) && RgbAt(r.0.image, p) == RgbAt(img.image, p)
  {
    (RecolorUpTo(img, s.active, newColor, img.PixelCount()), s.(active := newColor))
  }

  /** Repeating a recolour from the same colour to the same colour changes
      nothing more. */
  lemma RecolorIdempotent(img: MaskImages, from: Rgb, to: Rgb)
    requires img.Valid()
    ensures var once := RecolorUpTo(img, from, to, img.PixelCount());
      RecolorUpTo(once, from, to, once.PixelCount()) == once
  {
    var once := RecolorUpTo(img, from, to, img.PixelCount());
    var twice := RecolorUpTo(once, from, to, once.PixelCount());
    forall p | 0 <= p < |once.image| / 4
      ensures RgbAt(twice.image, p) == RgbAt(once.image, p)
    {
    }
    forall p | 0 <= p < |once.segImage| / 4
      ensures RgbAt(twice.segImage, p) == RgbAt(once.segImage, p)
    {
    }
    PixelwiseEqual(twice.image, once.image);
    PixelwiseEqual(twice.segImage, once.segImage);
  }

  /** After recolouring to a different colour, no mask pixel keeps the old
      colour, and exactly the old region plus the pixels already of the new
      colour carry the new one. */
  lemma RecolorMovesRegion(img: MaskImages, s: Session, newColor: Rgb)
    requires img.Valid() && s.active != newColor
    ensures var r := Recolor(img, s, newColor);
      forall p | 0 <= p < img.PixelCount() ::
        && RgbAt(r.0.segImage, p) != s.active
        && (RgbAt(r.0.segImage, p) == newColor <==>
              RgbAt(img.segImage, p) == s.active || RgbAt(img.segImage, p) == newColor)
  {
  }

  // ---------------------------------------------------------------------
  // Brush painting
  // ---------------------------------------------------------------------

  /** A brush stamp: the cursor pixel, the radius and the paint colour. */
  datatype Brush = Brush(cx: int, cy: int, radius: nat, color: Rgb)

  /** `v` clamped to `[lo, hi]`. */
  function Clamp(v: int, lo: int, hi: int): (r: int)
    requires lo <= hi
    ensures lo <= r <= hi
    ensures lo <= v <= hi ==> r == v
    ensures v < lo ==> r == lo
    ensures hi < v ==> r == hi
  {
    if v < lo then lo else if hi < v then hi else v
  }

  /** Offset `(i, j)` of the brush's 2r x 2r box is painted when its distance
      from the box centre is strictly below the radius (a Euclidean disc). */
  predicate InDisc(i: int, j: int, radius: int)
  {
    (i - radius) * (i - radius) + (j - radius) * (j - radius) < radius * radius
  }

  /** The pixel that offset `(i, j)` of the brush writes, with both
      coordinates clamped into the image. */
  function BrushPixel(b: Brush, width: nat, height: nat, i: int, j: int): (p: int)
    requires width >= 1 && height >= 1
    ensures 0 <= p < width * height
  {
    var x := Clamp(b.cx - b.radius + i, 0, width - 1);
    var y := Clamp(b.cy - b.radius + j, 0, height - 1);
    PixelIndexBound(x, y, width, height, 0);
    y * width + x
  }

  /** Offset `(i, j)` of the brush box is inside the disc and writes pixel `p`. */
  predicate Hit(b: Brush, width: nat, height: nat, i: int, j: int, p: int)
    requires width >= 1 && height >= 1
  {
    0 <= i < 2 * b.radius && 0 <= j < 2 * b.radius && InDisc(i, j, b.radius)
      && BrushPixel(b, width, height, i, j) == p
  }

  /** Pixel `p` is written by column `i` of the brush box, rows below `jEnd`. */
  ghost predicate CoveredInColumn(b: Brush, width: nat, height: nat, i: int, jEnd: int, p: int)
    requires width >= 1 && height >= 1
  {
    exists j | 0 <= j < jEnd :: Hit(b, width, height, i, j, p)
  }

  /** Pixel `p` is written by a column of the brush box below `iEnd`. */
  ghost predicate CoveredBefore(b: Brush, width: nat, height: nat, iEnd: int, p: int)
    requires width >= 1 && height >= 1
  {
    exists i, j | 0 <= i < iEnd :: Hit(b, width, height, i, j, p)
  }

  /** Pixel `p` is written by the brush stamp. */
  ghost predicate Covered(b: Brush, width: nat, height: nat, p: int)
    requires width >= 1 && height >= 1
  {
    exists i, j :: Hit(b, width, height, i, j, p)
  }

  /** The inner brush loop for column `i`, rows below `jEnd`: covered pixels
      take the paint colour, every other byte, alpha included, is kept. */
  function PaintColumn(buf: Buffer, b: Brush, width: nat, height: nat, i: int, jEnd: nat): (r: Buffer)
    requires width >= 1 && height >= 1 && |buf| == width * height * Channels
    requires 0 <= i < 2 * b.radius && jEnd <= 2 * b.radius
    ensures |r| == |buf|
    ensures forall p | 0 <= p < width * height ::
      && RgbAt(r, p) == (if CoveredInColumn(b, width, height, i, jEnd, p) then b.color else RgbAt(buf, p))
      && AlphaAt(r, p) == AlphaAt(buf, p)
  {
    if jEnd == 0 then buf
    else
      var r := PaintColumn(buf, b, width, height, i, jEnd - 1);
      if InDisc(i, jEnd - 1, b.radius) then
        var q := BrushPixel(b, width, height, i, jEnd - 1);
        assert Hit(b, width, height, i, jEnd - 1, q);
        assert forall p | 0 <= p < width * height ::
          CoveredInColumn(b, width, height, i, jEnd, p) <==> CoveredInColumn(b, width, height, i, jEnd - 1, p) || p == q;
        SetRgb(r, q, b.color)
      else
        assert forall p | 0 <= p < width * height ::
          CoveredInColumn(b, width, height, i, jEnd, p) <==> CoveredInColumn(b, width, height, i, jEnd - 1, p);
        r
  }

  /** The outer brush loop over the columns below `iEnd`. */
  function PaintColumns(buf: Buffer, b: Brush, width: nat, height: nat, iEnd: nat): (r: Buffer)
    requires width >= 1 && height >= 1 && |buf| == width * height * Channels
    requires iEnd <= 2 * b.radius
    ensures |r| == |buf|
    ensures forall p | 0 <= p < width * height ::
      && RgbAt(r, p) == (if CoveredBefore(b, width, height, iEnd, p) then b.color else RgbAt(buf, p))
      && AlphaAt(r, p) == AlphaAt(buf, p)
  {
    if iEnd == 0 then buf
    else
      var prev := PaintColumns(buf, b, width, height, iEnd - 1);
      var r := PaintColumn(prev, b, width, height, iEnd - 1, 2 * b.radius);
      assert forall p | 0 <= p < width * height ::
        CoveredBefore(b, width, height, iEnd, p) <==>
          CoveredBefore(b, width, height, iEnd - 1, p) || CoveredInColumn(b, width, height, iEnd - 1, 2 * b.radius, p);
      r
  }

  /** One brush stamp: in both the mask and the output, every pixel under the
      disc takes the paint colour's RGB, no alpha byte is written, and every
      other pixel keeps its colour. */
  function Paint(img: MaskImages, b: Brush): (r: MaskImages)
    requires img.Valid() && img.width >= 1 && img.height >= 1
    ensures r.Valid() && r.width == img.width && r.height == img.height
    ensures forall p | 0 <= p < img.PixelCount() ::
      && AlphaAt(r.segImage, p) == AlphaAt(img.segImage, p)
      && AlphaAt(r.image, p) == AlphaAt(img.image, p)
      && RgbAt(r.segImage, p) == (if Covered(b, img.width, img.height, p) then b.color else RgbAt(img.segImage, p))
      && RgbAt(r.image, p) == (if Covered(b, img.width, img.height, p) then b.color else RgbAt(img.image, p))
  {
    var w := img.width;
    var h := img.height;
    assert forall p | 0 <= p < w * h ::
      Covered(b, w, h, p) <==> CoveredBefore(b, w, h, 2 * b.radius, p);
    MaskImages(w, h, PaintColumns(img.segImage, b, w, h, 2 * b.radius),
               PaintColumns(img.image, b, w, h, 2 * b.radius))
  }

  /** Stamping the same brush twice equals stamping it once. */
  lemma PaintIdempotent(img: MaskImages, b: Brush)
    requires img.Valid() && img.width >= 1 && img.height >= 1
    ensures Paint(Paint(img, b), b) == Paint(img, b)
  {
    var once := Paint(img, b);
    var twice := Paint(once, b);
    PixelwiseEqual(twice.image, once.image);
    PixelwiseEqual(twice.segImage, once.segImage);
  }

  // ---------------------------------------------------------------------
  // Click handling
  // ---------------------------------------------------------------------

  /** The mouse state of one frame over the mask view: the truncated pixel
      coordinates under the cursor, already clamped to `[0, width]` and
      `[0, height]`, and the two buttons. */
  datatype Mouse = Mouse(x: int, y: int, left: bool, right: bool)

  /** The pixel read under the cursor, with both coordinates clamped into
      the image. */
  function ClickPixel(img: MaskImages, x: int, y: int): (p: int)
    requires img.width >= 1 && img.height >= 1
    ensures 0 <= p < img.PixelCount()
  {
    var cx := Clamp(x, 0, img.width - 1);
    var cy := Clamp(y, 0, img.height - 1);
    PixelIndexBound(cx, cy, img.width, img.height, 0);
    cy * img.width + cx
  }

  /** The pixel a click at the brush position reads is hit by the centre
      offset `(r, r)` of a brush of radius at least 1. */
  lemma CursorCovered(img: MaskImages, b: Brush)
    requires img.Valid() && img.width >= 1 && img.height >= 1 && b.radius >= 1
    ensures Covered(b, img.width, img.height, ClickPixel(img, b.cx, b.cy))
  {
    var p := BrushPixel(b, img.width, img.height, b.radius, b.radius);
    assert b.radius * b.radius >= 1;
    assert Hit(b, img.width, img.height, b.radius, b.radius, p);
  }

  /** A brush of radius at least 1 paints, in both rasters, the pixel a click
      at the same position reads. */
  lemma PaintCoversCursor(img: MaskImages, b: Brush)
    requires img.Valid() && img.width >= 1 && img.height >= 1 && b.radius >= 1
    ensures var p := ClickPixel(img, b.cx, b.cy);
      RgbAt(Paint(img, b).image, p) == b.color && RgbAt(Paint(img, b).segImage, p) == b.color
  {
    CursorCovered(img, b);
  }

  /** The disc is Euclidean: the corner offset `(0, 0)` of the brush box is
      never painted, while the centre offset `(r, r)` always is. */
  lemma DiscExcludesCorners(radius: nat)
    requires radius >= 1
    ensures !InDisc(0, 0, radius) && InDisc(radius, radius, radius)
  {
  }

  /** A press on the mask view; the handler only runs while a button is
      down. The mask colour under the cursor becomes the
      active colour; then a left click with no blink running and paint mode
      off focuses the output on that colour and starts a blink, otherwise a
      right click in focus mode re-focuses, otherwise a left click in paint
      mode stamps the brush at the cursor, and otherwise nothing else
      changes. Only the focus colour and the active colour of the session
      can change. */
  function Click(img: MaskImages, s: Session, blink: Blink, m: Mouse): (r: (MaskImages, Session, Blink))
    requires img.Valid() && img.width >= 1 && img.height >= 1
    requires m.left || m.right
    ensures r.0.Valid() && r.0.width == img.width && r.0.height == img.height
    ensures var a := RgbAt(img.segImage, ClickPixel(img, m.x, m.y));
      && r.1.active == a
      && r.1.(focus := s.focus) == s.(active := a)
      && (r.1.focus != s.focus ==> r.1.focus == a && (m.left || m.right))
    ensures r.0.segImage != img.segImage ==> m.left && s.painting
    ensures r.2 != blink ==> m.left && !blink.inBlink && !s.painting && r.2 == Blink(true, 0)
    ensures m.left && !blink.inBlink && !s.painting ==>
      && r.2 == Blink(true, 0)
      && r.1.focus == r.1.active
      && r.0.segImage == img.segImage
      && AlphaAt(r.0.image, ClickPixel(img, m.x, m.y)) == 255
      && forall p | 0 <= p < img.PixelCount() ::
           && RgbAt(r.0.image, p) == RgbAt(img.image, p)
           && (AlphaAt(r.0.image, p) == 255 <==> RgbAt(img.segImage, p) == RgbAt(img.segImage, ClickPixel(img, m.x, m.y)))
           && (AlphaAt(r.0.image, p) == 0 <==> RgbAt(img.segImage, p) != RgbAt(img.segImage, ClickPixel(img, m.x, m.y)))
    ensures var a := RgbAt(img.segImage, ClickPixel(img, m.x, m.y));
      !(m.left && !blink.inBlink && !s.painting) && m.right && s.focusEnable ==>
        (r.0, r.1) == Refocus(img, s.(active := a)) && r.2 == blink && FocusedOn(r.0, a)
    ensures !(m.left && !blink.inBlink && !s.painting) && !(m.right && s.focusEnable) && m.left && s.painting ==>
      r.0 == Paint(img, Brush(m.x, m.y, s.brushRadius, s.paintColor)) && r.1.focus == s.focus
    ensures !(m.left && !blink.inBlink && !s.painting) && !(m.right && s.focusEnable) && !(m.left && s.painting) ==>
      r.0 == img && r.1.focus == s.focus && r.2 == blink
  {
    var active := RgbAt(img.segImage, ClickPixel(img, m.x, m.y));
    var s1 := s.(active := active);
    if m.left && !blink.inBlink && !s.painting then
      (Focus(img, active), s1.(focus := active), StartBlink(blink, true, false))
    else if m.right && s.focusEnable then
      RefocusEstablishesFocus(img, s1);
      var (img', s') := Refocus(img, s1);
      (img', s', blink)
    else if m.left && s.painting then
      (Paint(img, Brush(m.x, m.y, s.brushRadius, s.paintColor)), s1, blink)
    else
      (img, s1, blink)
  }

  /** A click's effect on the blink is the one `Frame` gives a drawn frame
      whose focus click is a left click with paint mode off: taking the
      click after the frame's blink check and ticking afterwards yields the
      frame's new state. */
  lemma ClickAgreesWithFrame(img: MaskImages, s: Session, b: Blink, m: Mouse)
    requires img.Valid() && img.width >= 1 && img.height >= 1
    requires m.left || m.right
    ensures FrameTick(Click(img, s, EndBlink(b).0, m).2) == Frame(b, FrameInput(true, m.left && !s.painting)).0
  {
  }

  // ---------------------------------------------------------------------
  // Index arithmetic as written
  // ---------------------------------------------------------------------

  /** The byte offset the source computes for brush offset `(i, j)`: both
      coordinates are clamped with the image width and height as inclusive
      upper bounds. */
  function PaintIndexAsWritten(b: Brush, width: nat, height: nat, i: int, j: int): int
  {
    PixelIndex(Clamp(b.cx - b.radius + i, 0, width), Clamp(b.cy - b.radius + j, 0, height), width)
  }

  /** On a 100 x 100 mask with the default radius 5, a stamp at the top edge
      writes past the end of the buffer: offset (5, 9) is inside the disc and
      clamps to row 100, byte 40200 of a 40000-byte raster. At the right edge
      the clamped column `width` lands on the first pixel of the next row. */
  lemma PaintAsWrittenOverruns()
    ensures var b := Brush(50, 100, 5, Rgb(0, 0, 0));
      && InDisc(5, 9, 5)
      && PaintIndexAsWritten(b, 100, 100, 5, 9) == 40200
      && PaintIndexAsWritten(b, 100, 100, 5, 9) >= 100 * 100 * Channels
    ensures forall y: int, width: nat :: PixelIndex(width, y, width) == PixelIndex(0, y + 1, width)
  {
  }

  /** The byte offset the source reads under the cursor, from coordinates in
      `[0, width]` x `[0, height]`. */
  function ClickIndexAsWritten(x: int, y: int, width: nat): int
  {
    PixelIndex(x, y, width)
  }

  /** With the cursor on the top edge the flipped row is `height` and the
      read lies at or past the end of the raster, whatever the image size. */
  lemma ClickAsWrittenOverruns(x: int, width: nat, height: nat)
    requires 0 <= x <= width
    ensures ClickIndexAsWritten(x, height, width) >= width * height * Channels
  {
    assert height * width * Channels == width * height * Channels;
  }

  /** With the clamps fixed to `width - 1` and `height - 1`, every byte the
      brush writes and the click reads lies inside the raster. */
  lemma ClampedIndicesInBounds(img: MaskImages, b: Brush, i: int, j: int, x: int, y: int, k: int)
    requires img.Valid() && img.width >= 1 && img.height >= 1 && 0 <= k < Channels
    ensures 0 <= BrushPixel(b, img.width, img.height, i, j) * Channels + k < |img.segImage|
    ensures 0 <= ClickPixel(img, x, y) * Channels + k < |img.segImage|
  {
  }
}
