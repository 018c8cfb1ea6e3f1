/** One poem: the palette of a subject's name, and one attempt at drawing an
    image of the subject with it (concrete.py:47-52 and 74-84). The image is
    given by its size and by what PIL's resize returns for a requested size. */
module Poem {
  import opened Types
  import opened Palette
  import opened Geometry
  import opened Glyphs

  /** `px` has `rows` rows of `cols` cells each, as PIL's resize promises. */
  predicate Shaped(px: Pixels, cols: int, rows: int)
  {
    |px| == rows && forall i :: 0 <= i < |px| ==> |px[i]| == cols
  }

  /** The pixels PIL returns for every positive size have that size. */
  ghost predicate ResizeShapes(resize: (int, int) -> Pixels)
  {
    forall c, r :: c > 0 && r > 0 ==> Shaped(resize(c, r), c, r)
  }

  /** One attempt at an image of `w` by `h` pixels (concrete.py:76-84), inside
      the `try` of the retry loop: the grid size, the resize, the glyph block.
      PIL refuses to resize to a size with a zero side. Every failure of an
      attempt is raised inside that `try`, so its `except` catches it. */
  function Attempt(palette: string, w: nat, h: nat, resize: (int, int) -> Pixels): (r: Result<string>)
    requires |palette| >= 1
    ensures r.Err? ==> Caught(r.error)
    ensures r == Err(ZeroDimension) <==> w == 0 || h == 0
    ensures r == Err(EmptyResize) <==>
      w > 0 && h > 0 && (GridSize(w, h, MaxSide).value.cols == 0 || GridSize(w, h, MaxSide).value.rows == 0)
  {
    var size :- GridSize(w, h, MaxSide);
    if size.cols == 0 || size.rows == 0 then Err(EmptyResize)
    else Render(resize(size.cols, size.rows), palette)
  }

  /** The poem of a subject drawn from an image: the palette first, outside the
      `try`, then the attempt. */
  function Drawn(subject: string, w: nat, h: nat, resize: (int, int) -> Pixels): (r: Result<string>)
    ensures r.Err? && !Caught(r.error) <==> exists c :: c in subject && c != ' ' && c !in Density
  {
    var palette :- BuildPalette(Density, subject);
    Attempt(palette, w, h, resize)
  }

  /** A palette built from the density order holds two blanks and then only
      lower-case letters of the subject's name, so it has no `<`. */
  lemma PaletteEntries(subject: string)
    requires BuildPalette(Density, subject).Ok?
    ensures var p := BuildPalette(Density, subject).value;
      |p| >= 2 && p[0] == ' ' && '<' !in p
      && forall c :: c in p ==> c == ' ' || (c in subject && 'a' <= c <= 'z')
  {
    var p := BuildPalette(Density, subject).value;
    assert p == p[..2] + p[2..];
    assert p[..2] == Blanks;
    DensityLowerCase();
    forall c | c in p
      ensures c == ' ' || (c in subject && 'a' <= c <= 'z')
    {
      if c !in p[..2] {
        var t := p[2..];
        assert c in t;
        var k :| 0 <= k < |t| && t[k] == c;
        assert c in Density;
        var d :| 0 <= d < |Density| && Density[d] == c;
        assert multiset(t)[c] > 0;
        assert c != ' ';
        assert multiset(subject)[c] > 0;
      }
    }
  }

  /** A drawn poem is the render, with the palette of the subject's name, of
      the image resized to the grid size, which has no zero side. */
  lemma DrawnRender(subject: string, w: nat, h: nat, resize: (int, int) -> Pixels)
    requires ResizeShapes(resize)
    requires Drawn(subject, w, h, resize).Ok?
    ensures BuildPalette(Density, subject).Ok? && w > 0 && h > 0
    ensures var s := GridSize(w, h, MaxSide).value;
      var px := resize(s.cols, s.rows);
      && s.cols > 0 && s.rows > 0 && Shaped(px, s.cols, s.rows)
      && Drawn(subject, w, h, resize) == Render(px, BuildPalette(Density, subject).value)
  {
    var palette := BuildPalette(Density, subject).value;
    var r := Attempt(palette, w, h, resize);
    assert Drawn(subject, w, h, resize) == r && r.Ok?;
    assert r != Err(ZeroDimension) && r != Err(EmptyResize);
    var s := GridSize(w, h, MaxSide).value;
    SizeBounds(w, h, MaxSide);
    assert s.cols != 0 && s.rows != 0;
    ResizeShaped(resize, s.cols, s.rows);
  }

  /** What PIL returns for a size with no zero side has that size. */
  lemma ResizeShaped(resize: (int, int) -> Pixels, cols: int, rows: int)
    requires ResizeShapes(resize) && cols > 0 && rows > 0
    ensures Shaped(resize(cols, rows), cols, rows)
  {
  }

  /** A drawn poem has one line per row of the grid and one glyph per column;
      with `DefaultBounds` that is at most 40 lines of at most 70 glyphs, the
      longer side of the image reaching its bound. */
  lemma PoemShape(subject: string, w: nat, h: nat, resize: (int, int) -> Pixels)
    requires ResizeShapes(resize)
    requires Drawn(subject, w, h, resize).Ok?
    ensures w > 0 && h > 0
    ensures var s := GridSize(w, h, MaxSide).value;
      var lines := SplitBreaks(Drawn(subject, w, h, resize).value);
      |lines| == s.rows && forall i :: 0 <= i < |lines| ==> |lines[i]| == s.cols
  {
    DrawnRender(subject, w, h, resize);
    var palette := BuildPalette(Density, subject).value;
    PaletteEntries(subject);
    var s := GridSize(w, h, MaxSide).value;
    RenderBlock(resize(s.cols, s.rows), palette);
  }

  /** A drawn poem has at most 40 lines of at most 70 glyphs; a portrait or
      square image fills all 40 lines, a landscape or square one all 70
      columns. */
  lemma PoemBounds(subject: string, w: nat, h: nat, resize: (int, int) -> Pixels)
    requires ResizeShapes(resize)
    requires Drawn(subject, w, h, resize).Ok?
    ensures var lines := SplitBreaks(Drawn(subject, w, h, resize).value);
      && 1 <= |lines| <= 40
      && (forall i :: 0 <= i < |lines| ==> 1 <= |lines[i]| <= 70)
      && (h >= w ==> |lines| == 40)
      && (w >= h ==> forall i :: 0 <= i < |lines| ==> |lines[i]| == 70)
  {
    PoemShape(subject, w, h, resize);
    DrawnRender(subject, w, h, resize);
    DefaultBounds(w, h);
  }

  /** Every glyph of a drawn poem is a blank or a letter of the subject's
      name. */
  lemma PoemGlyphs(subject: string, w: nat, h: nat, resize: (int, int) -> Pixels)
    requires ResizeShapes(resize)
    requires Drawn(subject, w, h, resize).Ok?
    ensures var lines := SplitBreaks(Drawn(subject, w, h, resize).value);
      forall i, j :: 0 <= i < |lines| && 0 <= j < |lines[i]| ==>
        lines[i][j] == ' ' || lines[i][j] in subject
  {
    DrawnRender(subject, w, h, resize);
    var palette := BuildPalette(Density, subject).value;
    PaletteEntries(subject);
    var s := GridSize(w, h, MaxSide).value;
    var px := resize(s.cols, s.rows);
    RenderBlock(px, palette);
    BlockInPalette(px, palette);
  }

  /** The glyph of each cell of a drawn poem is the palette entry at the cell's
      index. */
  lemma PoemCell(subject: string, w: nat, h: nat, resize: (int, int) -> Pixels, i: int, j: int)
    requires ResizeShapes(resize)
    requires Drawn(subject, w, h, resize).Ok?
    requires var s := GridSize(w, h, MaxSide).value; 0 <= i < s.rows && 0 <= j < s.cols
    ensures BuildPalette(Density, subject).Ok?
    ensures var s := GridSize(w, h, MaxSide).value;
      var px := resize(s.cols, s.rows);
      var palette := BuildPalette(Density, subject).value;
      var lines := SplitBreaks(Drawn(subject, w, h, resize).value);
      && i < |px| && j < |px[i]| && i < |lines| && j < |lines[i]|
      && HasCell(Intensities(px)) && GridMax(Intensities(px)) > GridMin(Intensities(px))
      && IsCell(Intensities(px), i, j)
      && lines[i][j] == palette[CellIndex(px, |palette|, i, j)]
  {
    DrawnRender(subject, w, h, resize);
    var palette := BuildPalette(Density, subject).value;
    PaletteEntries(subject);
    var s := GridSize(w, h, MaxSide).value;
    RenderCell(resize(s.cols, s.rows), palette, i, j);
  }

  /** In a drawn poem the brightest cells become blanks. */
  lemma PoemBlank(subject: string, w: nat, h: nat, resize: (int, int) -> Pixels, i: int, j: int)
    requires ResizeShapes(resize)
    requires Drawn(subject, w, h, resize).Ok?
    requires var s := GridSize(w, h, MaxSide).value; 0 <= i < s.rows && 0 <= j < s.cols
    requires var s := GridSize(w, h, MaxSide).value; var px := resize(s.cols, s.rows);
      i < |px| && j < |px[i]| && HasCell(Intensities(px)) && ChannelSum(px[i][j]) == GridMax(Intensities(px))
    ensures var lines := SplitBreaks(Drawn(subject, w, h, resize).value);
      i < |lines| && j < |lines[i]| && lines[i][j] == ' '
  {
    DrawnRender(subject, w, h, resize);
    PaletteEntries(subject);
    var s := GridSize(w, h, MaxSide).value;
    RenderBrightest(resize(s.cols, s.rows), BuildPalette(Density, subject).value, i, j);
  }

  /** In a drawn poem the darkest cells become the densest letter of the
      palette. */
  lemma PoemDensest(subject: string, w: nat, h: nat, resize: (int, int) -> Pixels, i: int, j: int)
    requires ResizeShapes(resize)
    requires Drawn(subject, w, h, resize).Ok?
    requires var s := GridSize(w, h, MaxSide).value; 0 <= i < s.rows && 0 <= j < s.cols
    requires var s := GridSize(w, h, MaxSide).value; var px := resize(s.cols, s.rows);
      i < |px| && j < |px[i]| && HasCell(Intensities(px)) && ChannelSum(px[i][j]) == GridMin(Intensities(px))
    ensures BuildPalette(Density, subject).Ok?
    ensures var lines := SplitBreaks(Drawn(subject, w, h, resize).value);
      var palette := BuildPalette(Density, subject).value;
      i < |lines| && j < |lines[i]| && lines[i][j] == palette[|palette| - 1]
  {
    PoemDenseIndex(subject, w, h, resize, i, j);
  }

  /** The darkest cells of a drawn poem take the last palette index. */
  lemma PoemDenseIndex(subject: string, w: nat, h: nat, resize: (int, int) -> Pixels, i: int, j: int)
    requires ResizeShapes(resize)
    requires Drawn(subject, w, h, resize).Ok?
    requires var s := GridSize(w, h, MaxSide).value; 0 <= i < s.rows && 0 <= j < s.cols
    requires var s := GridSize(w, h, MaxSide).value; var px := resize(s.cols, s.rows);
      i < |px| && j < |px[i]| && HasCell(Intensities(px)) && ChannelSum(px[i][j]) == GridMin(Intensities(px))
    ensures BuildPalette(Density, subject).Ok?
    ensures var s := GridSize(w, h, MaxSide).value;
      var px := resize(s.cols, s.rows);
      var palette := BuildPalette(Density, subject).value;
      var lines := SplitBreaks(Drawn(subject, w, h, resize).value);
      && i < |lines| && j < |lines[i]|
      && GridMax(Intensities(px)) > GridMin(Intensities(px)) && IsCell(Intensities(px), i, j)
      && lines[i][j] == palette[CellIndex(px, |palette|, i, j)]
      && CellIndex(px, |palette|, i, j) == |palette| - 1
  {
    PoemCell(subject, w, h, resize, i, j);
    var s := GridSize(w, h, MaxSide).value;
    var palette := BuildPalette(Density, subject).value;
    CellIndexExtremes(resize(s.cols, s.rows), |palette|, i, j);
  }

  /** A name with a letter outside the density order has no poem, whatever the
      image, and the failure ends the run. */
  lemma UnknownLetterAborts(subject: string, c: char, w: nat, h: nat, resize: (int, int) -> Pixels)
    requires c in subject && c != ' ' && c !in Density
    ensures Drawn(subject, w, h, resize).Err?
    ensures !Caught(Drawn(subject, w, h, resize).error)
  {
  }
}
