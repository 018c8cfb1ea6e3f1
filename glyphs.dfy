/** From a resized image to its block of glyphs (concrete.py:81-84): the
    channels of each cell are summed, the sums shifted so that the least is 0,
    each cell mapped to a palette index that falls as the cell gets brighter, and
    the rows of characters joined with `<br>`. */
module Glyphs {
  import opened Types
  import Geometry

  /** A resized image as numpy sees it: rows of cells, each cell its channel
      values (three for RGB, four with alpha). */
  type Pixels = seq<seq<seq<nat>>>

  /** One number per cell. */
  type Grid = seq<seq<int>>

  /** The line break that separates rows in the block (concrete.py:84). */
  const Break: string := "<br>"

  /** The sum of a cell's channels, alpha included (`np.sum(..., axis=2)`). */
  function ChannelSum(cell: seq<nat>): nat
  {
    if cell == [] then 0 else cell[0] + ChannelSum(cell[1..])
  }

  /** Every channel lies within the sum, and the sum is 0 only for a black,
      fully transparent cell. */
  lemma {:induction false} ChannelSumBounds(cell: seq<nat>)
    ensures forall k :: 0 <= k < |cell| ==> cell[k] <= ChannelSum(cell)
    ensures ChannelSum(cell) == 0 <==> forall k :: 0 <= k < |cell| ==> cell[k] == 0
  {
    if cell != [] {
      ChannelSumBounds(cell[1..]);
      forall k | 1 <= k < |cell|
        ensures cell[k] <= ChannelSum(cell)
      {
        assert cell[k] == cell[1..][k - 1];
      }
    }
  }

  /** The grid of channel sums (concrete.py:81). */
  function Intensities(px: Pixels): (g: Grid)
    ensures |g| == |px|
    ensures forall i :: 0 <= i < |px| ==> |g[i]| == |px[i]|
    ensures forall i, j :: 0 <= i < |px| && 0 <= j < |px[i]| ==> g[i][j] == ChannelSum(px[i][j])
  {
    seq(|px|, i requires 0 <= i < |px| =>
      seq(|px[i]|, j requires 0 <= j < |px[i]| => ChannelSum(px[i][j]) as int))
  }

  /** `(i, j)` names a cell of `g`. */
  predicate IsCell(g: Grid, i: int, j: int)
  {
    0 <= i < |g| && 0 <= j < |g[i]|
  }

  /** The cells of `g`, row after row. */
  function Flat(g: Grid): seq<int>
  {
    if g == [] then [] else g[0] + Flat(g[1..])
  }

  /** The flat form holds exactly the cells of the grid. */
  lemma {:induction false} FlatCells(g: Grid)
    ensures forall i, j :: IsCell(g, i, j) ==> g[i][j] in Flat(g)
    ensures forall x :: x in Flat(g) ==> exists i, j :: IsCell(g, i, j) && g[i][j] == x
  {
    if g != [] {
      FlatCells(g[1..]);
      var rest := Flat(g[1..]);
      assert Flat(g) == g[0] + rest;
      forall x | x in Flat(g)
        ensures exists i, j :: IsCell(g, i, j) && g[i][j] == x
      {
        if x in g[0] {
          var j :| 0 <= j < |g[0]| && g[0][j] == x;
          assert IsCell(g, 0, j);
        } else {
          var i, j :| IsCell(g[1..], i, j) && g[1..][i][j] == x;
          assert IsCell(g, i + 1, j) && g[i + 1][j] == x;
        }
      }
      forall i, j | IsCell(g, i, j)
        ensures g[i][j] in Flat(g)
      {
        if i > 0 { assert IsCell(g[1..], i - 1, j); }
      }
    }
  }

  /** The grid has at least one cell. */
  predicate HasCell(g: Grid)
  {
    exists i :: 0 <= i < |g| && g[i] != []
  }

  /** A grid with a cell has a cell in its flat form. */
  lemma FlatOfCell(g: Grid)
    requires HasCell(g)
    ensures Flat(g) != []
  {
    var i :| 0 <= i < |g| && g[i] != [];
    FlatCells(g);
    assert IsCell(g, i, 0);
  }

  /** The least element of a non-empty sequence. */
  function SeqMin(s: seq<int>): (r: int)
    requires s != []
    ensures r in s && forall x :: x in s ==> r <= x
  {
    if |s| == 1 then s[0]
    else
      var m := SeqMin(s[1..]);
      assert s == [s[0]] + s[1..];
      if s[0] <= m then s[0] else m
  }

  /** The greatest element of a non-empty sequence. */
  function SeqMax(s: seq<int>): (r: int)
    requires s != []
    ensures r in s && forall x :: x in s ==> x <= r
  {
    if |s| == 1 then s[0]
    else
      var m := SeqMax(s[1..]);
      assert s == [s[0]] + s[1..];
      if s[0] >= m then s[0] else m
  }

  /** `i.min()`: a lower bound of every cell, which `MinAttained` shows some
      cell holds. */
  function GridMin(g: Grid): (r: int)
    requires HasCell(g)
    ensures forall i, j :: IsCell(g, i, j) ==> r <= g[i][j]
  {
    FlatOfCell(g);
    FlatCells(g);
    SeqMin(Flat(g))
  }

  /** `i.max()`: an upper bound of every cell, which `MaxAttained` shows some
      cell holds. */
  function GridMax(g: Grid): (r: int)
    requires HasCell(g)
    ensures forall i, j :: IsCell(g, i, j) ==> g[i][j] <= r
  {
    FlatOfCell(g);
    FlatCells(g);
    SeqMax(Flat(g))
  }

  /** Some cell holds the least value. */
  lemma MinAttained(g: Grid)
    requires HasCell(g)
    ensures exists i, j :: IsCell(g, i, j) && g[i][j] == GridMin(g)
  {
    FlatOfCell(g);
    FlatCells(g);
    assert SeqMin(Flat(g)) in Flat(g);
  }

  /** Some cell holds the greatest value. */
  lemma MaxAttained(g: Grid)
    requires HasCell(g)
    ensures exists i, j :: IsCell(g, i, j) && g[i][j] == GridMax(g)
  {
    FlatOfCell(g);
    FlatCells(g);
    assert SeqMax(Flat(g)) in Flat(g);
  }

  /** The bound a cell reaches is the least one: any cell that lies below or at
      every cell is `GridMin`. */
  lemma MinUnique(g: Grid, i: int, j: int)
    requires IsCell(g, i, j)
    requires forall k, l :: IsCell(g, k, l) ==> g[i][j] <= g[k][l]
    ensures GridMin(g) == g[i][j]
  {
    MinAttained(g);
  }

  /** Every cell of `g` less `d`. */
  function Shift(g: Grid, d: int): (r: Grid)
    ensures |r| == |g| && forall i :: 0 <= i < |g| ==> |r[i]| == |g[i]|
    ensures forall i, j :: IsCell(g, i, j) ==> r[i][j] == g[i][j] - d
  {
    seq(|g|, i requires 0 <= i < |g| => seq(|g[i]|, j requires 0 <= j < |g[i]| => g[i][j] - d))
  }

  /** `i -= i.min()` (concrete.py:82): every cell less the least one. */
  function Normalized(g: Grid): (r: Grid)
    requires HasCell(g)
    ensures |r| == |g| && forall i :: 0 <= i < |g| ==> |r[i]| == |g[i]|
    ensures forall i, j :: IsCell(g, i, j) ==> r[i][j] == g[i][j] - GridMin(g)
  {
    Shift(g, GridMin(g))
  }

  /** After the shift no cell is negative and the greatest cell is the old spread
      between greatest and least. */
  lemma NormalizedRange(g: Grid)
    requires HasCell(g)
    ensures HasCell(Normalized(g))
    ensures forall i, j :: IsCell(Normalized(g), i, j) ==> 0 <= Normalized(g)[i][j] <= GridMax(g) - GridMin(g)
    ensures GridMax(Normalized(g)) == GridMax(g) - GridMin(g)
  {
    var r := Normalized(g);
    MaxAttained(g);
    var k, l :| IsCell(g, k, l) && g[k][l] == GridMax(g);
    assert IsCell(r, k, l);
    forall i, j | IsCell(r, i, j)
      ensures 0 <= r[i][j] <= r[k][l]
    {
      assert IsCell(g, i, j) && GridMin(g) <= g[i][j] <= GridMax(g);
      assert r[i][j] == g[i][j] - GridMin(g);
    }
    MaxUnique(r, k, l);
  }

  /** After the shift the least cell is 0. */
  lemma NormalizedMin(g: Grid)
    requires HasCell(g)
    ensures GridMin(Normalized(g)) == 0
  {
    var r := Normalized(g);
    MinAttained(g);
    var i, j :| IsCell(g, i, j) && g[i][j] == GridMin(g);
    assert IsCell(r, i, j);
    forall k, l | IsCell(r, k, l)
      ensures r[i][j] <= r[k][l]
    {
      assert IsCell(g, k, l);
    }
    MinUnique(r, i, j);
  }

  /** Any cell that lies above or at every cell is `GridMax`. */
  lemma MaxUnique(g: Grid, i: int, j: int)
    requires IsCell(g, i, j)
    requires forall k, l :: IsCell(g, k, l) ==> g[k][l] <= g[i][j]
    ensures GridMax(g) == g[i][j]
  {
    MaxAttained(g);
  }

  /** The palette index of a shifted cell value `v` when the greatest is `top`
      and the palette has `n` entries (concrete.py:83): the floor of
      (1 - v/top)*(n-1), in exact arithmetic. `IndexFloor` states that it is
      that floor. */
  function GlyphIndex(v: int, top: int, n: int): (k: int)
    requires 0 <= v <= top && 0 < top && 1 <= n
    ensures 0 <= k < n
  {
    IndexFloor(v, top, n);
    (top - v) * (n - 1) / top
  }

  /** The index is the one integer k with k <= (1 - v/top)*(n-1) < k+1. */
  lemma IndexFloor(v: int, top: int, n: int)
    requires 0 <= v <= top && 0 < top && 1 <= n
    ensures var k := (top - v) * (n - 1) / top;
      0 <= k < n && k * top <= (top - v) * (n - 1) < (k + 1) * top
  {
    var x := (top - v) * (n - 1);
    Geometry.MulLeNat(n - 1, top - v, top);
    assert x <= top * (n - 1) by { assert (n - 1) * (top - v) == x && (n - 1) * top == top * (n - 1); }
    DivBounds(x, top, n - 1);
  }

  /** `GlyphIndex` is the floor of (top - v)*(n-1)/top. */
  lemma GlyphIndexFloor(v: int, top: int, n: int)
    requires 0 <= v <= top && 0 < top && 1 <= n
    ensures var k := GlyphIndex(v, top, n);
      k * top <= (top - v) * (n - 1) < (k + 1) * top
  {
    IndexFloor(v, top, n);
  }

  /** Euclidean division of `x` in [0, q*c] by `q` lies in [0, c] and is the
      floor of x/q. */
  lemma DivBounds(x: int, q: int, c: int)
    requires 0 <= x <= q * c && q > 0
    ensures 0 <= x / q <= c
    ensures (x / q) * q <= x < (x / q + 1) * q
  {
    var d, m := x / q, x % q;
    assert x == d * q + m && 0 <= m < q;
    assert (d + 1) * q == d * q + q;
    assert (c + 1) * q == q * c + q;
    CancelBelow(q, d, c + 1);
    CancelBelow(q, -1, d);
  }

  /** A brighter cell never gets a denser glyph than a darker one. */
  lemma IndexAntitone(v1: int, v2: int, top: int, n: int)
    requires 0 <= v1 <= v2 <= top && 0 < top && 1 <= n
    ensures GlyphIndex(v2, top, n) <= GlyphIndex(v1, top, n)
  {
    var k1, k2 := GlyphIndex(v1, top, n), GlyphIndex(v2, top, n);
    GlyphIndexFloor(v1, top, n);
    GlyphIndexFloor(v2, top, n);
    Geometry.MulLeNat(n - 1, top - v2, top - v1);
    assert (top - v2) * (n - 1) <= (top - v1) * (n - 1) by {
      assert (n - 1) * (top - v2) == (top - v2) * (n - 1);
      assert (n - 1) * (top - v1) == (top - v1) * (n - 1);
    }
    CancelBelow(top, k2, k1 + 1);
  }

  /** k*q < c*q with q positive means k < c. */
  lemma CancelBelow(q: int, k: int, c: int)
    requires q > 0 && k * q < c * q
    ensures k < c
  {
    assert c * q - k * q == (c - k) * q;
  }

  /** The brightest cells get the first palette entry, the darkest the last. */
  lemma IndexExtremes(top: int, n: int)
    requires 0 < top && 1 <= n
    ensures GlyphIndex(top, top, n) == 0
    ensures GlyphIndex(0, top, n) == n - 1
  {
    var k := GlyphIndex(0, top, n);
    GlyphIndexFloor(0, top, n);
    GlyphIndexFloor(top, top, n);
    assert top * (n - 1) == (n - 1) * top;
    CancelBelow(top, n - 2, k);
    CancelBelow(top, k, n);
  }

  /** One row of characters, `''.join(r)` over the indexed palette. */
  function GlyphLine(row: seq<int>, top: int, palette: string): (line: string)
    requires 0 < top && |palette| >= 1
    requires forall j :: 0 <= j < |row| ==> 0 <= row[j] <= top
    ensures |line| == |row|
    ensures forall j :: 0 <= j < |row| ==> line[j] == palette[GlyphIndex(row[j], top, |palette|)]
  {
    seq(|row|, j requires 0 <= j < |row| => palette[GlyphIndex(row[j], top, |palette|)])
  }

  /** Every row of a shifted grid as characters. */
  function GlyphRows(z: Grid, top: int, palette: string): (lines: seq<string>)
    requires 0 < top && |palette| >= 1
    requires forall i, j :: 0 <= i < |z| && 0 <= j < |z[i]| ==> 0 <= z[i][j] <= top
    ensures |lines| == |z|
    ensures forall i :: 0 <= i < |z| ==> lines[i] == GlyphLine(z[i], top, palette)
  {
    seq(|z|, i requires 0 <= i < |z| => GlyphLine(z[i], top, palette))
  }

  /** The number of characters in all of `lines` together. */
  function TotalLength(lines: seq<string>): nat
  {
    if lines == [] then 0 else |lines[0]| + TotalLength(lines[1..])
  }

  /** `'<br>'.join(lines)`: every line's characters and one break between
      each two neighbouring lines. */
  function JoinBreaks(lines: seq<string>): (s: string)
    ensures lines == [] ==> s == []
    ensures |lines| >= 1 ==> |s| == TotalLength(lines) + |Break| * (|lines| - 1)
  {
    if lines == [] then []
    else if |lines| == 1 then lines[0]
    else lines[0] + Break + JoinBreaks(lines[1..])
  }

  /** The lines of a block, cut at each `<br>`: the inverse of `JoinBreaks`. */
  function SplitBreaks(s: string): (lines: seq<string>)
    ensures |lines| >= 1
  {
    if s == [] then [[]]
    else if |s| >= 4 && s[..4] == Break then [[]] + SplitBreaks(s[4..])
    else
      var rest := SplitBreaks(s[1..]);
      [[s[0]] + rest[0]] + rest[1..]
  }

  /** A line without `<` comes back whole. */
  lemma {:induction false} SplitWhole(line: string)
    requires '<' !in line
    ensures SplitBreaks(line) == [line]
  {
    if line != [] {
      SplitWhole(line[1..]);
      NoBreakAhead(line);
      assert [line[0]] + line[1..] == line;
    }
  }

  /** A line without `<` ends the cutting at the next break. */
  lemma {:induction false} SplitLine(line: string, rest: string)
    requires '<' !in line
    ensures SplitBreaks(line + Break + rest) == [line] + SplitBreaks(rest)
  {
    var s := line + Break + rest;
    if line == [] {
      assert s == Break + rest;
      assert s[4..] == rest;
    } else {
      SplitLine(line[1..], rest);
      NoBreakAhead(s);
      assert s[1..] == line[1..] + Break + rest;
      assert [line[0]] + line[1..] == line;
    }
  }

  /** A string that starts with a character other than `<` does not start with
      a break. */
  lemma NoBreakAhead(s: string)
    requires s != [] && s[0] != '<'
    ensures |s| < 4 || s[..4] != Break
  {
    if |s| >= 4 { assert s[..4][0] == s[0]; }
  }

  /** Cutting a joined block at its breaks gives back its lines, as long as no
      line contains `<`. */
  lemma {:induction false} SplitJoin(lines: seq<string>)
    requires |lines| >= 1
    requires forall k :: 0 <= k < |lines| ==> '<' !in lines[k]
    ensures SplitBreaks(JoinBreaks(lines)) == lines
  {
    SplitWhole(lines[0]);
    if |lines| > 1 {
      SplitLine(lines[0], JoinBreaks(lines[1..]));
      SplitJoin(lines[1..]);
      assert lines == [lines[0]] + lines[1..];
    }
  }

  /** The rows of characters of a grid with some contrast: the grid shifted by
      its least cell, each cell mapped against the greatest shifted cell
      (concrete.py:82-83). */
  function GlyphBlock(g: Grid, palette: string): (lines: seq<string>)
    requires |palette| >= 1 && HasCell(g) && GridMax(g) > GridMin(g)
    ensures |lines| == |g| && forall i :: 0 <= i < |g| ==> |lines[i]| == |g[i]|
  {
    NormalizedRange(g);
    var z := Normalized(g);
    GlyphRows(z, GridMax(z), palette)
  }

  /** The glyph block of a resized image for a palette (concrete.py:81-84).
      `i.min()` of a grid without a cell raises; a grid whose cells all have the
      same sum leaves `i.max()` at 0 after the shift, and the division at line
      83 then yields NaN indices that make the indexing raise. */
  function Render(px: Pixels, palette: string): (r: Result<string>)
    requires |palette| >= 1
    ensures r == Err(EmptyGrid) <==> !HasCell(Intensities(px))
    ensures r == Err(FlatImage) <==> HasCell(Intensities(px)) && Uniform(Intensities(px))
    ensures r.Err? ==> r.error == EmptyGrid || r.error == FlatImage
  {
    var g := Intensities(px);
    if !HasCell(g) then Err(EmptyGrid)
    else
      FlatSpread(g);
      NormalizedRange(g);
      if GridMax(Normalized(g)) == 0 then
        Err(FlatImage)
      else
        Ok(JoinBreaks(GlyphBlock(g, palette)))
  }

  /** All cells of `g` are equal. */
  ghost predicate Uniform(g: Grid)
  {
    forall i, j, k, l :: IsCell(g, i, j) && IsCell(g, k, l) ==> g[i][j] == g[k][l]
  }

  /** The greatest and least cell agree exactly when all cells do. */
  lemma FlatSpread(g: Grid)
    requires HasCell(g)
    ensures GridMax(g) == GridMin(g) <==> Uniform(g)
  {
    if GridMax(g) != GridMin(g) {
      MaxAttained(g);
      MinAttained(g);
      var i, j :| IsCell(g, i, j) && g[i][j] == GridMax(g);
      var k, l :| IsCell(g, k, l) && g[k][l] == GridMin(g);
      assert g[i][j] != g[k][l];
    }
  }

  /** The palette index of cell (i, j) in a rendered block. */
  function CellIndex(px: Pixels, n: int, i: int, j: int): (k: int)
    requires 1 <= n
    requires HasCell(Intensities(px)) && IsCell(Intensities(px), i, j)
    requires GridMax(Intensities(px)) > GridMin(Intensities(px))
    ensures 0 <= k < n
  {
    var g := Intensities(px);
    GlyphIndex(g[i][j] - GridMin(g), GridMax(g) - GridMin(g), n)
  }

  /** `CellIndex` unfolded. */
  lemma CellIndexValue(px: Pixels, g: Grid, n: int, i: int, j: int)
    requires 1 <= n && g == Intensities(px)
    requires HasCell(g) && GridMax(g) > GridMin(g) && IsCell(g, i, j)
    ensures CellIndex(px, n, i, j) == GlyphIndex(g[i][j] - GridMin(g), GridMax(g) - GridMin(g), n)
  {
  }

  /** The glyph of a cell of a grid with some contrast is the palette entry at
      the index of its distance from the least cell. */
  lemma GridCell(g: Grid, palette: string, i: int, j: int)
    requires |palette| >= 1 && HasCell(g) && GridMax(g) > GridMin(g) && IsCell(g, i, j)
    ensures GlyphBlock(g, palette)[i][j]
      == palette[GlyphIndex(g[i][j] - GridMin(g), GridMax(g) - GridMin(g), |palette|)]
  {
    NormalizedRange(g);
    var z := Normalized(g);
    var v, top := g[i][j] - GridMin(g), GridMax(g) - GridMin(g);
    assert z[i][j] == v && GridMax(z) == top;
    var line := GlyphLine(z[i], top, palette);
    assert GlyphBlock(g, palette)[i] == line;
  }

  /** The rows of characters of an image with some contrast, before joining. */
  function BlockLines(px: Pixels, palette: string): (lines: seq<string>)
    requires |palette| >= 1
    requires HasCell(Intensities(px)) && GridMax(Intensities(px)) > GridMin(Intensities(px))
    ensures |lines| == |px|
    ensures forall i :: 0 <= i < |px| ==> |lines[i]| == |px[i]|
  {
    GlyphBlock(Intensities(px), palette)
  }

  /** The character of a cell is the palette entry at the cell's index. */
  lemma BlockCell(px: Pixels, palette: string, i: int, j: int)
    requires |palette| >= 1
    requires HasCell(Intensities(px)) && GridMax(Intensities(px)) > GridMin(Intensities(px))
    requires 0 <= i < |px| && 0 <= j < |px[i]|
    ensures BlockLines(px, palette)[i][j] == palette[CellIndex(px, |palette|, i, j)]
  {
    var g := Intensities(px);
    GridCell(g, palette, i, j);
    CellIndexValue(px, g, |palette|, i, j);
  }

  /** A successful render is the `<br>`-join of `BlockLines`. */
  lemma RenderIsJoin(px: Pixels, palette: string)
    requires |palette| >= 1 && Render(px, palette).Ok?
    ensures HasCell(Intensities(px)) && GridMax(Intensities(px)) > GridMin(Intensities(px))
    ensures Render(px, palette).value == JoinBreaks(BlockLines(px, palette))
  {
    NormalizedRange(Intensities(px));
  }

  /** Every character of the block is a palette entry. */
  lemma BlockInPalette(px: Pixels, palette: string)
    requires |palette| >= 1
    requires HasCell(Intensities(px)) && GridMax(Intensities(px)) > GridMin(Intensities(px))
    ensures var lines := BlockLines(px, palette);
      forall i, j :: 0 <= i < |lines| && 0 <= j < |lines[i]| ==> lines[i][j] in palette
  {
    var lines := BlockLines(px, palette);
    forall i, j | 0 <= i < |lines| && 0 <= j < |lines[i]|
      ensures lines[i][j] in palette
    {
      BlockCell(px, palette, i, j);
    }
  }

  /** Lines drawn from a palette without `<` hold no `<`. */
  lemma LinesFree(lines: seq<string>, palette: string)
    requires '<' !in palette
    requires forall i, j :: 0 <= i < |lines| && 0 <= j < |lines[i]| ==> lines[i][j] in palette
    ensures forall k :: 0 <= k < |lines| ==> '<' !in lines[k]
  {
    forall k | 0 <= k < |lines|
      ensures '<' !in lines[k]
    {
      forall c | c in lines[k] ensures c != '<' {
        var j :| 0 <= j < |lines[k]| && lines[k][j] == c;
      }
    }
  }

  /** A rendered block has one line per row of the image and one character per
      cell, and the character of each cell is the palette entry at its index; so
      with a palette free of `<` the block cuts back into exactly those lines. */
  lemma RenderBlock(px: Pixels, palette: string)
    requires |palette| >= 1 && '<' !in palette
    requires Render(px, palette).Ok?
    ensures HasCell(Intensities(px)) && GridMax(Intensities(px)) > GridMin(Intensities(px))
    ensures SplitBreaks(Render(px, palette).value) == BlockLines(px, palette)
  {
    RenderIsJoin(px, palette);
    var lines := BlockLines(px, palette);
    BlockInPalette(px, palette);
    LinesFree(lines, palette);
    assert |lines| >= 1 by {
      var i :| 0 <= i < |Intensities(px)| && Intensities(px)[i] != [];
    }
    SplitJoin(lines);
  }

  /** The character of a cell of a rendered image is the palette entry at the
      cell's index. */
  lemma RenderCell(px: Pixels, palette: string, i: int, j: int)
    requires |palette| >= 1 && '<' !in palette
    requires Render(px, palette).Ok?
    requires 0 <= i < |px| && 0 <= j < |px[i]|
    ensures HasCell(Intensities(px)) && GridMax(Intensities(px)) > GridMin(Intensities(px))
    ensures IsCell(Intensities(px), i, j)
    ensures var lines := SplitBreaks(Render(px, palette).value);
      i < |lines| && j < |lines[i]| && lines[i][j] == palette[CellIndex(px, |palette|, i, j)]
  {
    RenderBlock(px, palette);
    BlockCell(px, palette, i, j);
  }

  /** In a rendered block the brightest cells get the first palette entry. */
  lemma RenderBrightest(px: Pixels, palette: string, i: int, j: int)
    requires |palette| >= 1 && '<' !in palette
    requires Render(px, palette).Ok?
    requires 0 <= i < |px| && 0 <= j < |px[i]|
    requires HasCell(Intensities(px)) && ChannelSum(px[i][j]) == GridMax(Intensities(px))
    ensures var lines := SplitBreaks(Render(px, palette).value);
      i < |lines| && j < |lines[i]| && lines[i][j] == palette[0]
  {
    RenderCell(px, palette, i, j);
    CellIndexExtremes(px, |palette|, i, j);
  }

  /** In a rendered block the darkest cells get the last palette entry. */
  lemma RenderDarkest(px: Pixels, palette: string, i: int, j: int)
    requires |palette| >= 1 && '<' !in palette
    requires Render(px, palette).Ok?
    requires 0 <= i < |px| && 0 <= j < |px[i]|
    requires HasCell(Intensities(px)) && ChannelSum(px[i][j]) == GridMin(Intensities(px))
    ensures var lines := SplitBreaks(Render(px, palette).value);
      i < |lines| && j < |lines[i]| && lines[i][j] == palette[|palette| - 1]
  {
    RenderDarkIndex(px, palette, i, j);
  }

  /** The darkest cells of a rendered block take the last palette index. */
  lemma RenderDarkIndex(px: Pixels, palette: string, i: int, j: int)
    requires |palette| >= 1 && '<' !in palette
    requires Render(px, palette).Ok?
    requires 0 <= i < |px| && 0 <= j < |px[i]|
    requires HasCell(Intensities(px)) && ChannelSum(px[i][j]) == GridMin(Intensities(px))
    ensures GridMax(Intensities(px)) > GridMin(Intensities(px)) && IsCell(Intensities(px), i, j)
    ensures var lines := SplitBreaks(Render(px, palette).value);
      && i < |lines| && j < |lines[i]|
      && lines[i][j] == palette[CellIndex(px, |palette|, i, j)]
      && CellIndex(px, |palette|, i, j) == |palette| - 1
  {
    RenderCell(px, palette, i, j);
    CellIndexExtremes(px, |palette|, i, j);
  }

  /** Of two cells, the one with the larger channel sum never gets the larger
      palette index (concrete.py:83). */
  lemma CellIndexAntitone(px: Pixels, n: int, i: int, j: int, k: int, l: int)
    requires 1 <= n
    requires HasCell(Intensities(px)) && GridMax(Intensities(px)) > GridMin(Intensities(px))
    requires IsCell(Intensities(px), i, j) && IsCell(Intensities(px), k, l)
    requires ChannelSum(px[i][j]) <= ChannelSum(px[k][l])
    ensures CellIndex(px, n, k, l) <= CellIndex(px, n, i, j)
  {
    var g := Intensities(px);
    IndexAntitone(g[i][j] - GridMin(g), g[k][l] - GridMin(g), GridMax(g) - GridMin(g), n);
  }

  /** The brightest cells get the first palette entry (a blank) and the
      darkest the last, densest one. */
  lemma CellIndexExtremes(px: Pixels, n: int, i: int, j: int)
    requires 1 <= n
    requires HasCell(Intensities(px)) && GridMax(Intensities(px)) > GridMin(Intensities(px))
    requires IsCell(Intensities(px), i, j)
    ensures ChannelSum(px[i][j]) == GridMax(Intensities(px)) ==> CellIndex(px, n, i, j) == 0
    ensures ChannelSum(px[i][j]) == GridMin(Intensities(px)) ==> CellIndex(px, n, i, j) == n - 1
  {
    var g := Intensities(px);
    CellIndexValue(px, g, n, i, j);
    IndexExtremes(GridMax(g) - GridMin(g), n);
  }
}
