# concrete: the glyph renderer

`concrete.py` makes a PDF of "concrete poems". For each animal it draws a
picture of the animal using the letters of the animal's own name. This
project models and proves the deterministic core of that program:

- **Palette** (`palette.dfy`). The subject's name loses its spaces. Its
  letters are sorted by their position in the density alphabet
  `czrsivtlxfeajonuykpwhqbdmg`, and two spaces are put in front. A letter
  outside that alphabet makes `alphabet.index` raise.
- **Grid geometry** (`geometry.dfy`). The output size comes from the image
  size with `maxSide = 40` and `skew = 7/4`. Python's half-to-even `round`
  is computed exactly on rationals.
- **Glyph mapping** (`glyphs.dfy`). Every cell's channels are summed, the
  grid minimum is subtracted, and each value `v` becomes the palette entry at
  `floor((M - v)(n - 1) / M)`. The rows are joined with `<br>`.
- **In-place normalisation** (`normalize.dfy`). The numpy statement
  `i -= i.min()` is a method over a two-dimensional array. It finds the
  minimum with a loop, subtracts it from every cell, and is proved against
  the functional `Normalized`.
- **Document** (`document.dfy`). The HTML text is grown by concatenation:
  header, a list item per subject, a heading and paragraph per poem. Then
  every space is replaced with `&nbsp;`. The loops are methods proved equal
  to the functions `IndexList`, `Sections` and `Edition`.
- **One attempt** (`poem.dfy`). The palette, the grid size, the resize and
  the rendering of one image, with the errors raised inside the `try` block
  kept apart from the one raised before it.
- **Errors** (`types.dfy`). `Result` and the failure kinds:
  - `UnknownLetter`: a letter outside the density alphabet;
  - `ZeroDimension`: an image side of 0, so `maxSide / 0` divides by zero;
  - `EmptyResize`: a computed size with a zero side, which PIL's resize refuses;
  - `EmptyGrid`: `min()` of an empty array;
  - `FlatImage`: every cell equal, so `i.max()` is 0 after the shift and the
    index becomes `nan`, which fails when used as an index.

Only `UnknownLetter` is raised before the `try` at line 69, so it always ends
the run. Every other failure is raised inside that `try`, and the `except` at
line 88 catches it (predicate `Types.Caught`). Whether the loop then moves on
to the next image depends on its handler, which is not modelled (see
"## Left out").

The code's ranks in the density alphabet give `c = 0`, `t = 6` and `a = 11`,
so `cat` sorts to `cta`. The model follows the code.

## Model

| member | source | states |
|---|---|---|
| Palette.StripSpaces | concrete.py:48 | the result has no space; every other character keeps its multiplicity; the length drops by the number of spaces |
| Palette.IndexOf | concrete.py:51 | `str.index`: found exactly when the character occurs, and then at its first occurrence |
| Palette.Insert | concrete.py:50-51 | inserting into a rank-sorted string keeps it rank-sorted and adds exactly that character to the multiset |
| Palette.SortByRank | concrete.py:50-51 | the result is sorted by density rank and is a permutation of the input |
| Palette.FirstUnranked | concrete.py:50-51 | no letter is found exactly when every letter has a rank; a found letter is the first one outside the alphabet |
| Palette.BuildPalette | concrete.py:48-52 | fails exactly when a non-space letter is outside the alphabet, naming that letter; otherwise two spaces followed by the subject's non-space letters, sorted by rank, with the same multiplicities and length 2 + non-space count |
| Palette.RankInjective | concrete.py:49 | two letters of the alphabet with the same rank are the same letter, so the stable sort's tie order is never visible |
| Palette.SortedUnique | concrete.py:50-51 | two rank-sorted permutations of one multiset are equal, so any stable sort gives this palette |
| Palette.PaletteDetermined | concrete.py:48-52 | the palette equals two spaces plus any rank-sorted permutation of the stripped subject |
| Palette.DensityLowerCase | concrete.py:49 | the alphabet holds lower-case letters only |
| Palette.UpperCaseAborts | concrete.py:49-51 | a subject with an upper-case letter fails with an error raised before the `try`, which the `except` never sees |
| Geometry.RoundHalfEven | concrete.py:78 | the result is within one half of p/q, and an exact half goes to the even neighbour |
| Geometry.RoundUnique | concrete.py:78 | any integer with those two properties is the rounded value, so the definition is Python's `round` |
| Geometry.RoundMonotone | concrete.py:78 | rounding never decreases when the numerator grows |
| Geometry.RoundWhole | concrete.py:78 | a whole quotient rounds to itself |
| Geometry.RoundScaled | concrete.py:77-78 | scaling numerator and denominator together does not change the rounded value |
| Geometry.GridSize | concrete.py:76-78 | fails with a division by zero exactly when a side is 0; otherwise cols is within one half of 7/4 · maxSide · w / max(w, h) and rows within one half of maxSide · h / max(w, h), and each is exactly that value rounded half-to-even (`RoundHalfEven`, pinned down by `RoundUnique`), so a tie such as 2.5 rows gives 2 |
| Geometry.SizeBounds | concrete.py:76-78 | rows lie in 0..maxSide and cols in 0..round(7/4 · maxSide) |
| Geometry.LongerSideFills | concrete.py:77-78 | the longer side reaches its bound: rows = maxSide when h ≥ w, cols = round(7/4 · maxSide) when w ≥ h |
| Geometry.DefaultBounds | concrete.py:76-78 | with maxSide 40: at most 40 rows and 70 columns, exactly 40 rows when h ≥ w, exactly 70 columns when w ≥ h |
| Geometry.LandscapeExample | concrete.py:76-78 | an 80×40 image gives 70 columns and 20 rows |
| Geometry.TieExample | concrete.py:78 | a 16×1 image asks for 2.5 rows and gets 2, the even neighbour, with 70 columns |
| Geometry.MaxSideMonotone | concrete.py:76-78 | a larger maxSide never gives fewer rows or columns |
| Geometry.NoRows | concrete.py:77-78 | the grid has no rows exactly when 2 · maxSide · h ≤ w, the case PIL then refuses |
| Glyphs.ChannelSumBounds | concrete.py:81 | every channel is at most the cell's sum, and the sum is 0 exactly when all channels are 0 |
| Glyphs.Intensities | concrete.py:81 | the intensity grid has the pixel grid's shape and each cell is the sum of its channels |
| Glyphs.FlatCells | concrete.py:82 | the flattened grid holds exactly the values of the grid's cells |
| Glyphs.GridMin | concrete.py:82 | `min()` is at most every cell |
| Glyphs.GridMax | concrete.py:83 | `max()` is at least every cell |
| Glyphs.MinAttained | concrete.py:82 | some cell equals the minimum |
| Glyphs.MaxAttained | concrete.py:83 | some cell equals the maximum |
| Glyphs.MinUnique | concrete.py:82 | a cell no larger than any other is the minimum |
| Glyphs.MaxUnique | concrete.py:83 | a cell no smaller than any other is the maximum |
| Glyphs.Shift | concrete.py:82 | same shape, every cell lowered by d |
| Glyphs.Normalized | concrete.py:82 | same shape, every cell lowered by the grid minimum |
| Glyphs.NormalizedRange | concrete.py:82-83 | after the shift every cell lies in 0..max − min, and the new maximum is max − min |
| Glyphs.NormalizedMin | concrete.py:82 | after the shift the minimum is 0 |
| Glyphs.GlyphIndex | concrete.py:83 | for 0 ≤ v ≤ M with M > 0 the palette index lies in 0..n−1 |
| Glyphs.GlyphIndexFloor | concrete.py:83 | the index k is the floor of (M − v)(n − 1) / M: k · M ≤ (M − v)(n − 1) < (k + 1) · M |
| Glyphs.IndexAntitone | concrete.py:83 | a larger value never gets a larger palette index |
| Glyphs.IndexExtremes | concrete.py:83 | the maximum value maps to index 0 and the value 0 to index n − 1 |
| Glyphs.GlyphLine | concrete.py:84 | one row of glyphs: same length as the row, each character the palette entry at its cell's index |
| Glyphs.GlyphRows | concrete.py:84 | one line per grid row, each the glyph line of that row |
| Glyphs.JoinBreaks | concrete.py:84 | `'<br>'.join`: no lines give the empty text; otherwise the text holds every line's characters plus four for each of the lines − 1 breaks; `SplitJoin` is its inverse |
| Glyphs.SplitJoin | concrete.py:84 | splitting the `<br>`-joined text at `<br>` gives back the lines when none contains `<` |
| Glyphs.SplitLine | concrete.py:84 | a line without `<`, a `<br>` and a rest split into that line followed by the rest's lines |
| Glyphs.GlyphBlock | concrete.py:83-84 | the glyph block has the grid's shape |
| Glyphs.Render | concrete.py:81-84 | fails with EmptyGrid exactly when the grid has no cell, with FlatImage exactly when all cells are equal, and with nothing else |
| Glyphs.FlatSpread | concrete.py:83 | max = min exactly when every cell is equal, which is when the mapping divides by zero |
| Glyphs.CellIndex | concrete.py:83 | a cell's palette index lies in 0..n−1 |
| Glyphs.BlockLines | concrete.py:83-84 | one line per pixel row, each as long as the row |
| Glyphs.BlockCell | concrete.py:83-84 | each character of the block is the palette entry at its cell's index |
| Glyphs.BlockInPalette | concrete.py:83-84 | every character of the block is a palette entry |
| Glyphs.RenderIsJoin | concrete.py:84 | a rendered poem is the `<br>`-join of the block's lines |
| Glyphs.RenderBlock | concrete.py:84 | splitting a rendered poem at `<br>` gives back the block's lines |
| Glyphs.RenderCell | concrete.py:83-84 | in a rendered poem, line i, column j is the palette entry at cell (i, j)'s index |
| Glyphs.RenderBrightest | concrete.py:83-84 | a cell with the largest channel sum is drawn with the first palette entry |
| Glyphs.RenderDarkest | concrete.py:83-84 | a cell with the smallest channel sum is drawn with the last, densest palette entry |
| Glyphs.CellIndexAntitone | concrete.py:81-83 | a cell with a larger channel sum never gets a larger palette index |
| Glyphs.CellIndexExtremes | concrete.py:81-83 | the largest channel sum maps to index 0 and the smallest to index n − 1 |
| Normalize.Cells | concrete.py:82 | the array read as a grid: same shape and values |
| Normalize.CellsHaveCell | concrete.py:82 | the array has a cell exactly when both dimensions are positive |
| Normalize.MinCell | concrete.py:82 | the loop finds the grid minimum |
| Normalize.SubtractMin | concrete.py:82 | `i -= i.min()`: fails with EmptyGrid and changes nothing exactly when a dimension is 0; otherwise returns the old minimum and leaves the array equal to the normalised old grid, all cells ≥ 0 and minimum 0 |
| Normalize.SubtractEach | concrete.py:82 | every cell is lowered by d |
| Normalize.ShiftedCells | concrete.py:82 | an array whose cells are the grid's less its minimum reads as the normalised grid |
| Document.EscapeChar | concrete.py:107 | a space becomes six characters with no space; any other character stays one |
| Document.Escape | concrete.py:107 | the escaped text contains no space |
| Document.EscapeLength | concrete.py:107 | escaping adds five characters per space |
| Document.EscapeAppend | concrete.py:107 | escaping distributes over concatenation |
| Document.UnescapeEscape | concrete.py:107 | for text without `&`, turning `&nbsp;` back into spaces restores the text: spaces became `&nbsp;` and every other character is kept in order |
| Document.EscapeFixed | concrete.py:107 | escaping leaves a text unchanged exactly when it has no space |
| Document.EscapeIdempotent | concrete.py:107 | escaping twice is escaping once |
| Document.Header | concrete.py:99-101 | the header begins with the title, carries the time stamp unchanged at its fixed place, and ends with the opening of the list; `HeaderPlain` keeps it free of `&` |
| Document.Item | concrete.py:103 | one list item is the name plus nine characters of tags |
| Document.ItemParts | concrete.py:103 | the name comes back whole from between `<li>` and `</li>` |
| Document.IndexList | concrete.py:102-103 | the list is empty exactly when there are no subjects, and it opens with the first subject's item; `IndexListAppend` gives the order of the rest |
| Document.Section | concrete.py:106 | one section is the name and the poem plus sixteen characters of tags |
| Document.SectionParts | concrete.py:106 | the name and the poem come back whole from between the heading and paragraph tags |
| Document.Sections | concrete.py:105-106 | the sections are empty exactly when there are no subjects, and they open with the first subject's section; `SectionsAppend` gives the order of the rest |
| Document.Plain | concrete.py:99-106 | the text before the escape has an `&` only where the time stamp, a subject or a poem has one, so `EditionPlain` can undo the escape |
| Document.IndexListAppend | concrete.py:102-103 | the list items of two subject lists concatenate in order |
| Document.SectionsAppend | concrete.py:105-106 | the sections of two subject lists concatenate in order |
| Document.Edition | concrete.py:99-107 | the finished document contains no space |
| Document.Assemble | concrete.py:99-107 | the string built by the loops is the escaped header, list and sections |
| Document.AppendItems | concrete.py:102-103 | the loop appends one list item per subject, in list order |
| Document.AppendSections | concrete.py:105-106 | the loop appends one heading and poem per subject, in list order |
| Document.HeaderPlain | concrete.py:99-101 | the header has no `&` when the timestamp has none |
| Document.TitlePlain | concrete.py:99 | the title and home link have no `&` |
| Document.FeaturedPlain | concrete.py:101 | the list opening has no `&` |
| Document.IndexListPlain | concrete.py:102-103 | the list has no `&` when the subjects have none |
| Document.SectionsPlain | concrete.py:105-106 | the sections have no `&` when subjects and poems have none |
| Document.EditionPlain | concrete.py:99-107 | un-escaping the finished document gives the unescaped assembly back |
| Poem.Attempt | concrete.py:74-84 | every failure of one attempt is raised inside the `try`, so the `except` catches it; it fails with a division by zero exactly when a side is 0, and with a refused resize exactly when a side is positive but the computed size has a zero side |
| Poem.Drawn | concrete.py:48-84 | a failure raised outside the `try` happens exactly when the subject has a non-space letter outside the density alphabet |
| Poem.PaletteEntries | concrete.py:48-52 | the palette has at least two entries, starts with a space, holds no `<`, and every entry is a space or a lower-case letter of the subject |
| Poem.DrawnRender | concrete.py:74-84 | a drawn poem comes from a valid palette and image size, a grid of the computed positive size, and the rendering of that grid |
| Poem.PoemShape | concrete.py:78-84 | a drawn poem has as many lines as the computed rows, each as long as the computed columns |
| Poem.PoemBounds | concrete.py:76-84 | a drawn poem has 1..40 lines of 1..70 glyphs, 40 lines when the image is at least as tall as wide, 70 glyphs per line when at least as wide as tall |
| Poem.PoemGlyphs | concrete.py:52-84 | every glyph of a drawn poem is a space or a letter of the subject |
| Poem.PoemCell | concrete.py:83-84 | glyph (i, j) of a drawn poem is the palette entry at pixel (i, j)'s index |
| Poem.PoemBlank | concrete.py:83-84 | the brightest pixels are drawn as spaces |
| Poem.PoemDensest | concrete.py:83-84 | the darkest pixels are drawn with the last, densest palette letter |
| Poem.UnknownLetterAborts | concrete.py:49-51 | a subject with a letter outside the alphabet fails, whatever the image, with an error raised before the `try` |

## Left out

- Command-line and interactive input (concrete.py:33-37): console I/O. The subjects are parameters.
- `random.sample` of the subjects and `random.shuffle` of the URLs (concrete.py:40, 65): randomness over an external list.
- The Google Custom Search client and query (concrete.py:43-44, 55-64): a network API.
- Images without a channel axis (concrete.py:81): for PIL's single-band modes (`1`, `L`, `P`, `I`, `F`, which include palette PNGs and GIFs), `np.asarray` gives a two-dimensional array and `np.sum(..., axis=2)` raises. `Glyphs.Pixels` always has a channel axis, so such an image cannot be expressed, and `Glyphs.Render`'s "no other failure" holds only for images with channels.
- `requests.get` and `Image.open` (concrete.py:71-73): the network and PIL's decoder. The image enters the model as its width and height.
- PIL's `resize` (concrete.py:81): a foreign resampler. It is a function parameter, and only its promise to return a grid of the requested size is assumed.
- The `while` retry loop and its `attempt` counter (concrete.py:67-91): exception plumbing around I/O. The model keeps only which failures are raised inside the `try` and which before it. While `p` is below the number of links, the loop moves on to the next image after a caught failure, and it does not terminate when every image fails, because the `IndexError` from `images[attempt]` is itself caught. Its log line prints `images[p]` instead of `images[attempt]`. The search returns at most 10 links (concrete.py:59), so whenever `p` is at least the number of links (from the 11th subject on, or earlier when fewer links come back), that line raises `IndexError` inside the `except`. The error escapes the `while` and ends the run at the first failed attempt: a `ZeroDimension`, `EmptyResize`, `EmptyGrid` or `FlatImage` then ends the run instead of leading to the next image. `Types.Caught` only says that the `except` is entered.
- The `poems` and `passed` lists (concrete.py:84-85): they only collect each subject's successful attempt. The document takes the list of poems as a parameter.
- `time.strftime` (concrete.py:94, 100): the clock. The timestamp is a parameter.
- `pdfkit.from_string` and the `print` calls (concrete.py:86, 89-91, 108-109): an external renderer and console output.
- Floating point (concrete.py:77-78, 83): `40/w`, `7/4`, `1.0 - i/i.max()` and `astype(int)` are computed in exact rational arithmetic. Double rounding can differ from this at exact halves and near whole numbers.
- Pixel widths (concrete.py:81): channel values are unbounded naturals, and numpy's integer dtype overflow is not modelled.
- Glyphs.Render: the `nan` that a flat image produces is reported as the failure `FlatImage`. numpy does not raise at the division. `astype(int)` of `nan` is left undefined by C; on x86 it gives the most negative integer, which then fails as an index. That the failure comes at all is therefore platform behaviour.
