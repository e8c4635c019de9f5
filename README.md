# Pixel font renderer — verified model of its core

The pixel font renderer is a single React component. It rasterises one
character of a chosen font into an n × n grid of 0/1 cells by drawing the
glyph on a canvas and thresholding each pixel. It exports that grid in three
forms:

- SVG markup;
- a PNG drawing;
- a CSS `box-shadow` rule.

It also keeps a font picker: a fixed catalogue of 21 built-in fonts in four
categories, custom fonts added by name or stylesheet URL, and a search box.

This project models the logic of that component in Dafny and proves what it
promises:

- **Sampling** (`Sampling`, over `Grid`): the nested loops of
  `pixelateChar` that turn the canvas's RGBA buffer into the grid.
- **Exports** (`Export`, with `Decimal` for the `${n}` numerals): the loops
  of `exportSVG`, `exportPNG` and `exportCSS`.
- **Display** (`Display`): the on-screen cell-size clamp.
- **Fonts** (`Fonts`, with `JsText` for `trim`/`includes`):
  - the catalogue and `ALL_FONTS`;
  - the `filteredCategories` search.
- **Custom fonts** (`CustomFonts`, with `UriEncoding` for
  `encodeURIComponent`): `addCustomFont` and its default stylesheet URL.
- **Character field** (`CharInput`): normalisation of the character input.

The imperative loops are Dafny methods with loop invariants, proved against
specification functions:

- `Sampling.Pixelate`;
- `Export.ExportSvg`;
- `Export.ExportPng`;
- `Export.ExportCss`.

The three exports walk the grid in the same way. `Grid.FilledCells` is the
row-major list of ink cells that every export visits. Its contract states
what that list holds: a cell is listed exactly when it is ink, and the
list is strictly row-major.

Other pieces are pure expressions in the source, and are functions here:

- the clamp;
- the flattening;
- the filter;
- the character fallback;
- the URL.

Each operation has a partner property:

- The sampled grid is characterised cell by cell.
- Export squares map one-to-one onto ink cells.
- Shadow terms parse back to their cells.
- The encoded URL decodes back to the font name.
- The search result is a subsequence with exact membership and counts.

## Model

| member | source | states |
|---|---|---|
| `Sampling.Pixelate` | pixel-font-renderer.jsx:76-86 | The nested loops build exactly the sampled grid: gridSize rows of gridSize cells, cell (x, y) is 1 iff R+G+B of pixel (x, y) is below 3·threshold and 0 otherwise |
| `Sampling.SampledGrid` | pixel-font-renderer.jsx:76-86 | The grid the sampling loop builds is gridSize rows of gridSize cells; its cell values are stated by `SampledGridShape` |
| `Sampling.SampledGridShape` | pixel-font-renderer.jsx:76-86 | Every cell of the sampled grid is 0 or 1, and 1 exactly when R+G+B < 3·threshold |
| `Sampling.MeanBelow` | pixel-font-renderer.jsx:81-82 | The comparison of the mean brightness (R+G+B)/3 with the threshold is exactly the integer comparison R+G+B < 3·threshold |
| `Sampling.PixelInBuffer` | pixel-font-renderer.jsx:80 | The index (y·n + x)·4 and the next three bytes lie inside the n·n·4 buffer for every cell |
| `Sampling.AlphaIgnored` | pixel-font-renderer.jsx:80-82 | Two buffers that agree on every R, G, B byte give the same grid, whatever their alpha bytes |
| `Sampling.ThresholdMonotone` | pixel-font-renderer.jsx:81-82 | Raising the threshold never turns an ink cell into background and never lowers the number of ink cells |
| `Sampling.ThresholdZeroBlank` | pixel-font-renderer.jsx:81-82 | With threshold 0 or below every cell is 0 and no cell is listed for export |
| `Sampling.WhiteNeverInk` | pixel-font-renderer.jsx:81-82 | A white pixel is never ink for thresholds up to 255, because the comparison is strict |
| `Sampling.BlackAlwaysInk` | pixel-font-renderer.jsx:81-82 | A black pixel is ink for every positive threshold |
| `Grid.FilledCells` | pixel-font-renderer.jsx:192-195 | The cells the export loops visit are exactly the ink cells, strictly row-major, each once |
| `Grid.NoInkNoCells` | pixel-font-renderer.jsx:226-230 | A grid without ink yields no cells to export |
| `Grid.CoversCount` | pixel-font-renderer.jsx:193-195 | A grid with ink wherever another has ink yields at least as many cells |
| `Decimal.NatToString` | pixel-font-renderer.jsx:196 | A number written with `${n}` is a non-empty string of digits without a leading zero |
| `Decimal.ValueOfNatToString` | pixel-font-renderer.jsx:229 | Reading a written number back gives the number |
| `Decimal.NatToStringInjective` | pixel-font-renderer.jsx:229 | Distinct numbers are written differently |
| `Export.Extent` | pixel-font-renderer.jsx:191 | The image side n·(cs+g) − g is at least one cell wide for a non-empty grid |
| `Export.ExportSvg` | pixel-font-renderer.jsx:188-197 | An empty grid exports nothing; otherwise the document has side n·(cs+g) − g, a white background rect, and one `<rect>` per ink cell in row-major order |
| `Export.ExportPng` | pixel-font-renderer.jsx:204-217 | An empty grid exports nothing; otherwise a canvas of side n·(cs+g) − g filled white, then one cs-square fill per ink cell in row-major order |
| `Export.ExportCss` | pixel-font-renderer.jsx:224-231 | An empty grid exports nothing; otherwise the rule lists one `<x>em <y>em 0 <color>` term per ink cell in row-major order, joined by `,\n    ` |
| `Export.Join` | pixel-font-renderer.jsx:231 | `join` writes text that starts with the first item, ends with the last, and is as long as all items plus one separator between each two |
| `Export.CellRectInjective` | pixel-font-renderer.jsx:196 | The square at (x·(cs+g), y·(cs+g)) determines its cell: distinct cells get distinct squares |
| `Export.CellRectsApart` | pixel-font-renderer.jsx:196 | Squares of distinct cells share no pixel for any gap |
| `Export.SquaresMatchInk` | pixel-font-renderer.jsx:192-196 | One square per ink cell and none for a background cell, at x·(cs+g), y·(cs+g) with side cs, ordered row-major, pairwise disjoint |
| `Export.SquaresInBounds` | pixel-font-renderer.jsx:191-196 | On a square grid every square lies inside the n·(cs+g) − g image, and the last row and column end exactly at its edge |
| `Export.PngMatchesSvg` | pixel-font-renderer.jsx:211-217 | After the white fill the PNG paints exactly the SVG's squares in the same order |
| `Export.ShadowTermRoundTrip` | pixel-font-renderer.jsx:229 | A shadow term reads back as the cell it was written for |
| `Export.ShadowsMatchInk` | pixel-font-renderer.jsx:226-230 | One shadow term per ink cell and none for a background cell; the i-th term reads back as the i-th ink cell in row-major order |
| `Export.NoInkExports` | pixel-font-renderer.jsx:192-231 | A grid with no ink exports only the white background in SVG and PNG and an empty shadow list in CSS |
| `Display.CellSize` | pixel-font-renderer.jsx:235 | The display cell size is always between 4 and 20 pixels, also for a zero grid size (where the division gives Infinity) |
| `Display.CellSizeRegimes` | pixel-font-renderer.jsx:235 | 20 up to 17 cells, ⌊340/n⌋ from 17 to 85 cells, 4 from 85 cells on |
| `Display.CellSizeAntitone` | pixel-font-renderer.jsx:235 | A larger grid never gets larger cells |
| `Display.GridFitsBudget` | pixel-font-renderer.jsx:235 | n · cellSize stays within 340 pixels exactly when n ≤ 85 |
| `Display.SliderRange` | pixel-font-renderer.jsx:338 | For the slider's grid sizes 8 to 64, cells are at least 5 pixels and n·cellSize ≤ 340; the gaps between cells are not counted |
| `Fonts.FlattenAppend` | pixel-font-renderer.jsx:47 | flatMap over two lists of categories is the concatenation of the two results |
| `Fonts.FlattenMembers` | pixel-font-renderer.jsx:47 | A font is in the flattened list exactly when some category holds it |
| `Fonts.Flatten` | pixel-font-renderer.jsx:47 | `flatMap((c) => c.fonts)`: the flattened list is as long as all categories together; `AllFonts` is this list for the four built-in categories |
| `Fonts.AllFontsShape` | pixel-font-renderer.jsx:3-47 | `ALL_FONTS` has 21 fonts: 18 with a stylesheet URL, then 3 system fonts without one, starting with the default UnifrakturMaguntia |
| `Fonts.AllFontsMembers` | pixel-font-renderer.jsx:47 | `ALL_FONTS` holds exactly the fonts of the four categories |
| `Fonts.SearchFonts` | pixel-font-renderer.jsx:238 | The filter keeps exactly the fonts whose lower-cased label contains the lower-cased query, as an order-preserving subsequence |
| `Fonts.SearchCounts` | pixel-font-renderer.jsx:238 | Each matching font occurs in the result as often as in the input, a non-matching one not at all |
| `Fonts.SearchAppend` | pixel-font-renderer.jsx:236-238 | Filtering built-in then custom fonts lists the built-in matches first, then the custom ones |
| `Fonts.SearchNarrows` | pixel-font-renderer.jsx:238 | Typing more never adds fonts: when the lower-cased old query occurs in the lower-cased new one, the new result is a subsequence of the old |
| `Fonts.SearchIgnoresCase` | pixel-font-renderer.jsx:238 | Queries that lower-case alike select the same fonts |
| `Fonts.SearchResults` | pixel-font-renderer.jsx:236-238 | A non-blank search gives a single "Search Results" category: matching fonts, built-in before custom, in order |
| `Fonts.FilteredCategories` | pixel-font-renderer.jsx:236-239 | The picker shows a single "Search Results" category exactly when the trimmed query is non-blank; what the categories hold is stated by `SearchResults` and `BlankSearch` |
| `Fonts.BlankSearch` | pixel-font-renderer.jsx:237-239 | A blank search gives the four categories unchanged, plus "Custom Fonts" exactly when custom fonts exist; the listed fonts, category by category, are exactly `ALL_FONTS` followed by the custom list |
| `Fonts.FilterIgnoresCase` | pixel-font-renderer.jsx:236-239 | The picker's list depends on the query only through its blankness and lower-cased form |
| `JsText.TrimStart` | pixel-font-renderer.jsx:237 | Leading white space is removed: a suffix of the input remains that does not start with white space, and only white space was cut |
| `JsText.TrimEnd` | pixel-font-renderer.jsx:237 | Trailing white space is removed: a prefix of the input remains that does not end with white space, and only white space was cut |
| `JsText.TrimSpec` | pixel-font-renderer.jsx:237 | `trim` keeps a contiguous middle part, cutting only white space on either side, and neither end of the result is white space |
| `JsText.TrimIdempotent` | pixel-font-renderer.jsx:176-178 | Trimming a trimmed string changes nothing |
| `JsText.Trim` | pixel-font-renderer.jsx:237 | `trim` never lengthens a string, and leaves nothing exactly when the string is empty or all white space, so a trimmed query is falsy exactly then |
| `JsText.IncludesTransitive` | pixel-font-renderer.jsx:238 | `includes` is transitive: what occurs in a part of a label occurs in the label |
| `UriEncoding.EncodeUriComponent` | pixel-font-renderer.jsx:178 | `encodeURIComponent` turns every character into 1 to 12 characters: itself, or up to four `%HH` bytes |
| `UriEncoding.EncodedIsSafe` | pixel-font-renderer.jsx:178 | `encodeURIComponent` output holds only unreserved characters and `%` |
| `UriEncoding.PercentDecodeEncode` | pixel-font-renderer.jsx:178 | Percent-decoding the encoding gives the UTF-8 bytes of the input |
| `UriEncoding.Utf8RoundTrip` | pixel-font-renderer.jsx:178 | UTF-8 decoding undoes UTF-8 encoding |
| `UriEncoding.EncodeRoundTrip` | pixel-font-renderer.jsx:178 | Decoding the encoded component gives back the original string |
| `CustomFonts.StylesheetUrl` | pixel-font-renderer.jsx:178 | The stylesheet URL of a new font is never blank: the trimmed URL field, or the generated Google Fonts URL |
| `CustomFonts.NewCustomFont` | pixel-font-renderer.jsx:176-179 | There is a new font exactly when the trimmed name is non-blank; its family is the trimmed name, neither blank nor padded |
| `CustomFonts.FamilyOfGoogleUrl` | pixel-font-renderer.jsx:178 | The Google Fonts URL built for a name carries that name, decodable, as its `family` parameter |
| `CustomFonts.DefaultUrlNamesFamily` | pixel-font-renderer.jsx:178 | With a blank URL field, the stylesheet URL's family parameter decodes to the trimmed font name |
| `CustomFonts.GivenUrlKept` | pixel-font-renderer.jsx:178 | A non-blank URL field is used trimmed, and the result is not blank |
| `CustomFonts.AddCustomFont` | pixel-font-renderer.jsx:175-186 | A blank name changes nothing; otherwise one font is appended and selected, the earlier custom fonts kept; it has the trimmed name, caption `✦ name`, weight 400 and the computed URL; both fields are cleared |
| `CustomFonts.AddedFontListed` | pixel-font-renderer.jsx:182-183 | After an addition the blank-search picker ends with "Custom Fonts" listing all custom fonts, the new selected one last |
| `CharInput.LastUnitOrA` | pixel-font-renderer.jsx:262 | As written: one code unit, the last one of the field, or "A" when the field is empty |
| `CharInput.LastUnitSplitsPair` | pixel-font-renderer.jsx:262 | As written, a field holding one emoji is cut to its lone low surrogate, which is not a character |
| `CharInput.LastCharOrA` | pixel-font-renderer.jsx:262 | Corrected: a suffix of one or two code units of the field, or "A" when the field is empty |
| `CharInput.LastCharIsOneChar` | pixel-font-renderer.jsx:262 | Corrected: on a well-formed field the result is exactly one whole character |
| `CharInput.LastCharIdempotent` | pixel-font-renderer.jsx:262 | Corrected: normalising the normalised value changes nothing |
| `CharInput.AgreesOffPairs` | pixel-font-renderer.jsx:262 | Corrected and as-written agree whenever the field does not end in a surrogate |

## Left out

- Drawing the glyph into the canvas is foreign browser text rendering. This
  covers font selection, `fillText`, the float `fontSize` and `scale`, and
  the offsets. The RGBA buffer is an input of `Sampling.Pixelate` instead.
- `renderSmooth` is canvas drawing and `toDataURL` only.
- `loadFont` is DOM queries, link injection, promises and a timer.
  `CustomFonts.AddCustomFont` models the state after the load has finished.
  The loading flag is not modelled.
- `CustomFonts.AddCustomFont` is one atomic step, but the source reads both
  fields before `await loadFont` (lines 178-180) and clears them after it
  (lines 183-184). Two effects of that interleaving are not captured. First,
  an edit the user makes to either field while the font loads is thrown away.
  Second, pressing Enter again while it loads appends the same font a second
  time: the `onKeyDown` handler (line 320) is not guarded by `loadingCustom`,
  unlike the button (line 329), and the second `loadFont` finds the `<link>`
  already present (line 51) and resolves at once.
- Downloads are not modelled: `Blob`, `URL.createObjectURL`, the anchor
  click, and the file names.
- PNG encoding (`toDataURL`) is not modelled. `Export.ExportPng` returns the
  canvas size and the sequence of `fillRect` calls with the fill style
  current at each call.
- `ExportPng` records each fill with the colour it was given. A canvas
  ignores an unparsable `fillStyle`, but the colour comes from a colour input
  and is always a valid `#rrggbb` value.
- The clipboard write and the alert in `exportCSS` are left out.
  `Export.ExportCss` returns the text that would be written.
- React state, hooks, effects and JSX components are left out: the
  `PixelGrid` rendering, `Label`, and the styles. `src/app/layout.tsx` and
  `src/app/page.tsx` are not part of this model: they are wrappers without
  logic.
- `Sampling.Pixelate`: the brightness is computed as an exact rational mean,
  not a binary64 value. Bytes and the threshold are integers. The sum of
  three bytes divided by 3 and compared with an integer gives the same
  outcome in both.
- `Export.ExportSvg`: the markup of the `<rect>` elements is rendered from
  the collected rectangles after the loop. The source appends each element's
  text to a string inside the loop. The resulting document is the same.
- `toLowerCase` is a parameter `lower` of the search functions. Unicode case
  mapping is not modelled. Every property holds for any such function.
- The search matches the untrimmed query, as the source does. Only the
  blankness test trims it.
- Names in `CustomFonts` and `UriEncoding` are strings of Unicode scalar
  values. A name holding a lone surrogate makes `encodeURIComponent` throw in
  JavaScript. Such names cannot be represented here.
- `JsText` and `Fonts` also treat the query and the labels as strings of
  characters, while JavaScript works on UTF-16 code units. This changes
  nothing: every character `trim` strips lies in the Basic Multilingual
  Plane, and `includes` finds the same matches on well-formed text.
- `CharInput` works on UTF-16 code units. The `maxLength` attribute of the
  field is browser behaviour and is not modelled.
- The page header's "18 built-in" font count counts the web fonts only.
  `ALL_FONTS` has 21 fonts including the three system fonts, as
  `Fonts.AllFontsShape` states.

## Findings

| source | as written | input that shows it | evidently intended | confidence | as-written member | corrected member |
|---|---|---|---|---|---|---|
| pixel-font-renderer.jsx:262 | `value.slice(-1)` keeps the last UTF-16 code unit | a field value holding one emoji, U+1F600 (units D83D DE00), becomes the lone low surrogate DE00 | keep the last whole character (code point), as the character parameter is one code point | not executed; low (whether a browser lets a two-unit value past `maxLength={1}` depends on the browser) | `CharInput.LastUnitOrA`, `CharInput.LastUnitSplitsPair` | `CharInput.LastCharOrA`, `CharInput.LastCharIsOneChar` |
