# music-box text layout, modelled in Dafny

music-box is a batch script. It reads a Last.fm user's top tracks for the
past week and writes them into a GitHub gist as a small fixed-width chart.
Each line holds a title column, a bar of block glyphs and a play count.
This project models the text layout of that chart and proves its
properties. The layout lives in `index.js`:

- `visualLength` adds up the display widths of the code points of a string.
  One code point is one or two columns, as given by the `eastasianwidth`
  library.
- `ellipsis` cuts a string to a display width and appends `...`.
- `padRight` pads a string with spaces up to a display width.
- `progressBar` builds a bar of full and empty glyphs.
- `main` builds the lines: it keeps the first 5 tracks, sums their plays,
  lays out one line per track and joins the lines with newlines.

Files:

- `js_text.dfy` (module `JsText`): the JavaScript built-ins the layout uses.
  These are `repeat`, `padStart`, `String(n)` and `join`. It also holds
  `Split`, the inverse that `join` is checked against.
- `helpers.dfy` (module `Helpers`): the four helpers. `ellipsis` is a method
  with a loop, as in the source. It is proved equal to the function
  `Ellipsized`, and the lemmas are about that function.
- `render.dfy` (module `Render`): the line layout of `main`.

The width function of `eastasianwidth` is not part of this model. Every
member that measures display width takes it as a parameter of type
`Helpers.CharWidth`: any map from code points to 1 or 2 in which the space
and the full stop take one column. No proof depends on the width of the bar
glyphs `█` and `░`. The title column is measured in display columns. The bar
is measured in glyphs. In `eastasianwidth`, `█` (U+2588) is Ambiguous and
takes two columns, while `░` (U+2591) is Neutral and takes one. A bar with f
full glyphs is therefore 16 + f columns wide, and the count does not start at
a fixed display column. What is proved (`Render.LinesAligned`) is that the
count starts at the same glyph offset after the title column in every line.

When every kept track has 0 plays, the sum of plays is 0. `index.js` then
computes the percentage as NaN. Both `repeat` calls read NaN as a count of 0,
so the bar is empty. The model keeps this behaviour (`Helpers.ProgressBar`).

## Model

| member | source | states |
|---|---|---|
| `Helpers.VisualLength` | index.js:23-25 | the display width of a string lies between its number of code points and twice that number |
| `Helpers.VisualLengthConcat` | index.js:23-25 | the width of a concatenation is the sum of the widths of its parts (the empty string has width 0) |
| `Helpers.VisualLengthPrefix` | index.js:23-25 | extending a prefix by n code points adds at least n columns |
| `Helpers.VisualLengthAllWide` | index.js:23-25 | a string made only of wide code points is twice its number of code points wide |
| `Helpers.KeptPrefix` | index.js:28-32 | the buffer the loop has built when it stops: the leading code points taken one at a time while each still fits the remaining budget; the first that does not ends it |
| `Helpers.KeptPrefixIsLongestFit` | index.js:28-32 | the buffer the loop keeps is a prefix of the input within the budget; every longer prefix goes over it, so a wide code point that would cross the budget is dropped whole |
| `Helpers.VisualLengthPrefixHead` | index.js:23-25 | the width of a non-empty prefix is the width of its first code point plus that of the rest |
| `Helpers.KeptPrefixStep` | index.js:29-31 | one turn of the loop: a code point that fits the remaining budget is appended; one that does not ends the buffer |
| `Helpers.WidthWithMarker` | index.js:30 | the loop's test string `out + c + "..."` is 3 columns wider than `out + c`, which is `width(c)` wider than `out` |
| `Helpers.EllipsisLoopStep` | index.js:29-32 | one turn of the loop keeps its invariant: either the code point at `i` stops the loop and the buffer is the kept prefix, or it is appended and the rest of the kept prefix is taken from what follows, within the reduced budget |
| `Helpers.Ellipsized` | index.js:27-34 | the value `ellipsis` returns: the input when its width is at most `maxWidth`, otherwise the kept prefix for a budget of `maxWidth - 3` followed by `...` |
| `Helpers.Ellipsis` | index.js:27-34 | the loop with its early `break`, followed by the final choice, returns exactly `Ellipsized` |
| `Helpers.EllipsisShape` | index.js:27-34 | a string that fits is returned unchanged; otherwise the result is a prefix of the input plus `...`; that prefix is proper (for a non-negative width), leaves room for the marker (for width >= 3), and is the longest such prefix |
| `Helpers.EllipsisFits` | index.js:27-34 | for a width of at least 3 the result fits the width; below 3 an over-wide string becomes the bare `...` |
| `Helpers.EllipsisIdempotent` | index.js:27-34 | applying `ellipsis` twice with the same width equals applying it once, for every width |
| `Helpers.EllipsisAllWide` | index.js:27-34 | thirty wide code points cut to 28 columns keep twelve code points and the marker |
| `Helpers.PadRight` | index.js:36-39 | the input followed by `width - visualLength(input)` spaces when that difference is positive, and the input unchanged otherwise |
| `Helpers.PadRightShape` | index.js:36-39 | the result is the input followed only by spaces and never shorter; its width is the larger of the target and the input's width; it equals the input exactly when the input is already at least as wide as the target |
| `Helpers.PadRightIdempotent` | index.js:36-39 | padding twice to the same width equals padding once |
| `Helpers.Filled` | index.js:42 | requires a positive total; the number of full glyphs as the exact quotient `(2 * plays * len + total) / (2 * total)` |
| `Helpers.FilledIsRounded` | index.js:42 | the number of full glyphs is `plays * len / total` rounded to nearest, halves up, as `Math.round` does |
| `Helpers.FilledUnique` | index.js:42 | only one integer satisfies that rounding condition |
| `Helpers.FilledBounds` | index.js:42 | for a share of at most the whole, the number of full glyphs is between 0 and the bar length; it is 0 for no plays and the bar length for all the plays |
| `Helpers.FilledAtMostLength` | index.js:42-43 | for a share of at most the whole, the rounded count never exceeds the bar length, so `len - filled` is never negative |
| `Helpers.FilledAboveWhole` | index.js:42-43 | above the whole, 65 of 64 plays still round to a full bar of 16, while 33 of 32 plays round to 17, past the bar length |
| `Helpers.FilledMonotone` | index.js:42 | more plays never give fewer full glyphs |
| `Helpers.ProgressBar` | index.js:41-44 | requires plays <= total; the empty string for a zero total, otherwise `Filled` full glyphs then the rest of `len` empty |
| `Helpers.ProgressBarShape` | index.js:41-44 | with some plays in total, the bar is exactly `len` glyphs: the rounded share full, then the rest empty; with a zero total (NaN percentage) the bar is empty |
| `Helpers.ProgressBarEnds` | index.js:41-44 | no plays give an all-empty bar; all the plays give an all-full bar |
| `Helpers.ProgressBarMonotone` | index.js:41-44 | bars for two shares have the same length, and wherever the smaller share's bar is full, the larger share's bar is full too |
| `JsText.Repeat` | index.js:38 | `c.repeat(n)` is n copies of c |
| `JsText.PadStart` | index.js:104 | `padStart`: the input is right-aligned after spaces, in max(n, length) code points |
| `JsText.DecimalString` | index.js:104 | `String(n)` is a non-empty string of decimal digits with a leading zero only for the number 0 |
| `JsText.DecimalRoundTrip` | index.js:104 | reading back the digits of `String(n)` gives n |
| `JsText.DecimalStringLength` | index.js:104 | a number below 10^k takes at most k digits |
| `JsText.Join` | index.js:115 | `join("\n")`: the empty string for no lines, the sole line for one, and otherwise the first line, the separator and the join of the rest |
| `JsText.Split` | index.js:115 | splitting on the separator yields at least one piece |
| `JsText.SplitWithoutSeparator` | index.js:115 | a string without the separator splits to just itself |
| `JsText.SplitAtSeparator` | index.js:115 | splitting `a + sep + b`, where `a` has no separator, gives `a` followed by the pieces of `b` |
| `JsText.SplitJoin` | index.js:115 | splitting the result of `join` gives back the joined strings, when none of them contains the separator |
| `Render.TopTracks` | index.js:94 | `slice(0, MAX_ITEMS)` keeps the first min(n, 5) tracks, in input order |
| `Render.TotalPlays` | index.js:95 | the sum is at least every track's plays, and is 0 exactly when every track has 0 plays |
| `Render.Lines` | index.js:97-107 | `map` gives one line per track, in the same order, each line built from its own track |
| `Render.TitleField` | index.js:98-101 | the title column: the name cut by `Ellipsized` to 28 columns, then padded by `PadRight` to 28 columns |
| `Render.CountField` | index.js:104 | the count column: the decimal digits of the play count, padded in front by `PadStart` to 4 code points |
| `Render.Line` | index.js:106 | requires the track's plays to be at most the total; the title column, a space, the bar for the track's share of 16 glyphs, a space and the count column |
| `Render.Render` | index.js:94-115 | the published content: the lines of the first 5 tracks, each bar measured against the sum of those tracks' plays, joined with newlines |
| `Render.TitleFieldShape` | index.js:98-101 | the title column is exactly 28 columns wide: the cut name, which fits 28 columns, then spaces |
| `Render.CountFieldShape` | index.js:104 | the count column holds the decimal digits of the play count, right-aligned after spaces in at least 4 code points, and in exactly 4 below 10000 plays |
| `Render.LineLayout` | index.js:97-107 | a line starts with exactly the title column, 28 display columns wide, then holds a space, the bar, a space, and the count as the last field |
| `Render.FieldsLayout` | index.js:106 | in `${title} ${bar} ${count}` each piece sits at its offset: the title first, a space, the bar, a space, the count last |
| `Render.TitleWithoutNewline` | index.js:98-101 | the title column has a newline only if the name does |
| `Render.CountWithoutNewline` | index.js:104 | the count column never holds a newline |
| `Render.EllipsizedWithoutNewline` | index.js:98-99 | a name cut to the title width holds a newline only if the name does |
| `Render.LineWithoutNewline` | index.js:97-107 | a line has a newline only if the track name does |
| `Render.LinesWithoutNewline` | index.js:97-107 | no line of the chart holds a newline when no track name does |
| `Render.KeptLines` | index.js:94-107 | each kept track has at most the total plays, and the line at each index is the line of the input track at that index |
| `Render.RenderSplits` | index.js:94-115 | when no name holds a newline, splitting the published text on newlines gives back exactly the lines of the kept tracks |
| `Render.RenderShape` | index.js:94-115 | with no tracks the text is empty; otherwise, when no name holds a newline, splitting the text on newlines gives one line per kept track (at most 5), in input order, each track having at most the total plays |
| `Render.LinesAligned` | index.js:97-107 | in any two lines of one chart with plays, each line starts with its own title column, 28 display columns wide, the bar is 16 glyphs after one space, and the count follows one space after the bar |
| `Render.TwoTracksExample` | index.js:94-115 | two one-letter tracks with 2 and 1 plays render as two lines: bars of 11 and 5 full glyphs out of 16, counts `   2` and `   1` |
| `Render.ExampleLine` | index.js:97-107 | the line for a one-letter narrow name with 1 or 2 of 3 plays, written out |

## Left out

- Fetching tracks from Last.fm (`fetchJSON`, `getTopTracks`, index.js:48-89) is not modelled. This covers network I/O, JSON probing, `Number(t.playcount)` parsing and the choice between the weekly chart and the 7-day fallback. A track enters the model as a name and a non-negative whole play count.
- Reading and updating the gist through Octokit (index.js:13-15, 109-117) is remote I/O. Only the joined text written as the gist content (index.js:115) is modelled.
- Configuration from `dotenv` and `process.env` (index.js:1, 6-11) is not modelled, and neither is the `main().catch` / `process.exit(1)` lifecycle (index.js:120-123).
- The `eastasianwidth` library (index.js:4, 24) is foreign code. It is the `CharWidth` parameter: any assignment of 1 or 2 columns per code point in which the space and the full stop are narrow.
- Helpers.ProgressBar: the percentage `(t.plays / total) * 100` and `Math.round((pct / 100) * len)` (index.js:42, 103) are computed in floating point. The model computes them exactly as `(2 * plays * len + total) / (2 * total)`. The two can differ only near a rounding tie, where pct * len / 100 lies exactly halfway between two integers. For the 16-glyph bar of `main`, a tie means that plays / total is an odd multiple of 1/32. Doubles hold that fraction exactly, and each step of the floating-point computation then stays exact, so the tie rounds up as in the model. Away from ties, the exact value is at least 1/(2 * total) from the nearest half. The floating-point error stays below that for totals up to about 10^14. Other bar lengths (3, 6, 9, ...) give ties that doubles cannot hold, and there the two can differ.
- Helpers.ProgressBar: a share above the whole (a percentage over 100) is excluded by a precondition. `main` never passes one, because no track has more plays than the sum. Not every such share throws in index.js: only when the rounded count exceeds `len` does `"░".repeat` get a negative count. For a bar of 16, 65 of 64 plays still give a full bar, while 33 of 32 plays give a count of 17 and throw (`Helpers.FilledAboveWhole`).
- Render.CountFieldShape: play counts are unbounded whole numbers. In index.js they are JavaScript numbers, summed in floating point, which is exact only below 2^53. `String(n)` writes plain digits only below 10^21 and switches to exponent notation from there (`1e+21`). The model agrees with index.js for counts whose sum stays below 2^53. Above that, the model keeps exact integers where index.js does not.
- Strings are sequences of Unicode scalar values. Lone UTF-16 surrogates, which JavaScript strings can hold, are not represented. For the digit strings `padStart` works on, code points and UTF-16 units agree.
- A weekly-window event aggregator, a dot-leader layout and a placeholder line for an empty chart are not present in index.js, so they are not modelled. An empty track list renders as the empty string (`Render.RenderShape`).
