# Big-O visualisations: the integer logic behind the pictures

The page `posts/big-o` shows small canvas animations of complexity classes.
Each one reads a size `n` from a slider, steps through a toy algorithm, and
redraws a picture at every step. This project models the integer logic inside
three of them. It leaves out the canvas, the DOM and the timers.

- **O(n), `runLinear` / `drawLinear`** (`linear.dfy`, module `Linear`). A row of
  `n` bars is swept left to right. At step `i`, bar `i` is drawn in the accent
  colour and the stats text shows `i + 1`. A final frame highlights nothing.
- **O(n²), `runQuad` / `drawGrid`** (`quadratic.dfy`, module `Quadratic`). An
  n-by-n grid is visited in row-major order. At visit `(i, j)` the operation
  count `ops` becomes `i * n + j + 1` and is shown. The frame colours every cell
  up to and including `(i, j)`, and `(i, j)` itself is the current cell. The
  closing frame `drawGrid(n, n, n)` colours all `n * n` cells, and the total
  text shows `n * n`.
- **O(log n), `runLog` / `drawLog`** (`logarithmic.dfy`, module `Logarithmic`).
  A binary search for `target` over `0..n-1`. Each probe increments `ops`, shows
  it, and draws the range `low..high` at full opacity with the middle bar in the
  accent class. All other bars are dimmed to opacity 0.2. When the middle bar
  is the target, a found frame is drawn and the loop breaks.

`counting.dfy` (module `Counting`) holds `Count`. It counts the elements of a
frame that satisfy a predicate: highlighted bars, coloured cells or lit bars.
Its interval lemma is the one counting fact the other modules use.

Each draw routine is a pure function from indices to a small enum:
`Tone`, `Cell`, or `Bar` (a `Shade` and an alpha). A frame is the sequence of
those values over `0..n-1`, or over an n-by-n grid. The JavaScript default
arguments (`activeIndex = -1`, `activeRow = activeCol = -1`, `mid = found = -1`)
are Dafny default parameters. Each run routine is a method with the source's
loops. It returns what the page shows, in order:

- the frames drawn;
- the values written to the stats text (for `runLinear` and `runQuad`), or the
  final `ops` (for `runLog`);
- for `runLog`, the probes `(low, high, mid)` of each iteration.

Points where the model makes a choice:

- The search target comes from `Math.random` in the source. Here it is a
  parameter with `0 <= target < n`.
- `Math.floor((low + high) / 2)` is Dafny's `/`. The two agree because
  `low + high` is never negative there.
- The alphas 0.2 and 1.0 are the exact reals. The model never computes with
  them; its contracts only test them for equality with 0.2 and 1.0.
- The per-visualisation `...AnimationId` variables read as guards against
  overlapping runs (the comment at line 51 says "Prevent multiple runs"). The
  code only ever reads them or sets them to `null`, so they never block
  anything. The model follows the code and claims no mutual exclusion.

## Model

| member | source | states |
|---|---|---|
| `Linear.LinearFrame` | posts/big-o/script.js:32-47 | `n` bars; bar `i` has the accent colour exactly when `i == activeIndex`; the default index is -1 |
| `Linear.LinearHighlight` | posts/big-o/script.js:38-47 | exactly one bar is highlighted when `activeIndex` is in `0..n-1`, none otherwise (so none for the reset `drawLinear(n, -1)` and the slider's `drawLinear(n)`) |
| `Linear.RunLinear` | posts/big-o/script.js:50-61 | the stats text reads `1, 2, ..., n`, ending at `n`; frame `k` highlights only bar `k`; the last of the `n + 1` frames highlights nothing |
| `Quadratic.GridCell` | posts/big-o/script.js:141-156 | a cell is coloured exactly when `(row, col)` is lexicographically at or before `(activeRow, activeCol)`; it is the current cell exactly when equal to it |
| `Quadratic.GridFrame` | posts/big-o/script.js:128-164 | an n-by-n frame in which each cell follows the fill rule and only the active cell is current; defaults -1, -1 |
| `Quadratic.RowCount` | posts/big-o/script.js:137-156 | a row colours `n` cells above the active row, none below it, and `activeCol + 1` (clamped to `0..n`) in the active row |
| `Quadratic.SuffixCount` | posts/big-o/script.js:136-163 | rows `from..n-1` of a frame colour exactly the cells among them that are at or before the active cell in row-major order |
| `Quadratic.GridColoured` | posts/big-o/script.js:128-164 | the number of coloured cells in a frame is the number of grid cells at or before the active cell in row-major order |
| `Quadratic.GridAtStep` | posts/big-o/script.js:172-176 | at visit `(i, j)` exactly `i * n + j + 1` cells are coloured, and `(i, j)` is the current cell |
| `Quadratic.GridDefaultEmpty` | posts/big-o/script.js:128 | the default frame `drawGrid(n)` (as drawn at lines 187 and 275) colours no cell |
| `Quadratic.GridAllFilled` | posts/big-o/script.js:180 | the closing frame `drawGrid(n, n, n)` colours all `n * n` cells, all of them filled and none current |
| `Quadratic.RowMajor` | posts/big-o/script.js:172-175 | for `0 <= j < n`, position `i * n + j` decodes back to row `i` (its quotient by `n`) and column `j` (its remainder) |
| `Quadratic.RunQuad` | posts/big-o/script.js:166-182 | the total is `n * n`; `ops` ends at `n * n`; the stats text reads `1, ..., n * n`; frame `k` is the frame for cell `(k / n, k % n)` and colours `k + 1` cells; the last frame colours all `n * n` |
| `Logarithmic.LogBar` | posts/big-o/script.js:212-228 | `found` overrides `mid`, which overrides "in `low..high`"; those three have alpha 1.0 and every other bar is dimmed to 0.2 |
| `Logarithmic.LogFrame` | posts/big-o/script.js:203-233 | `n` bars; a bar is lit exactly when it is in range, the middle or the found one; it is marked found exactly when it is `found`; defaults -1 |
| `Logarithmic.SliderFrame` | posts/big-o/script.js:264-267 | `drawLog(n, 0, n - 1)` (as also drawn at line 276) shows every bar in range and lit |
| `Logarithmic.ProbeFrame` | posts/big-o/script.js:247-249 | a probe frame lights exactly the `high - low + 1` bars of the range, shows the middle bar as the probe, and marks no bar found |
| `Logarithmic.FoundFrame` | posts/big-o/script.js:252-254 | the found frame lights the same range and marks exactly one bar found, the target |
| `Logarithmic.Log2` | posts/big-o/script.js:193 | the floor of log2 n: `2^r <= n < 2^(r+1)` |
| `Logarithmic.HalveBelowLog` | posts/big-o/script.js:244-246 | if a range is still non-empty after `k` halvings of `n`, then `k <= floor(log2 n)` |
| `Logarithmic.NarrowHalves` | posts/big-o/script.js:255-259 | moving to the target's half keeps the target in range and at least halves the range, so it strictly shrinks |
| `Logarithmic.SearchedExtend` | posts/big-o/script.js:244-249 | probing the current range extends the record of the search by one sound probe and its frame |
| `Logarithmic.SearchStep` | posts/big-o/script.js:244-259 | one iteration of the loop: a probe whose middle is the target, followed by its found frame, finishes the search with at most `floor(log2 n) + 1` probes and frames whose lit region at least halves; a miss leaves a sound search of the target's half, within the halving budget |
| `Logarithmic.SearchedFrames` | posts/big-o/script.js:244-259 | every probe frame lights exactly its probe's range, always including the target's bar, with the middle as the probe; the lit region at least halves from frame to frame |
| `Logarithmic.RunLog` | posts/big-o/script.js:236-262 | the first probe spans `0..n-1`; every probe has `0 <= low <= mid <= high < n` and `low <= target <= high`, with mid the rounded-down middle; each later probe is the target's half of the one before, and its frame lights at most half as many bars; the loop always exits through the `mid == target` break, after drawing the found frame; `1 <= ops <= floor(log2 n) + 1` |

## Left out

- Canvas and DOM work is not modelled: `getThemeColors`, `drawBar`, `clearRect`, `strokeRect`, path drawing, element lookups and the `addEventListener` wiring. These are browser calls with no integer logic. Colours are the enums `Tone`, `Cell` and `Shade` rather than CSS strings.
- Bar widths, cell sizes and x/y coordinates are floating-point geometry. They are left out.
- The `setTimeout` delays between steps and the initial delayed draw are not modelled; each one is a no-op between two steps. The returned frame sequence assumes that no slider input arrives during a run; the `input` handlers (lines 63-66, 184-188, 264-267) could otherwise redraw the canvas between two frames, or rewrite the total text, in the middle of a run. The order of the stats write and the draw within one step is not recorded either: they are returned as separate sequences.
- `Math.random` is left out. The search target is a parameter. The random arrow position of `drawConstant` is dropped.
- `runConstant` / `drawConstant` is left out. It draws a fixed rectangle and writes a fixed string, so there is nothing to prove.
- Overlapping runs are concurrency and are not modelled. The `...AnimationId` variables that read like guards are left out too.
- Slider parsing (`parseInt`) and the string-times-string product for the total at line 186 are left out. `n` is a natural number. `RunLog` requires `0 <= target < n`, and so `n >= 1`; with `n = 0` the search loop of the source does not run at all.
- RunLog: the values written to the stats text are not returned as a separate list. After each increment the text shows `ops`, so during probe `k` it reads `k + 1`, and at the end it reads the returned `ops`.
- JavaScript numbers are doubles. The model uses unbounded integers, which agree with them for every slider-sized `n`.
