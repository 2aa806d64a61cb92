# Titanium Anticheat site script: the tick-driven state, in Dafny

The site's `script.js` is mostly event wiring over the DOM. Three pieces of it
keep state that timer callbacks update, and this project models those three:

- **Matrix rain** (`initMatrixRain`, module `MatrixRain`). The background canvas
  is split into 14-pixel columns. Each column holds one falling drop, and
  `drops[i]` is its row. Every 50 ms `draw` does three things:
  - it paints a random glyph at each drop;
  - it restarts a drop that has fallen past the bottom edge, with a 2.5 %
    chance per frame;
  - it moves every drop one row down.

  A window resize changes only the canvas size. The model is the class
  `RainField`, which holds `width`, `height` and the `drops` array. Its
  `Tick` method works on the array in place.
- **Download progress** (`showDownloadProgress`, module `DownloadProgress`).
  Every 200 ms the progress grows by `Math.random() * 20`. At 100 the bar
  shows "Download complete!" and the interval is cleared. Below 100 it shows
  the floored percentage. The model is the class `ProgressSimulator`, in
  phase Running or Complete. The pure function `Run` gives the progress
  after any sequence of ticks.
- **Statistics counters** (`animateCounter`, module `StatCounter`). A counter
  counts up to its target by steps of `target / (2000 / 16)`. Each animation
  frame shows the floored running value, until the value reaches the target.
  Then it shows the target and stops. `AnimateCounter` returns the sequence
  of texts the counter shows.

Every `Math.random()` draw is a parameter of the model. In the rain these are
one glyph draw and one reset coin per column. In the download they are the
increment `delta`, with `0 <= delta < 20`. Timers become explicit calls: one
`Tick` per interval firing, and one loop iteration per animation frame. Canvas
painting is recorded as the glyph and pixel position each column would draw.

Two details of the code are easy to misread:

- The number of drops is the **ceiling** of `width / 14`. The
  loop `for (i = 0; i < columns; i++)` compares against the real quotient, so
  a partial column at the right edge also gets a drop.
- Drops never go below row 1. A reset sets a drop to 0, and the increment
  that follows in the same frame makes it 1.

## Model

| member | source | states |
|---|---|---|
| `MatrixRain.GlyphIndex` | script.js:316-334 | `floor(r * 45)` for a draw `0 <= r < 1` is a valid position of the 45-character alphabet |
| `MatrixRain.ColumnCount` | script.js:319-324 | the drop count is the least n that is not below `width / 14` in real division, i.e. the ceiling of that quotient |
| `MatrixRain.InitialDrops` | script.js:319-324 | the initialisation loop on the real bound `i < width / 14` creates exactly `ColumnCount(width)` drops, each at row 1 |
| `MatrixRain.NextDrop` | script.js:337-340 | a drop becomes 1 if it is past the bottom edge (`drop * 14 > height`) and its coin exceeds 0.975; otherwise it becomes `drop + 1`; either way a non-negative drop ends at row 1 or below |
| `MatrixRain.Fall` | script.js:333-341 | one frame keeps the number of drops and moves each column's drop by `NextDrop` with that column's coin |
| `MatrixRain.Start` | script.js:313-324 | the freshly initialised field has `ColumnCount(width)` drops, all at row 1 |
| `MatrixRain.Replay` | script.js:326-350 | the field after a sequence of frames and resizes: each frame moves the drops by `Fall` with that frame's coins, each resize sets width and height; the number of drops never changes |
| `MatrixRain.ReplayKeepsDrops` | script.js:322-350 | under any interleaving of frames and resizes, the number of drops never changes and every drop stays at row 1 or below |
| `MatrixRain.ResizesKeepDrops` | script.js:347-350 | resizes alone leave the drops exactly as they were (their number and their rows) |
| `MatrixRain.RainField.constructor` | script.js:312-324 | the canvas takes the window size and a fresh drops array holds `ColumnCount(width)` drops at row 1 |
| `MatrixRain.RainField.Tick` | script.js:326-342 | `draw` updates the array in place to `Fall` of its old contents and keeps every drop at row 1 or below; it paints, in column i, glyph `GlyphIndex` of that column's draw at pixel `(14 i, 14 drops[i])`, using the drop's row before the update |
| `MatrixRain.RainField.Resize` | script.js:347-350 | a resize sets the canvas width and height and leaves the drops array untouched (the debounced handler at script.js:470-474 resizes the first canvas on the page; it acts the same on the rain canvas only when no other canvas precedes it, since the rain canvas is appended at the end of the body at script.js:310) |
| `DownloadProgress.Advance` | script.js:434-436 | one tick never lowers progress and never exceeds 100; it reaches exactly 100 if and only if `progress + delta >= 100`, and otherwise adds `delta` |
| `DownloadProgress.Percent` | script.js:448 | while running, the shown percentage is `floor(progress)`, which is below 100 |
| `DownloadProgress.Run` | script.js:432-450 | the progress after any sequence of ticks lies between the start value and 100 |
| `DownloadProgress.RunIsClampedSum` | script.js:432-450 | the progress after any ticks is the start value plus the sum of the increments, clamped to 100 |
| `DownloadProgress.FiveTicksNeverComplete` | script.js:432-435 | because each increment is below 20, five ticks from 0 never complete the download |
| `DownloadProgress.CompletesWithin` | script.js:432-445 | if every increment is at least m > 0, then n ticks with `n * m >= 100` complete the download |
| `DownloadProgress.ZeroDeltasNeverComplete` | script.js:432-435 | zero increments leave the progress at 0, so the download never completes |
| `DownloadProgress.ProgressSimulator.constructor` | script.js:432 | progress starts at 0, running |
| `DownloadProgress.ProgressSimulator.Tick` | script.js:433-450 | progress never decreases and stays at most 100; the phase becomes Complete exactly when `old + delta >= 100`, with progress exactly 100 and the completion signal; otherwise it signals the width and the floored percentage; a zero increment leaves progress unchanged and the phase Running; no tick happens once complete |
| `StatCounter.ShownMonotone` | script.js:71-73 | for a non-negative target, the floored value shown never decreases from frame to frame |
| `StatCounter.StepsBelowTarget` | script.js:67-72 | for a positive target, after n steps the running value is non-negative, and it is below the target exactly when n < 125 |
| `StatCounter.AnimateCounter` | script.js:64-81 | a positive target takes 125 frames: 124 floored values, each in `[0, target)`, non-decreasing and equal to `floor(k * target / 125)` on frame k, then the target itself; a target of 0 or below is shown at once |

## Left out

- DOM and CSS work: navigation, hamburger menu, smooth scroll, particles, the cursor follower, the theme button, parallax and the load fade-in (script.js:16-58, 99-165, 188-222, 266-295, 454-497). These only set style properties when browser events fire.
- Canvas painting calls (`fillRect`, `fillText`, `font`, `fillStyle`). `Tick` only records which glyph each column paints and where.
- Timers (`setInterval`, `setTimeout`, `requestAnimationFrame`, the 250 ms resize debounce). Each firing is an explicit call or loop iteration. The 1000 ms removal of the progress bar and the success notification after completion are not modelled.
- `Math.random`: its values are parameters. `draw` draws the reset coin only for a drop past the bottom edge (`&&` short-circuits). The model takes one coin per column and ignores it otherwise. This changes which random numbers are consumed, but not how the drops evolve.
- Floating point: `progress`, `step` and `current` are Dafny `real`, not IEEE doubles.
- AnimateCounter: the promised 125 frames hold for exact arithmetic. With doubles, summing `target / 125` 125 times can fall just short of the target, which adds a 126th frame.
- AnimateCounter: a non-numeric `data-target` (NaN from `parseFloat`) is not modelled. `toLocaleString` formatting is not modelled either: the texts are the numbers themselves.
- The clipboard, notification toasts and the `IntersectionObserver` that starts each counter (script.js:84-95, 248-263, 354-395) are foreign calls or UI.
- `initTypingEffect` (script.js:168-185) is not modelled, because it is disabled at script.js:8.
