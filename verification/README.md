# Digit canvas: pixel buffer, pen flag and capture

A Dafny model of the first-party logic of a browser digit-drawing page
(`src/main.ts`). The page keeps a 28 x 28 RGBA byte buffer (a `Uint8Array`
of 3136 bytes, all zero at start-up) that a WebGL texture displays. While the
primary mouse button is held, every animation frame paints the cell under the
pointer white; when the button is released the first channel of every cell is
read out in row-major order, divided by 255, and handed to a classifier.

The model has three modules:

- `Grid` (`grid.dfy`): the grid constants, the program's `row_col_to_index`,
  its inverse `SlotOf` (byte offset to cell and channel), and an idealised
  real-number version of the pointer-to-cell mapping.
- `Image` (`image.dfy`): the byte buffer as a `seq<int>` of bytes, the
  typed-array `set` used to write a cell, the bounds-checked `Paint`, and
  `Capture`, which produces the 784 grayscale values as `real`s.
- `Bridge` (`bridge.dfy`): the page state (buffer and `is_pen_down`), one
  animation frame as `Tick`, the `on_down` / `on_up` handlers, and `Run`,
  which feeds a sequence of events to the handlers and collects the captured
  images.

Paint takes the integer grid column `x` and row `y` that the frame computes.
It calls the index function as `row_col_to_index(y, x, 28, 4)`, so `y` is the
row. Pointer moves are folded into the `Frame(x, y)` event: the coordinates a
frame carries are the cell the latest pointer position maps to.

The mouse-up handler `on_up` (src/main.ts:99-106) captures on every
primary-button release, whether or not `is_pen_down` was set. For example, a
press made before the listeners are registered (src/main.ts:120-122, which
run only after the model finishes loading at src/main.ts:19) is never seen
as a mouse-down, yet its release still triggers a capture. `Bridge.OnUp` and
`Bridge.CapturesPerRelease` state this behaviour.

## Model

| member | source | states |
|---|---|---|
| `Grid.RowColToIndex` | src/main.ts:5-10 | with the program's arguments (width 28, 4 channels) the offset of (row, col) is row * 112 + col * 4, and for an on-grid cell all four bytes from it lie inside the 3136-byte buffer |
| `Grid.IndexInBounds` | src/main.ts:5-10 | for a cell in the 28 x 28 grid the offset is row * 112 + col * 4, is a multiple of 4, and all four channel bytes lie inside the 3136-byte buffer |
| `Grid.SlotOf` | src/main.ts:5-10 | every byte offset of the buffer belongs to an on-grid cell and channel, and the index function maps that cell and channel back to the offset (uniqueness is `Grid.SlotsDisjoint`) |
| `Grid.IndexSlotRoundTrip` | src/main.ts:5-10 | index then `SlotOf` gives back the same cell and channel, so the two are mutually inverse |
| `Grid.SlotsDisjoint` | src/main.ts:5-10 | two (cell, channel) positions share a byte if and only if they are the same cell and channel |
| `Grid.IndexInjective` | src/main.ts:5-10 | distinct in-range cells have offsets at least four bytes apart, so their slots never overlap |
| `Grid.RowMajorOffset` | src/main.ts:103-106 | the i-th cell in row-major order is (i / 28, i % 28), and its offset is i * 4, the byte the capture loop reads |
| `Grid.ToGrid` | src/main.ts:55-65 | idealised over reals: the grid coordinate is the floor of (pos - origin) / extent * 28, i.e. the unique integer at most that value and more than it minus one |
| `Grid.ToGridInRange` | src/main.ts:49-66 | with real arithmetic, a pointer maps to a grid coordinate in [0, 28) exactly when it lies in [origin, origin + extent), where origin is the canvas position measured once at start-up (line 49) and extent the displayed size; so the bounds check rejects every pointer outside that interval |
| `Grid.CellCentreMapsToCell` | src/main.ts:55-65 | a pointer at the centre of cell c maps back to c |
| `Image.Blank` | src/main.ts:32 | the newly allocated buffer has 3136 bytes, all zero |
| `Image.SetAt` | src/main.ts:67 | a typed-array `set` stores each given value modulo 256 at the offset, so every written element is a byte, and leaves every other byte and the length unchanged |
| `Image.Paint` | src/main.ts:62-67 | painting an on-grid cell sets its three intensity bytes to 255 and leaves every other byte unchanged, including the cell's fourth channel. An off-grid cell leaves the buffer unchanged. The result is still a 3136-byte buffer |
| `Image.PaintFrame` | src/main.ts:66-67 | a byte that painting changes lies in [offset, offset + 3) of the painted cell; the cell's fourth byte keeps its value |
| `Image.PaintIdempotent` | src/main.ts:67 | painting a cell twice gives the same buffer as painting it once |
| `Image.PaintCommutes` | src/main.ts:66-67 | painting two cells gives the same buffer in either order |
| `Image.PaintMonotone` | src/main.ts:67 | painting never lowers a byte and never un-paints a painted cell |
| `Image.CaptureFrom` | src/main.ts:103-106 | after n iterations of the capture loop there are n values; value i is `image[i * 4] / 255` and lies in [0, 1] |
| `Image.Capture` | src/main.ts:103-106 | capture yields exactly 784 values in row-major order; value i is the first channel of cell (i / 28, i % 28) divided by 255 and lies in [0, 1] |
| `Image.CaptureRecoversFirstChannel` | src/main.ts:105 | multiplying the captured value of cell (row, col) by 255 gives back that cell's first-channel byte |
| `Image.CaptureReadsOnlyFirstChannel` | src/main.ts:104-105 | two buffers that agree on every first-channel byte capture to the same image |
| `Bridge.Init` | src/main.ts:32-51 | the page starts with a blank buffer and the pen up |
| `Bridge.Tick` | src/main.ts:62-67 | a frame never changes the pen flag. With the pen up, or with the pointer off the grid, it changes nothing. With the pen down and the pointer on the grid, the cell ends up painted. It changes only the painted cell's intensity bytes |
| `Bridge.OnDown` | src/main.ts:95-98 | mouse-down with button 0 puts the pen down; any other button leaves the state unchanged; the buffer is never touched |
| `Bridge.OnUp` | src/main.ts:99-106 | mouse-up with button 0 lifts the pen and captures 784 values in [0, 1]; each value times 255 is its cell's first-channel byte. Any other button changes nothing and captures nothing. The buffer is never modified |
| `Bridge.Run` | src/main.ts:54-122 | any sequence of handler calls keeps the buffer a valid 3136-byte buffer, and every capture has 784 values |
| `Bridge.CapturesPerRelease` | src/main.ts:99-101 | a run of events captures exactly once per primary-button release |
| `Bridge.TickNeverClears` | src/main.ts:62-67 | one frame never lowers a byte and never changes a cell's fourth channel |
| `Bridge.RunNeverClears` | src/main.ts:62-67 | over any run of events no byte decreases, a painted cell stays painted, and no cell's fourth channel changes |
| `Bridge.PenUpFramesInert` | src/main.ts:62 | frames with the pen up leave the state unchanged and capture nothing |
| `Bridge.SingleStrokeScenario` | src/main.ts:95-106 | pressing button 0, one frame over cell (5, 5), then releasing captures one image. In it cell (5, 5) reads 1.0 and every other cell reads 0.0 |

## Left out

- Rendering: scene, camera, `DataTexture`, `flipY`, `needsUpdate` and `renderer.render` (src/main.ts:22-46, 68-70, 79) are calls into the WebGL library.
- Inference: model loading, `tf.tensor`, `model.predict`, `tf.sum`, `tf.argMax` and `tf.max` (src/main.ts:17-19, 107-112) are calls into the tensor library. The model stops at the 784 grayscale values handed to it.
- Output: DOM lookups and the result string written with `toPrecision(3)` (src/main.ts:14-15, 115-117) are I/O and float formatting.
- Scheduling: `requestAnimationFrame` and the event-listener registration (src/main.ts:78, 120-122) are host plumbing. One frame is one `Frame` event, and the order of events is whatever sequence `Bridge.Run` is given.
- Pointer mapping: `Paint`, `Tick` and `Frame` take integer grid coordinates. `Grid.ToGrid` is an idealised version of src/main.ts:55-65 over real numbers, not IEEE doubles.
- Grid.ToGrid: does not model the rounding of the double-precision subtraction, division and multiplication before `Math.floor`, so a pointer within rounding distance of a cell edge may land in the neighbouring cell in the program.
- Grid.ToGridInRange: the origin is `canvas.getBoundingClientRect()` read once at start-up (src/main.ts:49) while the pointer is in viewport coordinates (src/main.ts:92-93); after the page scrolls or the layout shifts, the program tests the pointer against where the surface was at start-up, not where it is now, and the model does not represent that drift.
- Image.Capture: values are exact reals `byte / 255`; the program stores them in a `Float32Array`, so each value is rounded to single precision.
- Pointer moves: `on_move` (src/main.ts:91-94) only overwrites the cursor position, which appears here as the coordinates carried by the next `Frame`.
- Clearing: the program never clears the buffer, and the model has no clear operation.
