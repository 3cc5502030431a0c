# Corner barcodes and frame accounting, verified in Dafny

This project models two pieces of a video-latency measurement tool. It proves
what each one does.

**The barcoder** (`barcoder.dfy`, module `Barcoder`). It stamps a running frame
number into every frame of a raw RGB video:

- The frame is a flat, row-major array of `width * height` pixels.
- Bit `i` of the frame number becomes a `codeSize x codeSize` square: black for 1, white for 0.
- The square sits at grid cell `(i % rowBits, i / rowBits)`.
- The grid is written twice. The first copy is anchored at the top-left corner. The second is anchored so that a full `rowBits x rowBits` grid ends at the bottom-right corner.
- After each frame the counter advances by one.

The model has two layers:

- The class `Barcoder` holds the geometry and the `uint64` frame counter. Its methods `WriteBit`, `BarcodeFrameUpper`, `BarcodeFrameLower` and `BarcodeFrame` write an `array<Pixel>` in place. Each method is proved equal to a specification function on `seq<Pixel>`.
- The datatype `Geometry` carries those specification functions (`Stamp`, `Barcoded`) and the layout's inverse, `Owner`, which gives the bit whose square covers a pixel. The lemmas about the layout and the stamped frames live there.

The round trip is stated against a ghost reader, `ReadCorner`, defined only from the encoder's own layout. It reads bit `i` as "the top-left pixel of square `i` is black". It is not the repository's decoder.

`barcoder_examples.dfy` (module `BarcoderExamples`) works one instance: a 64 x 64 frame with four 4 x 4 squares and frame number 5.

**The playback accounting** (`playback.dfy`, module `Playback`). The player reads fixed-size frames from a raw file and schedules them on a DeckLink output card:

- Every successful schedule pushes a CPU timestamp and a card timestamp onto two queues.
- Every on-time completion pops both, logs them and schedules the next frame.

The model covers these parts:

- The pure helpers: bytes per pixel, the rounded-up frame rate, the frame size and the frame count.
- A `Counters` value with the spec functions `ScheduleStep`, `Complete` and `Preroll`.
- The class `Player`, whose methods `ScheduleNextFrame`, `ScheduledFrameCompleted`, `StartRunning` and `StopRunning` update the fields in place. Each is proved equal to the spec functions.

Inputs stand in for the outside world:

- Every DeckLink call (frame creation, scheduling, clock reads, enabling output) is an input saying whether it succeeded.
- Clock readings are opaque integers.

`arith.dfy` (module `Arith`) collects the integer facts both parts use: powers of two, the bit test, and the uniqueness of quotient and remainder. `wrappers.dfy` defines `Option`.

## Model

| member | source | states |
|---|---|---|
| Barcoder.Colour | src/examples/barcoder/barcoder.cpp:27 | a square's colour is Black exactly when its bit is set and White exactly when it is clear |
| Barcoder.Barcoder.WriteBit | src/examples/barcoder/barcoder.cpp:24-29 | every pixel of the `codeSize x codeSize` square at column `x`, row `y` becomes the bit's colour; every other pixel keeps its old value |
| Barcoder.Barcoder.BarcodeFrameUpper | src/examples/barcoder/barcoder.cpp:3-9 | the frame afterwards is the old frame with the frame number stamped into the top-left grid (`Stamp(Upper, …)`) |
| Barcoder.Barcoder.BarcodeFrameLower | src/examples/barcoder/barcoder.cpp:10-16 | the frame afterwards is the old frame with the frame number stamped into the grid offset by `(width - codeSize*rowBits, height - codeSize*rowBits)` |
| Barcoder.Barcoder.BarcodeFrame | src/examples/barcoder/barcoder.cpp:18-22 | both corners are stamped with the same old counter value, upper first, and the counter advances by exactly one modulo 2^64 |
| Barcoder.Geometry.BlockFits | src/examples/barcoder/barcoder.cpp:4-15 | on a fitting geometry, every bit's square in either corner lies inside the frame |
| Barcoder.Geometry.OwnerIff | src/examples/barcoder/barcoder.cpp:4-15 | a pixel is in the square of bit `i` exactly when `Owner` (the layout's inverse) names bit `i` for it |
| Barcoder.Geometry.Sample | src/examples/barcoder/barcoder.cpp:4-15 | the pixel the ghost reader samples for bit `i` is inside the frame and inside the square of bit `i` |
| Barcoder.Geometry.BlocksDisjoint | src/examples/barcoder/barcoder.cpp:4-15 | two distinct bits of one corner have no pixel in common, so no bit's square is overwritten by another's |
| Barcoder.Geometry.StampBlock | src/examples/barcoder/barcoder.cpp:3-16 | after stamping one corner, every pixel of the square of bit `i` is in bounds, owned by bit `i`, and Black iff bit `i` of the frame number is 1 |
| Barcoder.Geometry.StampOnlyBlocks | src/examples/barcoder/barcoder.cpp:3-16 | stamping one corner changes only pixels inside the square of some bit below `totalBits` |
| Barcoder.Geometry.StampLowBits | src/examples/barcoder/barcoder.cpp:4-8 | a stamped corner depends only on the frame number modulo `2^totalBits` |
| Barcoder.Geometry.ReadStampedBits | src/examples/barcoder/barcoder.cpp:3-16 | reading the first `bits` squares of a stamped corner gives the frame number modulo `2^bits` |
| Barcoder.Geometry.UpperOwnedNearOrigin | src/examples/barcoder/barcoder.cpp:3-9 | every pixel in the upper grid lies in the top-left `codeSize*rowBits` square of the frame |
| Barcoder.Geometry.CornersDisjoint | src/examples/barcoder/barcoder.cpp:3-16 | when the two grids fit side by side in width or in height, no pixel belongs to both corners |
| Barcoder.Geometry.LowerKeepsUpper | src/examples/barcoder/barcoder.cpp:18-20 | when the corners are apart, stamping the lower corner keeps every pixel of the upper grid |
| Barcoder.Geometry.BarcodedBlock | src/examples/barcoder/barcoder.cpp:18-22 | after `barcodeFrame`, every pixel of the square of bit `i` in the lower corner, and in the upper corner when the corners are apart, is Black iff bit `i` of the frame number is set |
| Barcoder.Geometry.BarcodedReadsBack | src/examples/barcoder/barcoder.cpp:18-22 | round trip: the lower corner of a barcoded frame reads back as the frame number modulo `2^totalBits`, and the upper corner does too when the corners are apart |
| Barcoder.Geometry.BarcodedOnlyBlocks | src/examples/barcoder/barcoder.cpp:18-29 | `barcodeFrame` changes only pixels inside the `2 * totalBits` squares of the two corners |
| Barcoder.Geometry.BarcodedOverwrite | src/examples/barcoder/barcoder.cpp:18-22 | barcoding a frame with `a` and then with `b` gives the same frame as barcoding it with `b` alone |
| Barcoder.Geometry.BarcodedLowBits | src/examples/barcoder/barcoder.cpp:18-22 | the barcoded frame depends only on the frame number modulo `2^totalBits`, so frame `2^totalBits` looks like frame 0 |
| Barcoder.FrameCounterWrap | src/examples/barcoder/barcoder.cpp:21 | the 64-bit counter's wrap is invisible in the stamped bits: the low `t <= 64` bits of the wrapped value equal those of the true count |
| BarcoderExamples.SmallSquare | src/examples/barcoder/barcoder.cpp:3-16 | on a 64 x 64 frame with four 4 x 4 squares, two to a row, every pixel of the square of bit `i` in frame 5, at column `o + (i % 2) * 4`, row `o + (i / 2) * 4` with origin `o` = 0 (upper) or 56 (lower), has the colour of bit `i` of 5 |
| BarcoderExamples.ExampleFiveUpper | src/examples/barcoder/barcoder.cpp:3-9 | on that frame, frame number 5 (binary 0101) makes columns 0-3 of rows 0-7 black and columns 4-7 of rows 0-7 white: the squares of bits 0 and 2 black, those of bits 1 and 3 white |
| BarcoderExamples.ExampleFiveLower | src/examples/barcoder/barcoder.cpp:10-16 | on that frame, frame number 5 makes columns 56-59 of rows 56-63 black and columns 60-63 of rows 56-63 white |
| BarcoderExamples.ExampleFiveReads | src/examples/barcoder/barcoder.cpp:18-22 | on the same geometry, both corners of frame number 5 read back as 5 |
| Playback.BytesPerPixel | src/playback/Playback.cc:603-621 | the result is 4 exactly for ARGB, 10-bit YUV, 10-bit RGB and BGRA, and 2 for 8-bit YUV and every unlisted format |
| Playback.FramesPerSecond | src/playback/Playback.cc:306-307 | the result is the ceiling of `timescale / duration`: the least `fps` with `timescale <= fps * duration` |
| Playback.FramesPerSecondExamples | src/playback/Playback.cc:306 | NTSC (30000/1001, 29.97 FPS) rounds up to 30, and 60000/1001 rounds up to 60 |
| Playback.FrameSize | src/playback/Playback.cc:369 | the frame size is `4 * W * H` truncated to `unsigned int`: below 2^32, and equal to `4 * W * H` when that fits |
| Playback.FrameCount | src/playback/Playback.cc:369-370 | the `unsigned int` frame count, times the frame size, never exceeds the file size; when the count is not truncated, one more frame would exceed it, so it is the number of whole frames |
| Playback.SliceWithinFile | src/playback/Playback.cc:369-373 | the byte range of frame `k` lies within the file whenever `k` is below the frame count |
| Playback.ScheduleWhenStopped | src/playback/Playback.cc:349-354 | when not prerolling and stopped, a schedule changes no counter and no queue |
| Playback.ScheduleEffect | src/playback/Playback.cc:356-405 | a schedule counts the frame and appends one timestamp to each queue exactly when the frame was created, lies in the file, was accepted and was timestamped; once the file is exhausted it only clears `running`; it never changes the dropped or completed counts |
| Playback.ScheduleFifo | src/playback/Playback.cc:372-401 | a schedule preserves "scheduled = completed + pending, both queues equally long" and either keeps the pending pairs or appends the new pair at the back |
| Playback.CompleteFifo | src/playback/Playback.cc:497-594 | a log line is produced exactly on an on-time completion with both clocks read and no exit; it carries the completed count and the oldest pending pair, that pair is removed, the completion is counted and the accounting holds afterwards; every other path leaves the queues unchanged |
| Playback.PendingWhileOutstanding | src/playback/Playback.cc:543-564 | under the accounting invariant, both queues are non-empty exactly when more frames were scheduled than completed |
| Playback.PrerollAccounting | src/playback/Playback.cc:320-325 | the preroll loop keeps the accounting, does not change the completed or dropped counts, and schedules at most one frame per iteration |
| Playback.StartFromEmpty | src/playback/Playback.cc:320-325 | from empty queues, the reset and 60 preroll schedules leave at most 60 frames scheduled, none completed or dropped, and every scheduled frame pending |
| Playback.Player.constructor | src/playback/Playback.cc:130-149 | a new player is stopped, with every counter and frame parameter 0 and both queues empty |
| Playback.Player.ScheduleNextFrame | src/playback/Playback.cc:347-406 | the new state is `ScheduleStep` of the old one; a file slice is read exactly when the call runs, the frame was created and frames remain in the file; the slice starts at `scheduled * frameSize` and lies within the file |
| Playback.Player.ScheduledFrameCompleted | src/playback/Playback.cc:497-594 | the new state, the returned status (OK, device error, exception) and the log line are those of `Complete` on the old state |
| Playback.Player.StartRunning | src/playback/Playback.cc:298-336 | stores the display mode's size and rate and returns the rounded-up frame rate, but sets the preroll length to 60; if output is enabled, the state is the counters reset to 0, then 60 preroll schedules, then `running` set; otherwise it only stops playback |
| Playback.Player.StopRunning | src/playback/Playback.cc:338-345 | only `running` changes, to false |

## Left out

- Barcoder.Barcoder.WriteBit: requires the square to lie inside the frame. The source does not check this. A square that crosses the left or right edge would wrap into the neighbouring row, because the index is `i * m_width + j`. A square that crosses the top or bottom edge would index outside the array. Neither case is modelled.
- Barcoder.Barcoder.BarcodeFrameUpper, Barcoder.Barcoder.BarcodeFrameLower, Barcoder.Barcoder.BarcodeFrame: require `Geometry.Fits()`: a full `rowBits x rowBits` grid fits in the frame, holds every bit, and `totalBits <= 31`. The last condition keeps `1 << i` within a 32-bit `int`; a signed-shift overflow at `i >= 31` is not modelled.
- Barcoder.Geometry.BarcodedBlock, Barcoder.Geometry.BarcodedReadsBack: claim the upper corner only when the two grids do not overlap (`CornersApart`). When they overlap, the lower grid, written second, overwrites part of the upper one, and nothing is claimed about the upper corner. The lower corner is covered in every case.
- The `int` arithmetic of `i * m_width + j` is unbounded in the model. Overflow for frames of more than 2^31 pixels is not modelled.
- The pixel values `Black` and `White` come from `barcoder.hh`, which is not part of this model. They are taken as RGB (0,0,0) and (255,255,255); only their difference matters to the proofs. The field types and the stream `operator<<` are in the same header and are also not part of this model.
- Barcoder.Barcoder.constructor: the starting frame number 0 is assumed, not taken from code. The real constructor is in `barcoder.hh`; the model's constructor records the five geometry values and sets the counter to 0.
- `main` of the barcoder and the stream operator: file I/O.
- The repository's decoder `Barcode::readBarcodes` (with `XImage` and `Chunk`) is not part of this model. `Geometry.ReadCorner` is a ghost reader defined from the encoder's layout, not a model of that decoder. The two decoded values are therefore left out of the completion `LogLine`.
- Playback.Player.StartRunning: requires a positive frame duration, which the source divides by, and a non-zero `4 * W * H`, which the frame count divides by. It also takes the 60 preroll replies up front.
- The `assert(m_framesPerSecond == 60)` abort in debug builds is not modelled. The model follows the code after it, which forces the preroll length to 60 whatever the computed rate.
- Playback.Player.ScheduleNextFrame: requires a non-zero frame size on the paths that divide by it.
- Playback.Player.ScheduledFrameCompleted: requires both queues to be non-empty on the on-time path. Calling `front()` on an empty `std::list` is undefined behaviour; `Playback.PendingWhileOutstanding` shows when the invariant guarantees non-empty queues.
- The frame counters are unbounded naturals. The wrap of `unsigned long` after 2^64 frames is not modelled. The `unsigned int` truncation of the frame size and the frame count is modelled.
- Every DeckLink SDK call is a succeed/fail input:
  - `CreateVideoFrame`, `ScheduleVideoFrame`, `GetHardwareReferenceClock`, `GetFrameCompletionReferenceTimestamp` and `EnableVideoOutput`;
  - `StartScheduledPlayback` and `StopScheduledPlayback`;
  - device and display-mode iteration, `CreateFrame` and `ConvertFrame`.

  The copy of the file slice into the frame is not modelled; only its offset is returned.
- Clocks and logging: timestamps are opaque inputs. CSV and console output are reduced to the `LogLine` value; the choice between the log file and `stdout` does not change the state. A thrown `std::runtime_error` is the outcome `Threw`, and the state changes made before the throw are kept.
- Not modelled because they are concurrency or process plumbing: the COM reference counting with atomics, signal handling and the exit flag (taken as the input `exiting`), the mutex and condition-variable wait, `mlockall`, and the `cellsim` child process.
- `src/examples/playback/TestPattern.h` holds only declarations.

## Notes on the source

Three behaviours of `Playback.cc` stand out in the model. None of them is claimed as a defect.

- `StartRunning` resets the three counters but not the two timestamp queues (lines 320-325). A restart with frames still pending therefore breaks "scheduled = completed + pending". `Playback.StartFromEmpty` therefore requires empty queues.
- When the card clock cannot be read after `ScheduleVideoFrame` succeeded (lines 386-393), the frame is already scheduled on the card but has neither a queued timestamp nor a count.
- A completion that arrives while exiting counts the frame without popping its timestamps (lines 523-527).
