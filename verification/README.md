# Wumbo Recorder: capture-to-store pipeline in Dafny

Wumbo Recorder grabs the primary screen about thirty times a second and, while
recording, turns each grab into one frame of the encoder's planar format. It
appends that frame to an in-memory frame store. When recording stops, it hands
the stored frames to an H.264 encoder with timestamps 0, 1, 2, … and writes
`recording.mp4`. This project models the part of `main.cpp` that decides what
reaches the store and in what order:

- `arith.dfy` (`Arith`): facts about products and division of naturals that the
  byte-offset proofs use.
- `pixels.dfy` (`Pixels`): the captured image, classification of its pixel layout
  by bits per pixel and channel masks, and the repack of 32-bit pixels into
  packed B,G,R bytes. The repack is the nested loop, kept as a method over an
  `array<bv8>` and proved against the function `Bgr24`. Channel extraction is
  modelled exactly as written. The pixel is a little-endian 32-bit word. It is
  masked with the 64-bit X11 mask, shifted right by 16, 8 or 0 (the same shifts
  for either mask set), and truncated to 8 bits.
- `frame_store.dfy` (`FrameStore`): the store as the concatenation of
  fixed-size frames. It also holds the finaliser's loop, which cuts the store
  into `size / frameSize` slices and stamps slice `i` with presentation time `i`.
- `recording.dfy` (`Recording`): the class `RecordingContext` with the two flags
  `isRecording` and `isInitialized`, the counter `videoFrameNumber` and the store
  `frameBuffer`. It holds `initRecording`, `writeFrame`, `finalizeRecording`,
  `cleanupRecording`, the start/stop toggle, the exit-time clean-up and one
  capture step of the main loop.

The library calls around this logic are parameters. Whether all codec set-up
steps succeed is the `codecReady` argument. Whether all container set-up steps
succeed is the `containerReady` argument. The YUV scaler is a function value of
type `Converter`. The frame size that `av_image_get_buffer_size` returns is the
positive constant `frameSize` of the context.

How the code behaves, which the model follows:
- The recorder's state is two booleans, `isRecording` and `isInitialized`,
  changed by the start/stop toggle (main.cpp:449-464). There is no explicit
  state machine.
- A frame the encoder refuses during finalisation is skipped and the loop goes
  on (main.cpp:150-154). Finalisation still reports success.
- A screen size that cannot be determined falls back to 1920×1080
  (main.cpp:379-383). The model takes the capture width and height as inputs,
  and the size of a stored frame as a positive constant.

## Model

| member | source | states |
|---|---|---|
| `Pixels.ClassifyAccepts` | main.cpp:471-515 | An image is dropped exactly when it is neither 24-bit nor 32-bit with the ARGB or the BGRA mask set. It takes the 24-bit branch exactly when it has 24 bits per pixel. |
| `Pixels.MaskSetsDisjoint` | main.cpp:473-481 | No image matches both 32-bit mask sets, so the order of the two tests does not matter. |
| `Pixels.WordValue` | main.cpp:490 | The pixel word read from bytes b0..b3 is b0 + 256·b1 + 65536·b2 + 16777216·b3 (little-endian). |
| `Pixels.Bgr24Pixel` | main.cpp:487-499 | The repack output is width·height·3 bytes long. For every pixel (x, y), bytes (y·width + x)·3, +1 and +2 hold that pixel's blue, green and red as extracted from the word at y·stride + x·4. |
| `Pixels.RowPrefixAt` | main.cpp:489-499 | Within one row, pixel x's B, G, R sit at bytes 3x, 3x+1, 3x+2 of the row's packed bytes. |
| `Pixels.RowsAt` | main.cpp:488-499 | Rows are laid out one after another, so pixel (x, y) lands at offset (y·width + x)·3 of the packed rows. |
| `Pixels.RepackBgr24` | main.cpp:487-500 | The nested loop fills a freshly allocated array whose contents are exactly the packed image `Bgr24`. |
| `Pixels.RepackRow` | main.cpp:489-499 | The inner loop writes row y's bytes with their B, G, R values. Every byte before and after row y is left untouched. |
| `Pixels.ArgbKeepsChannels` | main.cpp:473-498 | With the ARGB masks, the B, G, R written for a pixel are bytes 0, 1, 2 of its source word. |
| `Pixels.BgraDropsRedAndBlue` | main.cpp:477-498 | As written, the BGRA masks give red = 0 and blue = 0 for every pixel. Only green is the source byte 1. |
| `Pixels.BgraCounterexample` | main.cpp:477-498 | A concrete BGRA pixel (bytes 11 22 33 00) whose red and blue are lost. |
| `Pixels.IntendedKeepsChannels` | main.cpp:472-498 | With each shift taken from its mask, ARGB gives B,G,R = bytes 0,1,2 and BGRA gives R,G,B = bytes 0,1,2. |
| `Pixels.WriterInputCases` | main.cpp:469-515 | Unsupported layouts hand nothing to the writer. A 24-bit image is handed over unchanged. A recognised 32-bit image is handed over as width·height·3 packed bytes. |
| `FrameStore.ConcatAppend` | main.cpp:308 | Appending a frame's bytes to the store appends that frame to the sequence of stored frames. |
| `FrameStore.ConcatLength` | main.cpp:294-308 | A store of k frames of n bytes holds k·n bytes. |
| `FrameStore.FrameCountExact` | main.cpp:138 | For a store of whole frames, size / frameSize is exactly the number of frames written, with no remainder. |
| `FrameStore.ConcatSlice` | main.cpp:140-141 | Frame i is bytes [i·n, i·n + n) of the store. |
| `FrameStore.SlicesAt` | main.cpp:140-148 | Entry k of the finaliser's frame sequence is the k-th slice, stamped k. |
| `FrameStore.SliceFrames` | main.cpp:135-148 | The finaliser's loop sends size / frameSize frames. Frame i is bytes [i·frameSize, (i+1)·frameSize) with pts i. |
| `FrameStore.SlicesAreFrames` | main.cpp:135-148 | Slicing a store of whole frames gives back the frames written, in write order, stamped 0, 1, 2, … |
| `Recording.FitFrame` | main.cpp:297-306 | A stored frame is always exactly frameSize bytes: the converted bytes first, zeros after them. |
| `Recording.RecordingContext.WholeFrames` | main.cpp:279-308 | The store always holds whole frames. While initialised, its length is videoFrameNumber · frameSize. |
| `Recording.RecordingContext.constructor` | main.cpp:409-411 | The context starts with both flags false, counter 0 and an empty store. |
| `Recording.RecordingContext.InitRecording` | main.cpp:225-282 | The store is emptied and the flag cleared whether or not set-up succeeds. Only on success is the context initialised with counter 0. On failure the counter is left as it was. |
| `Recording.RecordingContext.WriteFrame` | main.cpp:284-309 | Without both flags set, nothing changes. Otherwise exactly one frame of frameSize bytes is appended, converted from the input read as BGR24 with stride width·3. Earlier bytes stay as they were and the counter goes up by one. |
| `Recording.RecordingContext.FinalizeRecording` | main.cpp:94-148 | Nothing is sent if the context is not initialised or container set-up fails. Otherwise every stored frame is sent in write order with pts equal to its index. |
| `Recording.RecordingContext.CleanupRecording` | main.cpp:311-326 | On a context that is not initialised, nothing happens. Otherwise the stored frames are finalised, then both flags end false and the store empty. |
| `Recording.RecordingContext.ToggleRecording` | main.cpp:449-464 | From not recording: recording and initialised afterwards exactly when set-up succeeds, so a failed start leaves isRecording false. The counter becomes 0 on success and keeps its value on failure. From recording: both flags end false, and the filename and counter keep their values. An initialised store is finalised and emptied. A store that was never initialised is left as it was, with nothing sent. The toggle keeps isRecording == isInitialized. |
| `Recording.RecordingContext.Shutdown` | main.cpp:561-563 | On leaving the main loop, a recording that is both running and initialised is finalised and torn down. In every other state, including running but not initialised, nothing changes and nothing is sent. |
| `Recording.RecordingContext.CaptureFrame` | main.cpp:468-515 | One capture step appends exactly one frame when the image's layout is supported and a recording is active and initialised. That frame comes from the repacked or unchanged bytes. In every other case the store and counter are unchanged. |

## Findings

| source | as written | input that shows it | evidently intended | confidence | as-written member | corrected member |
|---|---|---|---|---|---|---|
| main.cpp:491-493 | Red, green and blue are always extracted with shifts 16, 8 and 0, whichever mask set matched. With the BGRA masks (red 0xff, blue 0xff0000), red is (p & 0xff) >> 16 = 0. Blue is p & 0xff0000 truncated to 8 bits = 0. | BGRA masks, pixel bytes 11 22 33 00: written B,G,R = 00,22,00 | Shift each channel by its own mask's position, giving B,G,R = 33,22,11 | not executed; high (the comment on line 472 says both layouts are meant to be handled) | `Pixels.BgraDropsRedAndBlue`, `Pixels.BgraCounterexample` | `Pixels.IntendedKeepsChannels` (channels `IntendedRed`/`IntendedGreen`/`IntendedBlue`) |

The capture path (`RepackBgr24`, `CaptureFrame`) keeps the extraction as
written, because it models what the recorder does. The corrected channel
functions show the fix and prove it.

## Left out

- SDL window, renderer, fonts, button drawing, hover and hit tests, the preview texture update and preview layout: user interface only.
- X11/XRandR screen discovery and `XGetImage`: the captured image is an input (`Pixels.Image`) together with the capture width and height.
- All FFmpeg semantics. This covers codec configuration and `avcodec_open2`, the bicubic `sws_scale` conversion (the opaque `Converter`), `av_image_get_buffer_size` (the constant `frameSize`) and `av_image_copy_to_buffer`. It also covers the encoder's send/receive drain loops and flush, `av_packet_rescale_ts`, packet writing, trailer and file close. The model stops at the sequence of (pts, frame) pairs given to the encoder.
- Recording.RecordingContext.FinalizeRecording: models the set-up failures as the single `containerReady` flag. It returns success once the frames are sent, as the code does, even if sending, draining or writing failed, and those outcomes are not modelled.
- Recording.RecordingContext.InitRecording: the individual set-up steps are collapsed into `codecReady`. Objects leaked by a partially failed set-up are not modelled.
- Recording.RecordingContext.WriteFrame: the 64-bit wrap-around of `videoFrameNumber` is not modelled, since 2^63 frames cannot occur. The pts assigned to the live scaler frame is not modelled either, because finalisation overwrites it.
- Recording.RecordingContext.CaptureFrame: a 24-bit image's bytes are passed on unchanged, as the code does. The scaler then reads them with stride width·3 even though the image's own stride is `bytes_per_line`. What the opaque scaler makes of padded rows is not modelled.
- Pixels.RepackBgr24: the 32-bit `int` arithmetic of main.cpp:487-495 is not modelled. This covers `width * height * 3`, `(y * width + x) * 3` and `y * bytes_per_line + x * 4`. The model computes them on unbounded integers. They cannot overflow at real screen sizes.
- `std::atomic` semantics of the flags, the frame-rate sleep and timing: concurrency and wall-clock behaviour; plain fields model the flags.
- `new[]`/`delete[]` and library allocate/free pairing: memory management, not behaviour.
- Logging to standard error on each failure path.
