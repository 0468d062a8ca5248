# ScreenshotManager: a Dafny model of the screenshot buffering core

This project models the frame-buffer state machine of OpenReplay's Android
`ScreenshotManager` singleton, including its mask bookkeeping. The manager
captures the application's root view once a second and paints a cross-hatch
over every visible sanitized view. It then JPEG-encodes and GZIP-compresses
the frame and appends it, with its capture time, to the primary buffer
`screenshots`. After each capture it tries to ship the whole primary buffer
as one archive. A second timer may clear the primary or the backup buffer
(`screenshotsBackup`) in turn while buffering mode is on. `syncBuffers` keeps
the larger of the two buffers and sends it. Nothing ever adds a frame to the
backup, though, so it is empty in every reachable state (see below).

The Dafny files:

- `kotlin_semantics.dfy` (module `KotlinSemantics`): Kotlin's `Long`, `Int`
  and `Byte` types. It also defines the wrap-around of `Long` `++`, 32-bit
  `Int` subtraction, and Kotlin's truncating `%`. Last comes the decimal
  rendering a string template gives a `Long`, with a parser that reads it back.
- `masking.dfy` (module `Masking`): a `View` class and the `Rect` of a mask.
  `MaskRects` specifies which rectangles `viewToBitmap` paints. `RemoveFirst`
  specifies `MutableList.remove`.
- `frame_buffers.dfy` (module `FrameBuffers`): the buffer state as a value.
  One function per operation gives the state that operation leaves:
  `Cycle`, `Merge`, `Append`, `AfterSend`, `Capture` and `BatchUpload`.
  The module also holds the batch concatenation, the archive name, and the
  lemmas about all of these.
- `screenshot_manager.dfy` (module `Managers`): the class `ScreenshotManager`
  with the source's fields (`timer`, `screenshots`, `screenshotsBackup`,
  `tick`, `lastTs`, `bufferTimer`, `sanitizedElements`). It has one method per
  operation, each proved to leave the state the matching `FrameBuffers`
  function gives. Two ghost sets record which capture and cycle timers are
  still scheduled.
- `wrappers.dfy` (module `Wrappers`): `Option`, for Kotlin's nullable values.

External collaborators are parameters:
- `render: seq<Rect> -> Bytes` gives the JPEG bytes of the root view drawn with
  the given masks.
- `gzip: Bytes -> Bytes` is the GZIP compressor.
- `sessionId: Option<string>` stands for `NetworkManager.sessionId`.
- `now: Long` stands for `System.currentTimeMillis()`.
- `bufferingMode: bool` stands for `OpenReplay.options.bufferingMode`, read by
  `cycleBuffer`.
- `delivered: bool` says whether `MessageCollector.sendImagesBatch` returned
  normally (`true`) or threw (`false`).

A timer firing is one sequential call of the method it runs.

## Model

| member | source | states |
|---|---|---|
| `Managers.ScreenshotManager.constructor` | app/src/main/java/com/openreplay/managers/ScreenshotManager.kt:20-29 | The singleton starts with both buffers empty, `tick` and `lastTs` 0, no sanitized views and both timer slots empty. |
| `Managers.ScreenshotManager.Start` | app/src/main/java/com/openreplay/managers/ScreenshotManager.kt:35-40 | `start` installs one fresh capture timer with a 1000 ms period, and it is the only capture timer running. |
| `Managers.ScreenshotManager.StartCapturing` | app/src/main/java/com/openreplay/managers/ScreenshotManager.kt:43-48 | Any previous capture timer is cancelled before a fresh one is installed, so exactly one capture timer runs afterwards. |
| `Managers.ScreenshotManager.StopCapturing` | app/src/main/java/com/openreplay/managers/ScreenshotManager.kt:50-53 | Afterwards the slot is empty and no capture timer runs, whether or not one was set. |
| `Managers.ScreenshotManager.CaptureScreenshot` | app/src/main/java/com/openreplay/managers/ScreenshotManager.kt:55-62 | A capture appends `gzip(render(masks))` with the capture time, where `masks` are the rectangles of the visible sanitized views. It then makes a delivery attempt. |
| `Managers.ScreenshotManager.ViewToBitmap` | app/src/main/java/com/openreplay/managers/ScreenshotManager.kt:77-92 | The loop over `sanitizedElements` yields exactly `MaskRects(sanitizedElements, root)`. |
| `Masking.MaskRect` | app/src/main/java/com/openreplay/managers/ScreenshotManager.kt:79-89 | A mask's size is the view's width and height. Without 32-bit overflow, its origin plus the root's window location is the view's window location. |
| `Masking.MaskRectsAreVisibleViews` | app/src/main/java/com/openreplay/managers/ScreenshotManager.kt:77-91 | Mask selection yields one rectangle per VISIBLE view, in list order, and nothing else. The i-th mask is the rectangle of the i-th visible view. |
| `Masking.VisibleViews` | app/src/main/java/com/openreplay/managers/ScreenshotManager.kt:78 | A view is among the masked views exactly when it is in the list and VISIBLE. |
| `Masking.MaskRectsAppend` | app/src/main/java/com/openreplay/managers/ScreenshotManager.kt:77-92 | The masks of a concatenation are the masks of each part, in order. |
| `Masking.HiddenViewAddsNoMask` | app/src/main/java/com/openreplay/managers/ScreenshotManager.kt:78 | A view that is not VISIBLE contributes no mask, wherever it stands in the list. |
| `KotlinSemantics.IntMinus` | app/src/main/java/com/openreplay/managers/ScreenshotManager.kt:83-84 | The offset is the difference of the two locations modulo 2^32 and in `Int` range. It is the exact difference when that fits. |
| `Managers.ScreenshotManager.CompressAndSend` | app/src/main/java/com/openreplay/managers/ScreenshotManager.kt:131-141 | The state becomes `Capture(old, Frame(gzip(jpeg), now), …)`: the frame is appended, then a send follows. The attempted upload carries the primary including the new frame. |
| `FrameBuffers.AppendAddsOneFrameAtEnd` | app/src/main/java/com/openreplay/managers/ScreenshotManager.kt:138 | A capture appends exactly one (payload, timestamp) pair at the end. Earlier entries, the backup and `tick` are unchanged. |
| `FrameBuffers.CaptureRunConservesFrames` | app/src/main/java/com/openreplay/managers/ScreenshotManager.kt:131-188 | Take any run of captures, each followed by a send that succeeds or fails. The frames in accepted batches, then those left in the primary, are exactly the initial primary followed by the captured frames, in order. Nothing is lost or duplicated, and the backup is untouched. This assumes each send finishes before the next capture appends. |
| `Managers.ScreenshotManager.SyncBuffers` | app/src/main/java/com/openreplay/managers/ScreenshotManager.kt:150-163 | The state becomes `AfterSend(Merge(old), …)`. The attempted upload is the batch of the merged primary. |
| `FrameBuffers.MergeKeepsLarger` | app/src/main/java/com/openreplay/managers/ScreenshotManager.kt:151-160 | `tick` becomes 0 and the backup is empty. A strictly larger primary is kept unchanged. Otherwise, including on a tie, the primary becomes the former backup. The survivor is at least as long as either buffer. |
| `FrameBuffers.MergeIdempotent` | app/src/main/java/com/openreplay/managers/ScreenshotManager.kt:150-160 | Synchronising twice leaves the same buffers as synchronising once. |
| `FrameBuffers.BackupStaysEmpty` | app/src/main/java/com/openreplay/managers/ScreenshotManager.kt:131-209 | From an empty backup, a cycle tick, a synchronisation, an append, a send and a whole capture all leave the backup empty: no operation ever fills it. |
| `FrameBuffers.SyncWithEmptyBackup` | app/src/main/java/com/openreplay/managers/ScreenshotManager.kt:150-160 | With the backup empty, `syncBuffers` keeps the primary and only sets `tick` to 0. |
| `FrameBuffers.CycleWithEmptyBackup` | app/src/main/java/com/openreplay/managers/ScreenshotManager.kt:201-209 | With the backup empty, an enabled even tick leaves both buffers empty, dropping every undelivered frame. An odd tick only advances `tick`. |
| `Managers.ScreenshotManager.SendScreenshots` | app/src/main/java/com/openreplay/managers/ScreenshotManager.kt:165-188 | Without a session id nothing is attempted and nothing changes. Otherwise it attempts `gzip(Batch(primary))` under the name `"<sessionId>-0.tar.gz"`. The primary is emptied only on success, and the backup is never touched. |
| `FrameBuffers.SendClearsOnlyOnDelivery` | app/src/main/java/com/openreplay/managers/ScreenshotManager.kt:165-187 | A send leaves the backup and `tick` alone. It changes nothing without a session or on upload failure, and empties the primary on success. |
| `FrameBuffers.UploadCarriesPrimaryOnly` | app/src/main/java/com/openreplay/managers/ScreenshotManager.kt:171-182 | The uploaded data is `gzip` of the primary's payloads and does not depend on the backup. There is no upload without a session. |
| `Managers.ScreenshotManager.CombinedData` | app/src/main/java/com/openreplay/managers/ScreenshotManager.kt:172-176 | The `forEach` writes the primary's payloads, in order, which is `Batch(screenshots)`. |
| `FrameBuffers.BatchAppend` | app/src/main/java/com/openreplay/managers/ScreenshotManager.kt:172-176 | The batch of two runs of frames is the concatenation of their batches. |
| `FrameBuffers.BatchHoldsFrameAt` | app/src/main/java/com/openreplay/managers/ScreenshotManager.kt:172-176 | Frame i's payload appears in the batch right after the payloads of frames 0..i-1, so the order is kept. |
| `FrameBuffers.ArchiveNameParts` | app/src/main/java/com/openreplay/managers/ScreenshotManager.kt:167 | The name is the session id, `-`, the decimal `lastTs` and `.tar.gz`. `lastTs` can be read back from the name. |
| `FrameBuffers.ArchiveNameExample` | app/src/main/java/com/openreplay/managers/ScreenshotManager.kt:167 | Session `abc123` with timestamp 1700000000000 gives `abc123-1700000000000.tar.gz`. |
| `KotlinSemantics.LongToStringRoundTrip` | app/src/main/java/com/openreplay/managers/ScreenshotManager.kt:167 | The decimal rendering of a `Long` in the template parses back to the same number. |
| `Managers.ScreenshotManager.StartCycleBufferAsWritten` | app/src/main/java/com/openreplay/managers/ScreenshotManager.kt:190-194 | As written, a fresh cycle timer is added to those already running, and the previous one is not cancelled. |
| `Managers.ScreenshotManager.StartCycleBuffer` | app/src/main/java/com/openreplay/managers/ScreenshotManager.kt:190-194 | Corrected: the timer in the slot is cancelled first. If only the slot's timer ran before, only the new one runs after. |
| `Managers.ScreenshotManager.StopCycleBuffer` | app/src/main/java/com/openreplay/managers/ScreenshotManager.kt:196-199 | The slot's timer, if any, is cancelled and the slot is emptied. No other running timer is affected. |
| `Managers.CycleTimerLeak` | app/src/main/java/com/openreplay/managers/ScreenshotManager.kt:190-199 | As written, start, start, stop leaves one cycle timer running and an empty slot. |
| `Managers.CycleTimerNoLeak` | app/src/main/java/com/openreplay/managers/ScreenshotManager.kt:190-199 | With the corrected start, the same calls leave no cycle timer running. |
| `Managers.ScreenshotManager.CycleBuffer` | app/src/main/java/com/openreplay/managers/ScreenshotManager.kt:201-211 | One firing leaves `Cycle(old, bufferingMode)`. |
| `FrameBuffers.CycleClearsOneBuffer` | app/src/main/java/com/openreplay/managers/ScreenshotManager.kt:201-209 | With buffering mode off, nothing changes. With it on, exactly one buffer is cleared: the primary on an even tick, the backup on an odd one. The other buffer is kept and `tick` advances by one. |
| `FrameBuffers.TwoTicksClearEachBufferOnce` | app/src/main/java/com/openreplay/managers/ScreenshotManager.kt:201-209 | Two enabled ticks in a row clear each buffer exactly once, in parity order, leaving both empty. |
| `KotlinSemantics.IncFlipsParity` | app/src/main/java/com/openreplay/managers/ScreenshotManager.kt:203-208 | `tick++` always flips the parity that Kotlin's `% 2` reports, including at the wrap from `Long.MAX_VALUE` to `Long.MIN_VALUE`. |
| `KotlinSemantics.Inc` | app/src/main/java/com/openreplay/managers/ScreenshotManager.kt:208 | `tick++` is congruent to `tick + 1` modulo 2^64 and equals it below `Long.MAX_VALUE`. |
| `KotlinSemantics.Rem` | app/src/main/java/com/openreplay/managers/ScreenshotManager.kt:203 | Kotlin's `%` is the remainder of truncated division. It lies strictly between `-m` and `m` and carries the dividend's sign. |
| `Managers.ScreenshotManager.AddSanitizedElement` | app/src/main/java/com/openreplay/managers/ScreenshotManager.kt:213-218 | The view is appended at the end, even if it is already present. |
| `Managers.ScreenshotManager.RemoveSanitizedElement` | app/src/main/java/com/openreplay/managers/ScreenshotManager.kt:220-225 | The list becomes `RemoveFirst(old list, view)`. |
| `Masking.RemoveFirst` | app/src/main/java/com/openreplay/managers/ScreenshotManager.kt:224 | Removing an absent view is a no-op. Removing a present view takes out exactly one copy and leaves the others. |
| `Masking.FirstIndex` | app/src/main/java/com/openreplay/managers/ScreenshotManager.kt:224 | `remove` targets the first position holding the view, with no copy before it. |
| `Masking.RemoveTakesEarliest` | app/src/main/java/com/openreplay/managers/ScreenshotManager.kt:224 | With duplicates, the earliest copy is the one removed. |
| `Masking.RemoveUndoesAdd` | app/src/main/java/com/openreplay/managers/ScreenshotManager.kt:213-225 | Adding a view that was absent and then removing it restores the list. |

Behaviour of the code a reader might not expect:

- Sanitized views are a plain list. Adding a view twice keeps both copies, and
  removing deletes only the first.
- Mask selection does not skip views of zero or negative size. Each visible
  view gets a rectangle. A zero-size one paints nothing; what a negative size
  paints is up to the platform canvas, which is not modelled.
- `lastTs` is never assigned, so every archive is named `<sessionId>-0.tar.gz`.
  The capture timestamp is not used. `Valid()` records `lastTs == 0` as an
  invariant.
- A send after a capture ships the primary buffer as it is. Only `syncBuffers`
  compares the two buffers.
- Nothing adds a frame to `screenshotsBackup`. It is only measured, copied and
  cleared, so it is empty in every reachable state, and `Valid()` records this.
  As a result, the size comparison in `syncBuffers` never picks the backup's
  frames; it only resets `tick`. The odd-tick clear in `cycleBuffer` does
  nothing. With buffering mode on, every even tick throws away all undelivered
  frames, and no second generation of frames is ever kept.
- `start` does not start the cycle timer, because that call is commented out.
  The cycle timer runs only if `startCycleBuffer` is called from outside.

## Left out

- Bitmap and canvas rendering, the cross-hatch pattern bitmap (`createCrossStripedPatternBitmap`) and the painting of masks: platform graphics. Only which rectangles are painted is modelled; the encoded frame is the `render` parameter.
- JPEG encoding (quality 50) and GZIP compression, per frame and per batch: foreign library calls. They are the parameters `render` and `gzip`. Writing payloads one by one into one GZIP stream is modelled as compressing their concatenation.
- Exceptions thrown while rendering, encoding, compressing or writing the side file: the source catches none of them. A throw in the `runOnUiThread` runnable or the `GlobalScope.launch` block goes to the uncaught-exception handler, and that capture is neither appended nor sent. On Android the default handler ends the process. A throw in `captureScreenshot` itself, such as the failed `as Activity` cast on the timer thread, also cancels the `java.util.Timer`, so no later capture runs either. The model has no exceptional path, so every capture appends; only a failed upload is modelled as a failure.
- `saveToLocalFilesystem` and the `screenshot-<millis>.jpg` side file: file I/O whose content is never read back. It runs before the append, so a failed write skips the append and the send; that failure is not modelled (see the line above).
- `NetworkManager.sessionId` and `MessageCollector.sendImagesBatch`: external transport. They are the `sessionId` input and the `delivered` outcome.
- `CaptureRunConservesFrames`: the no-loss result holds for captures and sends that run one after the other. In the source every capture runs in its own coroutine, and `sendScreenshots` suspends between building the batch and `screenshots.clear()`. A frame appended by another capture in that window is cleared without ever being uploaded, so a slow upload can drop frames.
- `fixedRateTimer` threads, `GlobalScope.launch`, `withContext(Dispatchers.IO)` and `runOnUiThread`: concurrency. Every operation runs as one sequential call, so interleavings of captures, sends and cycle ticks on the shared lists are not modelled. Timers are objects; their running state is the ghost sets `liveCaptureTimers` and `liveCycleTimers`.
- The float conversions in `canvas.translate` and `drawRect`: exact for screen-sized coordinates; rectangles keep integer coordinates.
- `appContext` and the cast of it to `Activity`: the root view is a parameter of `ViewToBitmap` and `CaptureScreenshot`.
- `firstTs`, the empty `setSettings`, the commented-out lines in `start`, and the `DebugUtils` logging in the sanitized-view methods: no behaviour.
- `build.gradle.kts`: build configuration only.

## Findings

| source | as written | input that shows it | evidently intended | confidence | as-written member | corrected member |
|---|---|---|---|---|---|---|
| app/src/main/java/com/openreplay/managers/ScreenshotManager.kt:190-194 | `startCycleBuffer` overwrites `bufferTimer` without cancelling the timer already there. | `startCycleBuffer(); startCycleBuffer(); stopCycleBuffer()` leaves the first cycle timer running. No slot refers to it, so it can never be cancelled and keeps clearing buffers every 30 s. | Cancel first, as `startCapturing` does, so that at most one cycle timer exists and `stopCycleBuffer` stops cycling. | medium, not executed | `Managers.ScreenshotManager.StartCycleBufferAsWritten`, `Managers.CycleTimerLeak` | `Managers.ScreenshotManager.StartCycleBuffer`, `Managers.CycleTimerNoLeak` |
