/**
 * The `ScreenshotManager` singleton: its two frame buffers, the cycle counter,
 * the sanitized views and the two timer slots, with one method per operation.
 *
 * Everything outside the manager is a parameter: the rendered frame's JPEG
 * bytes (`render`), the GZIP compressor (`gzip`), the session id, the current
 * time and whether the collector accepted an upload (`delivered`). A timer
 * firing is one call of the method it would run.
 */
module Managers {
  import opened Wrappers
  import opened KotlinSemantics
  import opened Masking
  import opened FrameBuffers

  const CAPTURE_INTERVAL_MILLIS: int := 1000
  const CYCLE_INTERVAL_MILLIS: int := 30_000

  /** A timer made by `fixedRateTimer(name, false, 0L, period)`; two timers are the same only if they are the same object. */
  class Timer {
    const name: string
    const periodMillis: int

    constructor (name: string, periodMillis: int)
      ensures this.name == name && this.periodMillis == periodMillis
    {
      this.name := name;
      this.periodMillis := periodMillis;
    }
  }

  /** The timers a nullable slot holds: none or one. */
  function Slot(t: Option<Timer>): (r: set<Timer>)
    ensures |r| <= 1
  {
    if t.Some? then {t.value} else {}
  }

  class ScreenshotManager {
    var timer: Option<Timer>
    var screenshots: seq<Frame>
    var screenshotsBackup: seq<Frame>
    var tick: Long
    var lastTs: Long
    var bufferTimer: Option<Timer>
    var sanitizedElements: seq<View>

    /** The capture timers and the cycle timers that are still scheduled: created and not cancelled. */
    ghost var liveCaptureTimers: set<Timer>
    ghost var liveCycleTimers: set<Timer>

    /**
     * The only capture timer still running is the one in `timer`; the cycle
     * timer in `bufferTimer`, if any, is running. Nothing assigns `lastTs`,
     * so it keeps its initial value, and nothing adds to `screenshotsBackup`,
     * so it stays empty.
     */
    ghost predicate Valid()
      reads this
    {
      && liveCaptureTimers == Slot(timer)
      && Slot(bufferTimer) <= liveCycleTimers
      && lastTs == 0
      && screenshotsBackup == []
    }

    /** No cycle timer runs except the one `bufferTimer` can still cancel. */
    ghost predicate CycleTimerTracked()
      reads this
    {
      liveCycleTimers == Slot(bufferTimer)
    }

    ghost function State(): BufferState
      reads this
    {
      BufferState(screenshots, screenshotsBackup, tick, lastTs)
    }

    constructor ()
      ensures Valid() && CycleTimerTracked()
      ensures State() == BufferState([], [], 0, 0)
      ensures sanitizedElements == [] && timer == None && bufferTimer == None
      ensures liveCaptureTimers == {} && liveCycleTimers == {}
    {
      timer := None;
      screenshots := [];
      screenshotsBackup := [];
      tick := 0;
      lastTs := 0;
      bufferTimer := None;
      sanitizedElements := [];
      liveCaptureTimers := {};
      liveCycleTimers := {};
    }

    /** `start`: begins capturing once a second (the application context is not modelled). */
    method Start()
      requires Valid()
      modifies this`timer, this`liveCaptureTimers
      ensures Valid()
      ensures timer.Some? && fresh(timer.value) && timer.value.periodMillis == CAPTURE_INTERVAL_MILLIS
      ensures liveCaptureTimers == {timer.value}
    {
      StartCapturing(CAPTURE_INTERVAL_MILLIS);
    }

    /** Cancels any capture timer, then installs a new one: exactly one capture timer runs afterwards. */
    method StartCapturing(intervalMillis: int)
      requires intervalMillis > 0
      requires Valid()
      modifies this`timer, this`liveCaptureTimers
      ensures Valid()
      ensures timer.Some? && fresh(timer.value)
      ensures timer.value.name == "screenshotTimer" && timer.value.periodMillis == intervalMillis
      ensures liveCaptureTimers == {timer.value}
    {
      StopCapturing();
      var t := new Timer("screenshotTimer", intervalMillis);
      timer := Some(t);
      liveCaptureTimers := liveCaptureTimers + {t};
    }

    /** Cancels the capture timer if there is one; the slot is empty afterwards either way. */
    method StopCapturing()
      requires Valid()
      modifies this`timer, this`liveCaptureTimers
      ensures Valid()
      ensures timer == None && liveCaptureTimers == {}
    {
      if timer.Some? {
        liveCaptureTimers := liveCaptureTimers - {timer.value};
      }
      timer := None;
    }

    /**
     * `startCycleBuffer` as written: installs a new cycle timer without
     * cancelling the one already in the slot, which keeps running.
     */
    method StartCycleBufferAsWritten()
      requires Valid()
      modifies this`bufferTimer, this`liveCycleTimers
      ensures Valid()
      ensures bufferTimer.Some? && fresh(bufferTimer.value)
      ensures bufferTimer.value.name == "cycleBuffer" && bufferTimer.value.periodMillis == CYCLE_INTERVAL_MILLIS
      ensures liveCycleTimers == old(liveCycleTimers) + {bufferTimer.value}
    {
      var t := new Timer("cycleBuffer", CYCLE_INTERVAL_MILLIS);
      bufferTimer := Some(t);
      liveCycleTimers := liveCycleTimers + {t};
    }

    /** `startCycleBuffer` guarded as `startCapturing` is: cancel, then install. */
    method StartCycleBuffer()
      requires Valid()
      modifies this`bufferTimer, this`liveCycleTimers
      ensures Valid()
      ensures bufferTimer.Some? && fresh(bufferTimer.value)
      ensures bufferTimer.value.name == "cycleBuffer" && bufferTimer.value.periodMillis == CYCLE_INTERVAL_MILLIS
      ensures liveCycleTimers == old(liveCycleTimers) - Slot(old(bufferTimer)) + {bufferTimer.value}
      ensures old(CycleTimerTracked()) ==> CycleTimerTracked()
    {
      StopCycleBuffer();
      var t := new Timer("cycleBuffer", CYCLE_INTERVAL_MILLIS);
      bufferTimer := Some(t);
      liveCycleTimers := liveCycleTimers + {t};
    }

    /** Cancels the cycle timer in the slot, if any, and empties the slot. */
    method StopCycleBuffer()
      requires Valid()
      modifies this`bufferTimer, this`liveCycleTimers
      ensures Valid()
      ensures bufferTimer == None
      ensures liveCycleTimers == old(liveCycleTimers) - Slot(old(bufferTimer))
      ensures old(CycleTimerTracked()) ==> CycleTimerTracked() && liveCycleTimers == {}
    {
      if bufferTimer.Some? {
        liveCycleTimers := liveCycleTimers - {bufferTimer.value};
      }
      bufferTimer := None;
    }

    /** One firing of the cycle timer, with the current `bufferingMode` option. */
    method CycleBuffer(bufferingMode: bool)
      requires Valid()
      modifies this`screenshots, this`screenshotsBackup, this`tick
      ensures Valid()
      ensures State() == Cycle(old(State()), bufferingMode)
    {
      if bufferingMode {
        if Rem(tick, 2) == 0 {
          screenshots := [];
        } else {
          screenshotsBackup := [];
        }
        tick := Inc(tick);
      }
    }

    /** Keeps the larger buffer as the primary (the backup on a tie), empties the backup, then sends. */
    method SyncBuffers(sessionId: Option<string>, gzip: Bytes -> Bytes, delivered: bool)
      returns (attempt: Option<Upload>)
      requires Valid()
      modifies this`screenshots, this`screenshotsBackup, this`tick
      ensures Valid()
      ensures attempt == BatchUpload(Merge(old(State())), sessionId, gzip)
      ensures State() == AfterSend(Merge(old(State())), sessionId, delivered)
    {
      var buf1 := |screenshots|;
      var buf2 := |screenshotsBackup|;
      tick := 0;
      if buf1 > buf2 {
        screenshotsBackup := [];
      } else {
        screenshots := screenshotsBackup;
        screenshotsBackup := [];
      }
      attempt := SendScreenshots(sessionId, gzip, delivered);
    }

    /** The primary's payloads written one after the other, as the batch stream receives them. */
    method CombinedData() returns (data: Bytes)
      ensures data == Batch(screenshots)
    {
      data := [];
      var i := 0;
      while i < |screenshots|
        invariant 0 <= i <= |screenshots|
        invariant data == Batch(screenshots[..i])
      {
        assert screenshots[..i + 1][..i] == screenshots[..i];
        data := data + screenshots[i].payload;
        i := i + 1;
      }
      assert screenshots[..i] == screenshots;
    }

    /**
     * Without a session: nothing is sent and nothing changes. Otherwise the
     * compressed batch of the primary is uploaded under the archive name, and
     * the primary is emptied only when the collector accepts it.
     */
    method SendScreenshots(sessionId: Option<string>, gzip: Bytes -> Bytes, delivered: bool)
      returns (attempt: Option<Upload>)
      requires Valid()
      modifies this`screenshots
      ensures Valid()
      ensures attempt == BatchUpload(old(State()), sessionId, gzip)
      ensures attempt.Some? ==> attempt.value.archiveName == ArchiveName(sessionId.value, 0)
      ensures State() == AfterSend(old(State()), sessionId, delivered)
    {
      if sessionId.None? {
        return None;
      }
      var archiveName := ArchiveName(sessionId.value, lastTs);
      var combinedData := CombinedData();
      var gzData := gzip(combinedData);
      attempt := Some(Upload(gzData, archiveName));
      if delivered {
        screenshots := [];
      }
    }

    /** Compresses the JPEG bytes of a frame, appends them with the capture time, then sends. */
    method CompressAndSend(jpegData: Bytes, gzip: Bytes -> Bytes, now: Long, sessionId: Option<string>, delivered: bool)
      returns (attempt: Option<Upload>)
      requires Valid()
      modifies this`screenshots
      ensures Valid()
      ensures State() == Capture(old(State()), Frame(gzip(jpegData), now), sessionId, delivered)
      ensures attempt == BatchUpload(Append(old(State()), Frame(gzip(jpegData), now)), sessionId, gzip)
    {
      var gzippedData := gzip(jpegData);
      screenshots := screenshots + [Frame(gzippedData, now)];
      attempt := SendScreenshots(sessionId, gzip, delivered);
    }

    /** The mask rectangles `viewToBitmap` paints over the frame rendered from `root`, in list order. */
    method ViewToBitmap(root: View) returns (masks: seq<Rect>)
      ensures masks == MaskRects(sanitizedElements, root)
    {
      masks := [];
      var i := 0;
      while i < |sanitizedElements|
        invariant 0 <= i <= |sanitizedElements|
        invariant masks == MaskRects(sanitizedElements[..i], root)
      {
        var sanitizedView := sanitizedElements[i];
        assert sanitizedElements[..i + 1][..i] == sanitizedElements[..i];
        if sanitizedView.visibility == VISIBLE {
          var x := IntMinus(sanitizedView.windowX, root.windowX);
          var y := IntMinus(sanitizedView.windowY, root.windowY);
          masks := masks + [Rect(x, y, sanitizedView.width, sanitizedView.height)];
        }
        i := i + 1;
      }
      assert sanitizedElements[..i] == sanitizedElements;
    }

    /**
     * One firing of the capture timer: the frame rendered from `root` with the
     * masks of the visible sanitized views painted over it is encoded
     * (`render`), compressed, appended and sent.
     */
    method CaptureScreenshot(root: View, render: seq<Rect> -> Bytes, gzip: Bytes -> Bytes, now: Long,
                             sessionId: Option<string>, delivered: bool)
      returns (attempt: Option<Upload>)
      requires Valid()
      modifies this`screenshots
      ensures Valid()
      ensures var frame := Frame(gzip(render(MaskRects(sanitizedElements, root))), now);
        State() == Capture(old(State()), frame, sessionId, delivered) &&
        attempt == BatchUpload(Append(old(State()), frame), sessionId, gzip)
    {
      var masks := ViewToBitmap(root);
      attempt := CompressAndSend(render(masks), gzip, now, sessionId, delivered);
    }

    /** Appends `view` to the sanitized views; a view already there is added again. */
    method AddSanitizedElement(view: View)
      requires Valid()
      modifies this`sanitizedElements
      ensures Valid()
      ensures sanitizedElements == old(sanitizedElements) + [view]
    {
      sanitizedElements := sanitizedElements + [view];
    }

    /** Removes the first occurrence of `view`; does nothing if it is absent. */
    method RemoveSanitizedElement(view: View)
      requires Valid()
      modifies this`sanitizedElements
      ensures Valid()
      ensures sanitizedElements == RemoveFirst(old(sanitizedElements), view)
    {
      sanitizedElements := RemoveFirst(sanitizedElements, view);
    }
  }

  /**
   * Starting the cycle timer twice as written and then stopping it leaves one
   * cycle timer running that no slot refers to.
   */
  method CycleTimerLeak() returns (m: ScreenshotManager)
    ensures m.bufferTimer == None && |m.liveCycleTimers| == 1
  {
    m := new ScreenshotManager();
    m.StartCycleBufferAsWritten();
    m.StartCycleBufferAsWritten();
    m.StopCycleBuffer();
  }

  /** With the guarded start, the same calls leave no cycle timer running. */
  method CycleTimerNoLeak() returns (m: ScreenshotManager)
    ensures m.bufferTimer == None && m.liveCycleTimers == {}
  {
    m := new ScreenshotManager();
    m.StartCycleBuffer();
    m.StartCycleBuffer();
    m.StopCycleBuffer();
  }
}
