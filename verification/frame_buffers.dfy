/**
 * The frame buffers of the screenshot manager as values: the primary list
 * `screenshots`, the backup list `screenshotsBackup`, the cycle counter `tick`
 * and `lastTs`. Each function gives the state one operation of the manager
 * leaves behind; the manager's methods are proved to follow them, and the
 * lemmas below say what the operations guarantee.
 */
module FrameBuffers {
  import opened Wrappers
  import opened KotlinSemantics

  /** One captured frame: its compressed payload and the capture time in milliseconds. */
  datatype Frame = Frame(payload: Bytes, timestamp: Long)

  datatype BufferState = BufferState(primary: seq<Frame>, backup: seq<Frame>, tick: Long, lastTs: Long)

  /** What is handed to the collector: the archive bytes and the archive's name. */
  datatype Upload = Upload(data: Bytes, archiveName: string)

  /** The parity test of `cycleBuffer`, `(tick % 2).toInt() == 0` with Kotlin's `%`. */
  predicate IsEvenTick(tick: Long)
  {
    Rem(tick, 2) == 0
  }

  /** One firing of the buffer-cycle timer. */
  function Cycle(s: BufferState, bufferingMode: bool): BufferState
  {
    if !bufferingMode then s
    else if IsEvenTick(s.tick) then s.(primary := [], tick := Inc(s.tick))
    else s.(backup := [], tick := Inc(s.tick))
  }

  /** The buffer comparison of `syncBuffers`: the strictly larger primary survives, otherwise the backup's frames do. */
  function Merge(s: BufferState): BufferState
  {
    if |s.primary| > |s.backup| then s.(backup := [], tick := 0)
    else s.(primary := s.backup, backup := [], tick := 0)
  }

  /** The append step of `compressAndSend`. */
  function Append(s: BufferState, f: Frame): BufferState
  {
    s.(primary := s.primary + [f])
  }

  /** The state after `sendScreenshots`, given whether the collector accepted the batch. */
  function AfterSend(s: BufferState, sessionId: Option<string>, delivered: bool): BufferState
  {
    if sessionId.Some? && delivered then s.(primary := []) else s
  }

  /** One capture: append the frame, then attempt delivery. */
  function Capture(s: BufferState, f: Frame, sessionId: Option<string>, delivered: bool): BufferState
  {
    AfterSend(Append(s, f), sessionId, delivered)
  }

  /** The payloads of `frames` written one after the other, in order. */
  function Batch(frames: seq<Frame>): Bytes
  {
    if frames == [] then []
    else Batch(frames[..|frames| - 1]) + frames[|frames| - 1].payload
  }

  /** The archive name `"$sessionId-$lastTs.tar.gz"`. */
  function ArchiveName(sessionId: string, lastTs: Long): string
  {
    sessionId + "-" + LongToString(lastTs) + ".tar.gz"
  }

  /**
   * The upload that `sendScreenshots` attempts from state `s`: none without a
   * session, otherwise the compressed batch of the primary's payloads.
   */
  function BatchUpload(s: BufferState, sessionId: Option<string>, gzip: Bytes -> Bytes): Option<Upload>
  {
    if sessionId.None? then None
    else Some(Upload(gzip(Batch(s.primary)), ArchiveName(sessionId.value, s.lastTs)))
  }

  // ---------------------------------------------------------------------------
  // Cycling

  /**
   * With buffering mode off a cycle tick changes nothing. With it on, it clears
   * exactly one buffer, the primary on an even tick and the backup on an odd
   * one, keeps the other and advances the counter.
   */
  lemma CycleClearsOneBuffer(s: BufferState, bufferingMode: bool)
    ensures !bufferingMode ==> Cycle(s, bufferingMode) == s
    ensures bufferingMode && IsEvenTick(s.tick) ==>
      Cycle(s, bufferingMode) == BufferState([], s.backup, Inc(s.tick), s.lastTs)
    ensures bufferingMode && !IsEvenTick(s.tick) ==>
      Cycle(s, bufferingMode) == BufferState(s.primary, [], Inc(s.tick), s.lastTs)
  {
  }

  /**
   * Two enabled ticks in a row clear each buffer exactly once: the first
   * clears the buffer its parity selects and keeps the other, the second
   * clears that other one; both are then empty.
   */
  lemma TwoTicksClearEachBufferOnce(s: BufferState)
    ensures var s1 := Cycle(s, true);
      (IsEvenTick(s.tick) ==> s1.primary == [] && s1.backup == s.backup) &&
      (!IsEvenTick(s.tick) ==> s1.backup == [] && s1.primary == s.primary)
    ensures var s1 := Cycle(s, true); var s2 := Cycle(s1, true);
      (IsEvenTick(s.tick) ==> s2.backup == [] && s2.primary == s1.primary) &&
      (!IsEvenTick(s.tick) ==> s2.primary == [] && s2.backup == s1.backup)
    ensures Cycle(Cycle(s, true), true) == BufferState([], [], Inc(Inc(s.tick)), s.lastTs)
  {
    IncFlipsParity(s.tick);
  }

  // ---------------------------------------------------------------------------
  // Synchronising

  /**
   * `syncBuffers` resets the counter and empties the backup; a strictly larger
   * primary is kept as it is, otherwise (a tie included) the primary becomes
   * the former backup. The survivor is the larger of the two.
   */
  lemma MergeKeepsLarger(s: BufferState)
    ensures Merge(s).tick == 0 && Merge(s).backup == [] && Merge(s).lastTs == s.lastTs
    ensures |s.primary| > |s.backup| ==> Merge(s).primary == s.primary
    ensures |s.primary| <= |s.backup| ==> Merge(s).primary == s.backup
    ensures |Merge(s).primary| >= |s.primary| && |Merge(s).primary| >= |s.backup|
  {
  }

  /** Synchronising twice is the same as once. */
  lemma MergeIdempotent(s: BufferState)
    ensures Merge(Merge(s)) == Merge(s)
  {
  }

  // ---------------------------------------------------------------------------
  // The backup is never filled

  /**
   * No operation puts a frame into the backup: from a state with an empty
   * backup, a cycle tick, a synchronisation, an append and a send all leave it
   * empty. The manager starts with it empty, so it is empty in every state.
   */
  lemma BackupStaysEmpty(s: BufferState, bufferingMode: bool, f: Frame, sessionId: Option<string>, delivered: bool)
    requires s.backup == []
    ensures Cycle(s, bufferingMode).backup == []
    ensures Merge(s).backup == []
    ensures Append(s, f).backup == []
    ensures AfterSend(s, sessionId, delivered).backup == []
    ensures Capture(s, f, sessionId, delivered).backup == []
  {
  }

  /** With the backup empty, the size comparison of `syncBuffers` only resets the counter. */
  lemma SyncWithEmptyBackup(s: BufferState)
    requires s.backup == []
    ensures Merge(s) == s.(tick := 0)
  {
  }

  /**
   * With the backup empty, an enabled even tick throws away every undelivered
   * frame and an odd tick only advances the counter: no second generation of
   * frames is kept.
   */
  lemma CycleWithEmptyBackup(s: BufferState)
    requires s.backup == []
    ensures IsEvenTick(s.tick) ==> Cycle(s, true) == BufferState([], [], Inc(s.tick), s.lastTs)
    ensures !IsEvenTick(s.tick) ==> Cycle(s, true) == s.(tick := Inc(s.tick))
  {
  }

  // ---------------------------------------------------------------------------
  // Capturing and sending

  /** A capture puts the new frame at the end; earlier frames and the backup are untouched. */
  lemma AppendAddsOneFrameAtEnd(s: BufferState, f: Frame)
    ensures |Append(s, f).primary| == |s.primary| + 1
    ensures Append(s, f).primary[..|s.primary|] == s.primary
    ensures Append(s, f).primary[|s.primary|] == f
    ensures Append(s, f).backup == s.backup && Append(s, f).tick == s.tick
  {
    assert (s.primary + [f])[..|s.primary|] == s.primary;
  }

  /**
   * A send changes nothing without a session or when the collector refuses the
   * batch, and never touches the backup; the primary is emptied only by an
   * accepted upload.
   */
  lemma SendClearsOnlyOnDelivery(s: BufferState, sessionId: Option<string>, delivered: bool)
    ensures AfterSend(s, sessionId, delivered).backup == s.backup
    ensures AfterSend(s, sessionId, delivered).tick == s.tick
    ensures sessionId.None? || !delivered ==> AfterSend(s, sessionId, delivered) == s
    ensures sessionId.Some? && delivered ==> AfterSend(s, sessionId, delivered).primary == []
  {
  }

  /** Batches of two runs of frames are the batch of the runs joined. */
  lemma {:induction false} BatchAppend(a: seq<Frame>, b: seq<Frame>)
    ensures Batch(a + b) == Batch(a) + Batch(b)
    decreases |b|
  {
    if b == [] {
      assert a + b == a;
    } else {
      var init := b[..|b| - 1];
      assert (a + b)[..|a + b| - 1] == a + init;
      assert (a + b)[|a + b| - 1] == b[|b| - 1];
      BatchAppend(a, init);
    }
  }

  /** The batch holds every frame's payload, in order: frame `i` sits right after the payloads of the frames before `i`. */
  lemma BatchHoldsFrameAt(frames: seq<Frame>, i: nat)
    requires i < |frames|
    ensures var start := |Batch(frames[..i])|;
      start + |frames[i].payload| <= |Batch(frames)| &&
      Batch(frames)[start..start + |frames[i].payload|] == frames[i].payload
  {
    assert frames == frames[..i] + [frames[i]] + frames[i + 1..];
    BatchAppend(frames[..i] + [frames[i]], frames[i + 1..]);
    BatchAppend(frames[..i], [frames[i]]);
    assert Batch([frames[i]]) == frames[i].payload by {
      assert [frames[i]][..0] == [];
    }
  }

  /** The batch sent from `s` carries exactly the primary's payloads; the backup is never part of it. */
  lemma UploadCarriesPrimaryOnly(s: BufferState, sessionId: string, gzip: Bytes -> Bytes, other: seq<Frame>)
    ensures BatchUpload(s, Some(sessionId), gzip) == BatchUpload(s.(backup := other), Some(sessionId), gzip)
    ensures BatchUpload(s, Some(sessionId), gzip).value.data == gzip(Batch(s.primary))
    ensures BatchUpload(s, None, gzip) == None
  {
  }

  /**
   * Capturing `frames` one by one, each followed by a delivery attempt whose
   * outcome is the matching entry of `outcomes`: the final state, and the
   * frames of every batch the collector accepted, in order.
   */
  function CaptureRun(s: BufferState, frames: seq<Frame>, outcomes: seq<bool>, sessionId: Option<string>)
    : (BufferState, seq<seq<Frame>>)
    requires |frames| == |outcomes|
  {
    if frames == [] then (s, [])
    else
      var n := |frames| - 1;
      var (mid, accepted) := CaptureRun(s, frames[..n], outcomes[..n], sessionId);
      var appended := Append(mid, frames[n]);
      var sent := if sessionId.Some? && outcomes[n] then [appended.primary] else [];
      (Capture(mid, frames[n], sessionId, outcomes[n]), accepted + sent)
  }

  /** The frames of `batches`, batch after batch. */
  function Flatten(batches: seq<seq<Frame>>): seq<Frame>
  {
    if batches == [] then [] else Flatten(batches[..|batches| - 1]) + batches[|batches| - 1]
  }

  /** Flattening after one more batch appends that batch's frames. */
  lemma FlattenSnoc(batches: seq<seq<Frame>>, batch: seq<Frame>)
    ensures Flatten(batches + [batch]) == Flatten(batches) + batch
  {
    assert (batches + [batch])[..|batches|] == batches;
  }

  /**
   * At-least-once delivery, without loss or duplication: over any run of
   * captures and delivery attempts, the frames accepted by the collector
   * followed by the frames still in the primary are exactly the frames that
   * were there to begin with followed by the frames captured, in capture
   * order. The backup and the counter are not touched. Each send completes
   * before the next capture appends, as in a sequential run.
   */
  lemma {:induction false} CaptureRunConservesFrames(
    s: BufferState, frames: seq<Frame>, outcomes: seq<bool>, sessionId: Option<string>)
    requires |frames| == |outcomes|
    ensures var (t, accepted) := CaptureRun(s, frames, outcomes, sessionId);
      Flatten(accepted) + t.primary == s.primary + frames &&
      t.backup == s.backup && t.tick == s.tick && t.lastTs == s.lastTs
    decreases |frames|
  {
    if frames != [] {
      var n := |frames| - 1;
      var f := frames[n];
      CaptureRunConservesFrames(s, frames[..n], outcomes[..n], sessionId);
      var before := CaptureRun(s, frames[..n], outcomes[..n], sessionId);
      var mid, accepted := before.0, before.1;
      assert Flatten(accepted) + mid.primary == s.primary + frames[..n];
      assert s.primary + frames == (s.primary + frames[..n]) + [f] by {
        assert frames == frames[..n] + [f];
      }
      if sessionId.Some? && outcomes[n] {
        assert CaptureRun(s, frames, outcomes, sessionId) == (mid.(primary := []), accepted + [mid.primary + [f]]);
        FlattenSnoc(accepted, mid.primary + [f]);
      } else {
        assert CaptureRun(s, frames, outcomes, sessionId) == (mid.(primary := mid.primary + [f]), accepted + []);
        assert accepted + [] == accepted;
      }
    }
  }

  // ---------------------------------------------------------------------------
  // Archive name

  /**
   * The archive name is the session id, a dash, the decimal `lastTs` and
   * `.tar.gz`; the timestamp can be read back from it.
   */
  lemma ArchiveNameParts(sessionId: string, lastTs: Long)
    ensures var name := ArchiveName(sessionId, lastTs);
      |name| == |sessionId| + 1 + |LongToString(lastTs)| + 7 &&
      name[..|sessionId|] == sessionId && name[|sessionId|] == '-' &&
      name[|name| - 7..] == ".tar.gz" &&
      ParseLong(name[|sessionId| + 1..|name| - 7]) == lastTs
  {
    var name := ArchiveName(sessionId, lastTs);
    assert name[|sessionId| + 1..|name| - 7] == LongToString(lastTs);
    LongToStringRoundTrip(lastTs);
  }

  lemma ArchiveNameExample()
    ensures ArchiveName("abc123", 1700000000000) == "abc123-1700000000000.tar.gz"
  {
    DecimalExample();
    assert LongToString(1700000000000) == "1700000000000";
  }

  lemma DecimalExample()
    ensures NatToString(1700000000000) == "1700000000000"
  {
    assert NatToString(17) == "17";
    assert NatToString(170) == "170";
    assert NatToString(1700) == "1700";
    assert NatToString(17000) == "17000";
    assert NatToString(170000) == "170000";
    assert NatToString(1700000) == "1700000";
    assert NatToString(17000000) == "17000000";
    assert NatToString(170000000) == "170000000";
    assert NatToString(1700000000) == "1700000000";
    assert NatToString(17000000000) == "17000000000";
    assert NatToString(170000000000) == "170000000000";
    assert NatToString(1700000000000) == "1700000000000";
  }
}
