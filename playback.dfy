/** The frame accounting of src/playback/Playback.cc.

    The player reads a raw file of fixed-size frames and schedules them, one
    by one, on a DeckLink output. Each successful schedule records two
    timestamps (the CPU clock and the card's hardware clock) at the back of
    two queues; each on-time completion takes both from the front, logs them
    beside the completion timestamps and schedules the next frame. Every call
    into the DeckLink SDK is modelled as an input that says whether it
    succeeded and, for clock reads, what it returned. */
module Playback {
  import opened Arith
  import opened Wrappers

  /** The pixel formats `GetBytesPerPixel` names; every other format code is `OtherFormat`. */
  datatype PixelFormat =
    | Format8BitYUV
    | Format10BitYUV
    | Format8BitARGB
    | Format8BitBGRA
    | Format10BitRGB
    | OtherFormat(code: int)

  /** Bytes per pixel of a frame row: 4 for the 32-bit packed formats, else 2. */
  function BytesPerPixel(format: PixelFormat): (r: int)
    ensures r == 2 || r == 4
    ensures r == 4 <==>
      format == Format8BitARGB || format == Format10BitYUV ||
      format == Format10BitRGB || format == Format8BitBGRA
  {
    match format
    case Format8BitYUV => 2
    case Format8BitARGB | Format10BitYUV | Format10BitRGB | Format8BitBGRA => 4
    case OtherFormat(_) => 2
  }

  /** Frames per second of a display mode, rounded up: the least whole
      number of frames of length `duration` that cover `timescale` ticks. */
  function FramesPerSecond(timescale: int, duration: int): (fps: int)
    requires timescale >= 0 && duration > 0
    ensures (fps - 1) * duration < timescale <= fps * duration
  {
    CeilDiv(timescale, duration);
    (timescale + (duration - 1)) / duration
  }

  /** NTSC (30000 ticks per 1001-tick frame, 29.97 FPS) rounds up to 30, and 59.94 FPS to 60. */
  lemma FramesPerSecondExamples()
    ensures FramesPerSecond(30000, 1001) == 30
    ensures FramesPerSecond(60000, 1001) == 60
  {
  }

  /** The number of preroll schedules: the computed rate is overridden by a fixed 60. */
  const PrerollFrames: nat := 60

  /** The byte size of one frame of the input file, as the `unsigned int` `4 * W * H`. */
  function FrameSize(width: nat, height: nat): (size: nat)
    ensures size < U32
    ensures 4 * width * height < U32 ==> size == 4 * width * height
  {
    (4 * width * height) % U32
  }

  /** The number of whole frames in a file of `fileSize` bytes, truncated to `unsigned int`. */
  function FrameCount(fileSize: nat, frameSize: nat): (count: nat)
    requires frameSize > 0
    ensures count * frameSize <= fileSize
    ensures fileSize / frameSize < U32 ==> fileSize < count * frameSize + frameSize
  {
    var whole := fileSize / frameSize;
    MulMonoLeft(whole % U32, whole, frameSize);
    assert fileSize == whole * frameSize + fileSize % frameSize;
    whole % U32
  }

  /** Frame `k` of the file, the byte range `[k * frameSize, k * frameSize + frameSize)`,
      lies within the file whenever `k` is below the frame count. */
  lemma SliceWithinFile(fileSize: nat, frameSize: nat, k: nat)
    requires frameSize > 0 && k < FrameCount(fileSize, frameSize)
    ensures k * frameSize + frameSize <= fileSize
  {
    MulMonoLeft(k + 1, FrameCount(fileSize, frameSize), frameSize);
    assert (k + 1) * frameSize == k * frameSize + frameSize;
  }

  /** A `high_resolution_clock` time point; its value is never inspected. */
  type CpuTime = int
  /** A `BMDTimeValue` read from the card's hardware clock; its value is never inspected. */
  type DeckLinkTime = int

  /** The player's accounting: whether playback runs, the three frame
      counters and the two queues of scheduling timestamps. */
  datatype Counters = Counters(
    running: bool,
    scheduled: nat,
    dropped: nat,
    completed: nat,
    cpuQueue: seq<CpuTime>,
    deckLinkQueue: seq<DeckLinkTime>)

  /** What the output answers while one frame is scheduled: whether the frame
      was created and accepted, whether the hardware clock could be read, and
      the two clock readings. */
  datatype ScheduleReply = ScheduleReply(
    frameCreated: bool,
    frameAccepted: bool,
    clockRead: bool,
    cpuNow: CpuTime,
    deckLinkNow: DeckLinkTime)

  /** A schedule divides by the frame size only once it has a frame to fill. */
  predicate ScheduleDefined(s: Counters, prerolling: bool, frameSize: nat, d: ScheduleReply) {
    (prerolling || s.running) && d.frameCreated ==> frameSize > 0
  }

  /** One call of `ScheduleNextFrame`. */
  function ScheduleStep(s: Counters, prerolling: bool, fileSize: nat, frameSize: nat, d: ScheduleReply): Counters
    requires ScheduleDefined(s, prerolling, frameSize, d)
  {
    if !prerolling && !s.running then s
    else if !d.frameCreated then s
    else if s.scheduled < FrameCount(fileSize, frameSize) then
      if !d.frameAccepted then s
      else if !d.clockRead then s.(running := false)
      else s.(scheduled := s.scheduled + 1,
              cpuQueue := s.cpuQueue + [d.cpuNow],
              deckLinkQueue := s.deckLinkQueue + [d.deckLinkNow])
    else s.(running := false)
  }

  /** The preroll: `ScheduleNextFrame(true)` once per reply, in order. */
  function Preroll(s: Counters, fileSize: nat, frameSize: nat, replies: seq<ScheduleReply>): Counters
    requires frameSize > 0
    decreases |replies|
  {
    if |replies| == 0 then s
    else ScheduleStep(Preroll(s, fileSize, frameSize, replies[..|replies| - 1]), true, fileSize, frameSize, replies[|replies| - 1])
  }

  /** How the output reports a completed frame. */
  datatype CompletionResult = Completed | DisplayedLate | Dropped | Flushed | OtherResult(code: int)

  /** The clock readings taken when a frame completes, and whether each succeeded. */
  datatype CompletionReply = CompletionReply(
    clockRead: bool,
    referenceRead: bool,
    cpuNow: CpuTime,
    deckLinkNow: DeckLinkTime,
    referenceTime: DeckLinkTime)

  /** `S_OK`, the error a failed clock read returns, or a `std::runtime_error` thrown. */
  datatype Outcome = Ok | DeviceError | Threw

  /** One line of the completion log, without the two decoded barcodes. */
  datatype LogLine = LogLine(
    index: nat,
    cpuScheduled: CpuTime,
    cpuCompleted: CpuTime,
    deckLinkScheduled: DeckLinkTime,
    deckLinkCompleted: DeckLinkTime,
    deckLinkReference: DeckLinkTime)

  datatype Completion = Completion(next: Counters, outcome: Outcome, line: Option<LogLine>)

  /** An on-time completion reads the front of both queues, and then
      schedules the next frame. */
  predicate CompletionDefined(s: Counters, result: CompletionResult, c: CompletionReply, exiting: bool,
                              frameSize: nat, d: ScheduleReply) {
    c.clockRead && c.referenceRead && !exiting && result == Completed ==>
      |s.cpuQueue| > 0 && |s.deckLinkQueue| > 0 && ScheduleDefined(s, false, frameSize, d)
  }

  /** One call of `ScheduledFrameCompleted`; `d` answers the schedule it ends with. */
  function Complete(s: Counters, result: CompletionResult, c: CompletionReply, exiting: bool,
                    fileSize: nat, frameSize: nat, d: ScheduleReply): Completion
    requires CompletionDefined(s, result, c, exiting, frameSize, d)
  {
    if !c.clockRead || !c.referenceRead then Completion(s, DeviceError, None)
    else if exiting then Completion(s.(completed := s.completed + 1), Ok, None)
    else match result
      case Completed =>
        var line := LogLine(s.completed, s.cpuQueue[0], c.cpuNow, s.deckLinkQueue[0], c.deckLinkNow, c.referenceTime);
        var popped := s.(cpuQueue := s.cpuQueue[1..], deckLinkQueue := s.deckLinkQueue[1..], completed := s.completed + 1);
        Completion(ScheduleStep(popped, false, fileSize, frameSize, d), Ok, Some(line))
      case Dropped => Completion(s.(dropped := s.dropped + 1), Threw, None)
      case _ => Completion(s, Threw, None)
  }

  /** The two queues are pushed and popped together. */
  predicate Balanced(s: Counters) {
    |s.cpuQueue| == |s.deckLinkQueue|
  }

  /** Every frame scheduled is either completed or still waiting in the queues. */
  predicate Accounted(s: Counters) {
    Balanced(s) && |s.cpuQueue| + s.completed == s.scheduled
  }

  /** The queued timestamp pairs, oldest first. */
  function Pending(s: Counters): seq<(CpuTime, DeckLinkTime)>
    requires Balanced(s)
  {
    seq(|s.cpuQueue|, i requires 0 <= i < |s.cpuQueue| => (s.cpuQueue[i], s.deckLinkQueue[i]))
  }

  /** When not prerolling and stopped, a schedule changes nothing. */
  lemma ScheduleWhenStopped(s: Counters, fileSize: nat, frameSize: nat, d: ScheduleReply)
    requires !s.running
    ensures ScheduleStep(s, false, fileSize, frameSize, d) == s
  {
  }

  /** A schedule appends one timestamp to each queue and counts the frame exactly
      when the frame was created, in the file, accepted and timestamped; when the
      file is exhausted it only stops playback; it never touches the other counters. */
  lemma ScheduleEffect(s: Counters, prerolling: bool, fileSize: nat, frameSize: nat, d: ScheduleReply)
    requires ScheduleDefined(s, prerolling, frameSize, d)
    ensures var t := ScheduleStep(s, prerolling, fileSize, frameSize, d);
      t.dropped == s.dropped && t.completed == s.completed &&
      (if (prerolling || s.running) && d.frameCreated && s.scheduled < FrameCount(fileSize, frameSize)
          && d.frameAccepted && d.clockRead
       then t.scheduled == s.scheduled + 1 && t.running == s.running &&
            t.cpuQueue == s.cpuQueue + [d.cpuNow] && t.deckLinkQueue == s.deckLinkQueue + [d.deckLinkNow]
       else t.scheduled == s.scheduled && t.cpuQueue == s.cpuQueue && t.deckLinkQueue == s.deckLinkQueue)
    ensures (prerolling || s.running) && d.frameCreated && s.scheduled >= FrameCount(fileSize, frameSize) ==>
      ScheduleStep(s, prerolling, fileSize, frameSize, d) == s.(running := false)
  {
  }

  /** A schedule keeps the accounting and appends at most the new pair at the back. */
  lemma ScheduleFifo(s: Counters, prerolling: bool, fileSize: nat, frameSize: nat, d: ScheduleReply)
    requires ScheduleDefined(s, prerolling, frameSize, d) && Accounted(s)
    ensures var t := ScheduleStep(s, prerolling, fileSize, frameSize, d);
      Accounted(t) &&
      (Pending(t) == Pending(s) || Pending(t) == Pending(s) + [(d.cpuNow, d.deckLinkNow)])
  {
    var t := ScheduleStep(s, prerolling, fileSize, frameSize, d);
    if t.cpuQueue != s.cpuQueue {
      assert Pending(t) == Pending(s) + [(d.cpuNow, d.deckLinkNow)];
    }
  }

  /** An on-time completion logs the oldest pending pair under the number of
      frames completed so far, drops that pair, counts the completion, and keeps
      the accounting; a completion on exit counts without consuming a pair. */
  lemma CompleteFifo(s: Counters, result: CompletionResult, c: CompletionReply, exiting: bool,
                     fileSize: nat, frameSize: nat, d: ScheduleReply)
    requires CompletionDefined(s, result, c, exiting, frameSize, d) && Accounted(s)
    ensures var r := Complete(s, result, c, exiting, fileSize, frameSize, d);
      r.line.Some? <==> (c.clockRead && c.referenceRead && !exiting && result == Completed)
    ensures var r := Complete(s, result, c, exiting, fileSize, frameSize, d);
      r.line.Some? ==>
        r.outcome == Ok && Accounted(r.next) && r.next.completed == s.completed + 1 &&
        r.line.value.index == s.completed &&
        (r.line.value.cpuScheduled, r.line.value.deckLinkScheduled) == Pending(s)[0] &&
        (Pending(r.next) == Pending(s)[1..] || Pending(r.next) == Pending(s)[1..] + [(d.cpuNow, d.deckLinkNow)])
    ensures var r := Complete(s, result, c, exiting, fileSize, frameSize, d);
      r.line.None? ==> r.next.cpuQueue == s.cpuQueue && r.next.deckLinkQueue == s.deckLinkQueue
  {
    if c.clockRead && c.referenceRead && !exiting && result == Completed {
      var popped := s.(cpuQueue := s.cpuQueue[1..], deckLinkQueue := s.deckLinkQueue[1..], completed := s.completed + 1);
      assert Pending(popped) == Pending(s)[1..];
      ScheduleFifo(popped, false, fileSize, frameSize, d);
    }
  }

  /** A frame can complete on time only while more frames were scheduled than completed. */
  lemma PendingWhileOutstanding(s: Counters)
    requires Accounted(s)
    ensures |s.cpuQueue| > 0 && |s.deckLinkQueue| > 0 <==> s.scheduled > s.completed
  {
  }

  /** The preroll keeps the accounting, leaves the completed and dropped counts,
      and schedules at most one frame per reply. */
  lemma {:induction false} PrerollAccounting(s: Counters, fileSize: nat, frameSize: nat, replies: seq<ScheduleReply>)
    requires frameSize > 0 && Accounted(s)
    ensures var t := Preroll(s, fileSize, frameSize, replies);
      Accounted(t) && t.completed == s.completed && t.dropped == s.dropped &&
      s.scheduled <= t.scheduled <= s.scheduled + |replies|
  {
    if |replies| > 0 {
      var front := replies[..|replies| - 1];
      PrerollAccounting(s, fileSize, frameSize, front);
      var m := Preroll(s, fileSize, frameSize, front);
      ScheduleFifo(m, true, fileSize, frameSize, replies[|replies| - 1]);
      ScheduleEffect(m, true, fileSize, frameSize, replies[|replies| - 1]);
    }
  }

  /** A display mode: frame size and frame rate as `duration / timescale` seconds per frame. */
  datatype DisplayMode = DisplayMode(width: nat, height: nat, duration: int, timescale: int)

  /** The player object: its counters, queues and the current display mode's frame geometry. */
  class Player {
    const fileSize: nat
    var running: bool
    var frameWidth: nat
    var frameHeight: nat
    var frameDuration: int
    var frameTimescale: int
    var framesPerSecond: nat
    var totalFramesScheduled: nat
    var totalFramesDropped: nat
    var totalFramesCompleted: nat
    var scheduledCpu: seq<CpuTime>
    var scheduledDeckLink: seq<DeckLinkTime>

    ghost function State(): Counters
      reads this
    {
      Counters(running, totalFramesScheduled, totalFramesDropped, totalFramesCompleted, scheduledCpu, scheduledDeckLink)
    }

    function CurrentFrameSize(): nat
      reads this
    {
      FrameSize(frameWidth, frameHeight)
    }

    /** A player over an input file of `fileSize` bytes: stopped, every counter 0, both queues empty. */
    constructor (fileSize: nat)
      ensures this.fileSize == fileSize
      ensures State() == Counters(false, 0, 0, 0, [], [])
      ensures frameWidth == 0 && frameHeight == 0 && frameDuration == 0 && frameTimescale == 0 && framesPerSecond == 0
    {
      this.fileSize := fileSize;
      running := false;
      frameWidth, frameHeight := 0, 0;
      frameDuration, frameTimescale := 0, 0;
      framesPerSecond := 0;
      totalFramesScheduled, totalFramesDropped, totalFramesCompleted := 0, 0, 0;
      scheduledCpu, scheduledDeckLink := [], [];
    }

    /** Schedules the next frame of the file; `offset` is where in the file the copied frame starts, if one was read. */
    method ScheduleNextFrame(prerolling: bool, d: ScheduleReply) returns (offset: Option<nat>)
      requires ScheduleDefined(State(), prerolling, CurrentFrameSize(), d)
      modifies this
      ensures frameWidth == old(frameWidth) && frameHeight == old(frameHeight)
      ensures frameDuration == old(frameDuration) && frameTimescale == old(frameTimescale)
      ensures framesPerSecond == old(framesPerSecond)
      ensures State() == ScheduleStep(old(State()), prerolling, fileSize, CurrentFrameSize(), d)
      ensures offset.Some? <==>
        (prerolling || old(running)) && d.frameCreated &&
        old(totalFramesScheduled) < FrameCount(fileSize, CurrentFrameSize())
      ensures offset.Some? ==>
        offset.value == old(totalFramesScheduled) * CurrentFrameSize() &&
        offset.value + CurrentFrameSize() <= fileSize
    {
      offset := None;
      if !prerolling {
        if !running {
          return;
        }
      }
      if !d.frameCreated {
        return;
      }
      var frameSize := FrameSize(frameWidth, frameHeight);
      var frameCount := FrameCount(fileSize, frameSize);
      if totalFramesScheduled < frameCount {
        SliceWithinFile(fileSize, frameSize, totalFramesScheduled);
        offset := Some(totalFramesScheduled * frameSize);
        if !d.frameAccepted {
          return;
        }
        if !d.clockRead {
          running := false;
          return;
        }
        scheduledCpu := scheduledCpu + [d.cpuNow];
        scheduledDeckLink := scheduledDeckLink + [d.deckLinkNow];
        totalFramesScheduled := totalFramesScheduled + 1;
      } else {
        running := false;
      }
    }

    /** The completion callback; `exiting` is the process-wide exit flag and `d` answers the schedule it ends with. */
    method ScheduledFrameCompleted(result: CompletionResult, c: CompletionReply, exiting: bool, d: ScheduleReply)
      returns (outcome: Outcome, line: Option<LogLine>)
      requires CompletionDefined(State(), result, c, exiting, CurrentFrameSize(), d)
      modifies this
      ensures frameWidth == old(frameWidth) && frameHeight == old(frameHeight)
      ensures frameDuration == old(frameDuration) && frameTimescale == old(frameTimescale)
      ensures framesPerSecond == old(framesPerSecond)
      ensures var r := Complete(old(State()), result, c, exiting, fileSize, CurrentFrameSize(), d);
        State() == r.next && outcome == r.outcome && line == r.line
    {
      line := None;
      if !c.clockRead || !c.referenceRead {
        outcome := DeviceError;
        return;
      }
      if exiting {
        totalFramesCompleted := totalFramesCompleted + 1;
        outcome := Ok;
        return;
      }
      match result {
        case Completed =>
          line := Some(LogLine(totalFramesCompleted, scheduledCpu[0], c.cpuNow,
                               scheduledDeckLink[0], c.deckLinkNow, c.referenceTime));
          scheduledCpu := scheduledCpu[1..];
          scheduledDeckLink := scheduledDeckLink[1..];
        case Dropped =>
          totalFramesDropped := totalFramesDropped + 1;
          outcome := Threw;
          return;
        case DisplayedLate =>
          outcome := Threw;
          return;
        case Flushed =>
          outcome := Threw;
          return;
        case OtherResult(_) =>
          outcome := Threw;
          return;
      }
      totalFramesCompleted := totalFramesCompleted + 1;
      var _ := ScheduleNextFrame(false, d);
      outcome := Ok;
    }

    /** Takes the display mode, resets the counters, prerolls `PrerollFrames`
        frames and starts playback; `enabled` says whether the video output
        could be enabled, and `replies` answer the preroll schedules in order.
        `fps` is the rounded-up frame rate, which the code computes and then
        replaces by 60. */
    method StartRunning(mode: DisplayMode, enabled: bool, replies: seq<ScheduleReply>) returns (fps: int)
      requires mode.timescale >= 0 && mode.duration > 0
      requires FrameSize(mode.width, mode.height) > 0
      requires |replies| == PrerollFrames
      modifies this
      ensures frameWidth == mode.width && frameHeight == mode.height
      ensures frameDuration == mode.duration && frameTimescale == mode.timescale
      ensures (fps - 1) * mode.duration < mode.timescale <= fps * mode.duration
      ensures framesPerSecond == PrerollFrames
      ensures State() ==
        if enabled then
          Preroll(old(State()).(scheduled := 0, dropped := 0, completed := 0),
                  fileSize, FrameSize(mode.width, mode.height), replies).(running := true)
        else old(State()).(running := false)
    {
      frameWidth, frameHeight := mode.width, mode.height;
      frameDuration, frameTimescale := mode.duration, mode.timescale;
      fps := FramesPerSecond(frameTimescale, frameDuration);
      framesPerSecond := PrerollFrames;
      if !enabled {
        StopRunning();
        return;
      }
      totalFramesScheduled := 0;
      totalFramesDropped := 0;
      totalFramesCompleted := 0;
      ghost var start := State();
      var i := 0;
      while i < framesPerSecond
        invariant 0 <= i <= framesPerSecond == |replies|
        invariant frameWidth == mode.width && frameHeight == mode.height
        invariant frameDuration == mode.duration && frameTimescale == mode.timescale
        invariant State() == Preroll(start, fileSize, CurrentFrameSize(), replies[..i])
      {
        assert replies[..i + 1][..i] == replies[..i];
        var _ := ScheduleNextFrame(true, replies[i]);
        i := i + 1;
      }
      assert replies[..i] == replies;
      running := true;
    }

    /** Stops playback. */
    method StopRunning()
      modifies this
      ensures frameWidth == old(frameWidth) && frameHeight == old(frameHeight)
      ensures frameDuration == old(frameDuration) && frameTimescale == old(frameTimescale)
      ensures framesPerSecond == old(framesPerSecond)
      ensures State() == old(State()).(running := false)
    {
      running := false;
    }
  }

  /** Prerolling from empty queues leaves every scheduled frame pending, at most `PrerollFrames` of them. */
  lemma StartFromEmpty(s: Counters, fileSize: nat, frameSize: nat, replies: seq<ScheduleReply>)
    requires frameSize > 0 && s.cpuQueue == [] && s.deckLinkQueue == [] && |replies| == PrerollFrames
    ensures var t := Preroll(s.(scheduled := 0, dropped := 0, completed := 0), fileSize, frameSize, replies);
      Accounted(t) && t.completed == 0 && t.dropped == 0 && t.scheduled <= PrerollFrames &&
      |t.cpuQueue| == t.scheduled
  {
    PrerollAccounting(s.(scheduled := 0, dropped := 0, completed := 0), fileSize, frameSize, replies);
  }
}
