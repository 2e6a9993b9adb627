/**
 * The response bookkeeping of Assets/Scripts/ScreenDrawing.cs: key presses
 * during a presentation are recorded as responses, the first response
 * recorded after the presentation started (or "not seen") is sent back as
 * five bytes, and the stimulus level is clamped to a percentage. Times are
 * whole milliseconds; a frame is the clock reading Unity gives all scripts
 * in that frame and whether any key went down in it.
 */
module ScreenDrawing {
  import opened Options
  import opened Wire
  import opened OpiDefinitions

  /** One rendered frame: `Time.time` in milliseconds and `Input.anyKeyDown`. */
  datatype Frame = Frame(time: int, keyDown: bool)

  /**
   * The `(int)` cast of a float: values outside the `int` range give
   * `int.MinValue`, the result x86 and x64 processors produce.
   */
  function ToInt32(x: int): (r: int32)
    ensures -0x8000_0000 <= x < 0x8000_0000 ==> r == x
  {
    if -0x8000_0000 <= x < 0x8000_0000 then x else -0x8000_0000
  }

  // ---------------------------------------------------------------------------
  // The reply
  // ---------------------------------------------------------------------------

  /** The reply to a presentation: `GetBytes(Seen)` followed by `GetBytes(Time)`. */
  function EncodeResponse(r: Response): (bs: seq<byte>)
    ensures |bs| == 5
  {
    EncodeBool(r.seen) + EncodeInt32(r.time)
  }

  /** How a client reads the reply: a bool byte and a little-endian int32. */
  function DecodeResponse(bs: seq<byte>): Response
    requires |bs| == 5
  {
    Response(DecodeBool(bs[0]), DecodeInt32(bs[1..]))
  }

  /** Decoding a reply gives back the response that was sent. */
  lemma ResponseRoundTrip(r: Response)
    ensures DecodeResponse(EncodeResponse(r)) == r
  {
    var bs := EncodeResponse(r);
    assert bs[1..] == EncodeInt32(r.time);
    Int32RoundTrip(r.time);
  }

  /** Two responses with the same reply are the same response. */
  lemma EncodeResponseInjective(r1: Response, r2: Response)
    requires EncodeResponse(r1) == EncodeResponse(r2)
    ensures r1 == r2
  {
    ResponseRoundTrip(r1);
    ResponseRoundTrip(r2);
  }

  // ---------------------------------------------------------------------------
  // Responses recorded from key presses
  // ---------------------------------------------------------------------------

  /** The responses key presses record, one per frame with a key down, in frame order. */
  function Presses(start: int, frames: seq<Frame>): (rs: seq<Response>)
    ensures |rs| <= |frames|
    ensures forall k :: 0 <= k < |rs| ==> rs[k].seen
  {
    if frames == [] then []
    else
      var last := frames[|frames| - 1];
      Presses(start, frames[..|frames| - 1])
        + (if last.keyDown then [Response(true, ToInt32(last.time - start))] else [])
  }

  /** One frame further, a press in that frame is recorded after the earlier ones. */
  lemma PressesPrefix(start: int, frames: seq<Frame>, i: nat)
    requires i < |frames|
    ensures Presses(start, frames[..i + 1]) == Presses(start, frames[..i])
              + (if frames[i].keyDown then [Response(true, ToInt32(frames[i].time - start))] else [])
  {
    assert frames[..i + 1][..i] == frames[..i];
  }

  /** The response a presentation reports: the first press recorded, or "not seen". */
  function FirstResponse(start: int, frames: seq<Frame>): Response {
    var rs := Presses(start, frames);
    if rs == [] then NotSeen else rs[0]
  }

  /**
   * After the presses of a presentation, and "not seen" when there were
   * none, are appended to earlier responses, the first new one is the
   * response the presentation reports.
   */
  lemma FirstRecorded(before: seq<Response>, start: int, frames: seq<Frame>)
    ensures var presses := Presses(start, frames);
            (before + presses + (if presses == [] then [NotSeen] else []))[|before|] == FirstResponse(start, frames)
  {
  }

  /** No press is recorded exactly when no frame has a key down. */
  lemma {:induction false} PressesEmpty(start: int, frames: seq<Frame>)
    ensures Presses(start, frames) == [] <==> forall k :: 0 <= k < |frames| ==> !frames[k].keyDown
    decreases |frames|
  {
    if frames != [] {
      var init := frames[..|frames| - 1];
      PressesEmpty(start, init);
      assert forall k :: 0 <= k < |init| ==> init[k] == frames[k];
    }
  }

  /**
   * The reported response is that of the earliest frame with a key down,
   * not the latest: its time is measured from the start of the presentation.
   */
  lemma {:induction false} FirstResponseIsEarliest(start: int, frames: seq<Frame>, k: nat)
    requires k < |frames| && frames[k].keyDown
    requires forall j :: 0 <= j < k ==> !frames[j].keyDown
    ensures FirstResponse(start, frames) == Response(true, ToInt32(frames[k].time - start))
    decreases |frames|
  {
    var init := frames[..|frames| - 1];
    if k < |init| {
      FirstResponseIsEarliest(start, init, k);
      assert Presses(start, init) != [];
    } else {
      PressesEmpty(start, init);
    }
  }

  // ---------------------------------------------------------------------------
  // The post-stimulus wait
  // ---------------------------------------------------------------------------

  /** C# `int` subtraction: the exact difference wrapped into the `int` range. */
  function Wrap32(x: int): (r: int32)
    ensures -0x8000_0000 <= x < 0x8000_0000 ==> r == x
  {
    (x + 0x8000_0000) % TwoTo32 - 0x8000_0000
  }

  /** C# `int` division by a positive divisor: the quotient truncated toward zero. */
  function TruncDiv(a: int, b: int): (q: int)
    requires b > 0
    ensures 0 <= a ==> 0 <= a - q * b < b
    ensures a < 0 ==> -b < a - q * b <= 0
  {
    if a >= 0 then a / b else -((-a) / b)
  }

  /**
   * The wait after the stimulus as `PresentCoroutine` computes it, in
   * milliseconds: `(ResponseWindow - Duration) / 1000` divides two `int`s,
   * so the quotient is truncated to whole seconds before it becomes a float,
   * and a negative wait becomes 0.
   */
  function WaitAsWritten(s: StaticStimulus): int {
    var seconds := TruncDiv(Wrap32(s.responseWindow - s.duration), 1000);
    if seconds < 0 then 0 else 1000 * seconds
  }

  /** The wait as written is always a whole number of seconds. */
  lemma WaitAsWrittenWholeSeconds(s: StaticStimulus)
    ensures WaitAsWritten(s) >= 0 && WaitAsWritten(s) % 1000 == 0
  {
  }

  /** A 200 ms stimulus with a 1000 ms response window gets no wait at all instead of 800 ms. */
  lemma WaitAsWrittenDropsSubSecondWait()
    ensures var s := StaticStimulus(Both, 0.0, 0.0, 0.0, 0.0, Color(1.0, 1.0, 1.0, 1.0), 200, 1000);
            WaitAsWritten(s) == 0 && ResponseWait(s) == 800
  {
  }

  /** The wait after the stimulus: the rest of the response window, in milliseconds, and never negative. */
  function ResponseWait(s: StaticStimulus): (ms: nat) {
    if s.responseWindow > s.duration then s.responseWindow - s.duration else 0
  }

  /**
   * The stimulus and the wait after it together last exactly the response
   * window, or the stimulus alone when it is longer.
   */
  lemma ResponseWaitCoversWindow(s: StaticStimulus)
    ensures s.duration + ResponseWait(s) == if s.responseWindow > s.duration then s.responseWindow else s.duration
    ensures s.duration >= 0 ==> ResponseWait(s) <= WaitAsWritten(s) + 999
  {
    var d := s.responseWindow - s.duration;
    if d > 0 && s.duration >= 0 {
      assert Wrap32(d) == d;
      assert TruncDiv(d, 1000) == d / 1000;
    }
  }

  /**
   * When the `int` subtraction does not wrap, truncation only shortens the
   * wait: the written wait never exceeds the intended one.
   */
  lemma WaitAsWrittenNeverLonger(s: StaticStimulus)
    requires -0x8000_0000 <= s.responseWindow - s.duration < 0x8000_0000
    ensures WaitAsWritten(s) <= ResponseWait(s)
  {
    var d := s.responseWindow - s.duration;
    assert Wrap32(d) == d;
    if d >= 0 {
      assert TruncDiv(d, 1000) == d / 1000;
    } else {
      assert TruncDiv(d, 1000) <= 0;
    }
  }

  // ---------------------------------------------------------------------------
  // SetLevel
  // ---------------------------------------------------------------------------

  /** `SetLevel`'s clamp: levels above 100 become 100, levels below 0 become 0. */
  function ClampLevel(percent: real): (r: real)
    ensures 0.0 <= r <= 100.0
    ensures 0.0 <= percent <= 100.0 ==> r == percent
    ensures percent > 100.0 ==> r == 100.0
    ensures percent < 0.0 ==> r == 0.0
  {
    if percent > 100.0 then 100.0 else if percent < 0.0 then 0.0 else percent
  }

  /** Clamping twice is clamping once, and the clamp keeps the order of levels. */
  lemma ClampLevelIdempotentMonotone(a: real, b: real)
    ensures ClampLevel(ClampLevel(a)) == ClampLevel(a)
    ensures a <= b ==> ClampLevel(a) <= ClampLevel(b)
  {
  }

  // ---------------------------------------------------------------------------
  // The drawing component
  // ---------------------------------------------------------------------------

  /** Unity's clock never runs backwards from one frame to the next. */
  ghost predicate ClockRuns(frames: seq<Frame>) {
    forall i, j :: 0 <= i <= j < |frames| ==> frames[i].time <= frames[j].time
  }

  class Drawing {
    /** `Responses`: every response ever recorded, oldest first. */
    var responses: seq<Response>
    /** `NumberOfResponses`: how many responses there were when the current presentation started. */
    var numberOfResponses: int
    /** `PresentationStartTime`, in milliseconds. */
    var presentationStartTime: int
    /** `OnKeyPressed` is registered on the key-press event. */
    var listening: bool

    constructor ()
      ensures responses == [] && numberOfResponses == 0 && presentationStartTime == 0 && !listening
    {
      responses, numberOfResponses, presentationStartTime, listening := [], 0, 0, false;
    }

    /** `OnKeyPressed`: records a seen response timed from the start of the presentation. */
    method OnKeyPressed(time: int)
      modifies this`responses
      ensures responses == old(responses) + [Response(true, ToInt32(time - presentationStartTime))]
    {
      responses := responses + [Response(true, ToInt32(time - presentationStartTime))];
    }

    /** `Update`: a key press in the frame is passed to the listener, if one is registered. */
    method Update(frame: Frame)
      modifies this`responses
      ensures responses == old(responses) +
                if frame.keyDown && listening then [Response(true, ToInt32(frame.time - presentationStartTime))] else []
    {
      if frame.keyDown && listening {
        OnKeyPressed(frame.time);
      }
    }

    /**
     * The frames of a presentation after its start: the stimulus stays up
     * until its duration has passed, then the coroutine waits, frame by
     * frame, until a response has been recorded or the wait after the
     * stimulus is over. A key press in a frame is recorded before the
     * coroutine looks at that frame. `finished` is false when the frames
     * end first.
     */
    method Watch(stimulus: StaticStimulus, frames: seq<Frame>) returns (finished: bool, consumed: nat)
      requires ClockRuns(frames) && listening
      modifies this`responses
      ensures consumed <= |frames|
      ensures responses == old(responses) + Presses(presentationStartTime, frames[..consumed])
      ensures !finished ==> consumed == |frames|
      ensures finished ==> consumed >= 1 && frames[consumed - 1].time - presentationStartTime >= stimulus.duration
      ensures finished && |responses| == numberOfResponses ==>
                frames[consumed - 1].time - presentationStartTime >= stimulus.duration + ResponseWait(stimulus)
    {
      var wait := ResponseWait(stimulus);
      var start := presentationStartTime;
      ghost var before := responses;
      var shown := true;        // waiting out WaitForSeconds(duration)
      var windowStart := 0;     // `startTime`, once the stimulus is hidden
      finished := false;
      consumed := 0;
      while consumed < |frames| && !finished
        invariant consumed <= |frames|
        invariant responses == before + Presses(start, frames[..consumed])
        invariant !shown ==> windowStart - start >= stimulus.duration
        invariant !shown ==> consumed >= 1 && windowStart <= frames[consumed - 1].time
        invariant finished ==> !shown && consumed >= 1 && frames[consumed - 1].time - start >= stimulus.duration
        invariant finished && |responses| == numberOfResponses ==> frames[consumed - 1].time - windowStart >= wait
      {
        var frame := frames[consumed];
        Update(frame);
        PressesPrefix(start, frames, consumed);
        if shown {
          if frame.time - start >= stimulus.duration {
            shown := false;
            windowStart := frame.time;
            finished := !(|responses| == numberOfResponses && frame.time - windowStart < wait);
          }
        } else {
          finished := !(|responses| == numberOfResponses && frame.time - windowStart < wait);
        }
        consumed := consumed + 1;
      }
    }

    /**
     * `PresentCoroutine` for a stimulus shown at time `start`, over the
     * frames that follow: it records the response count and start time,
     * starts listening, watches the frames, stops listening, records "not
     * seen" if no press came, and replies with the first response recorded
     * since the start. `reply` is None when the frames end before the
     * coroutine does; `consumed` is the number of frames it ran for.
     */
    method PresentCoroutine(stimulus: StaticStimulus, start: int, frames: seq<Frame>)
      returns (reply: Option<seq<byte>>, consumed: nat)
      requires ClockRuns(frames)
      modifies this
      ensures numberOfResponses == |old(responses)| && presentationStartTime == start
      ensures consumed <= |frames|
      ensures reply.None? ==> consumed == |frames| && listening
      ensures reply.None? ==> responses == old(responses) + Presses(start, frames)
      ensures reply.Some? ==> !listening && consumed >= 1 && frames[consumed - 1].time - start >= stimulus.duration
      ensures reply.Some? ==>
                var presses := Presses(start, frames[..consumed]);
                responses == old(responses) + presses + (if presses == [] then [NotSeen] else [])
      ensures reply.Some? ==>
                && |responses| > numberOfResponses
                && responses[numberOfResponses] == FirstResponse(start, frames[..consumed])
                && reply.value == EncodeResponse(responses[numberOfResponses])
      ensures reply.Some? && responses[numberOfResponses] == NotSeen ==>
                frames[consumed - 1].time - start >= stimulus.duration + ResponseWait(stimulus)
    {
      ghost var before := responses;
      numberOfResponses := |responses|;
      presentationStartTime := start;
      listening := true;
      var finished;
      finished, consumed := Watch(stimulus, frames);
      if !finished {
        assert frames[..consumed] == frames;
        reply := None;
        return;
      }
      listening := false;
      if |responses| == numberOfResponses {
        responses := responses + [NotSeen];
      }
      FirstRecorded(before, start, frames[..consumed]);
      reply := Some(EncodeResponse(responses[numberOfResponses]));
    }
  }
}
