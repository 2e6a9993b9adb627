/**
 * The OPI command layer of Assets/Scripts/InputProcessing.cs: the per-frame
 * drain of the server's message queue, the keyword dispatch and the four
 * handlers. A handler's observable behaviour is an `Outcome`: the message is
 * not recognized, an exception escapes (`Fault`), or the handler runs and
 * produces effects in order. Writes are performed on the server by `Update`;
 * the other effects belong to code outside this model and are returned.
 */
module InputProcessing {
  import opened Options
  import opened OpiText
  import opened Wire
  import opened OpiDefinitions
  import TcpServer

  datatype Command = QueryDevice | SetBackground | Present | Close

  /** The keyword table, in the order it is scanned. */
  const Keywords: seq<string> := ["OPI_QUERY_DEVICE", "OPI_SET_BGROUND", "OPI_PRESENT", "OPI_CLOSE"]

  /** The handler each keyword names. */
  const Commands: seq<Command> := [QueryDevice, SetBackground, Present, Close]

  datatype Effect =
    | Write(bytes: seq<byte>)
      /** `Draw.SetBackground`, queued to run on the main thread. */
    | ScheduleBackground(color: Color, fixation: FixationPoint, eye: Eye)
      /** `Draw.Present`, which starts the presentation coroutine. */
    | PresentStimulus(stimulus: StaticStimulus)
      /** `Main.Shutdown()`. */
    | Shutdown

  datatype Outcome =
    | Unrecognized
      /** An exception escaped the handler, and with it `Update`. */
    | Fault
    | Handled(effects: seq<Effect>)

  /** The handler selected for a message: the first keyword of the table it contains. */
  function Select(message: string): Option<Command> {
    match FirstMatch(Keywords, message)
    case None => None
    case Some(k) => Some(Commands[k])
  }

  /** Command `k` is selected exactly when keyword `k` occurs and no earlier keyword does. */
  lemma SelectIs(message: string, k: nat)
    requires k < |Keywords|
    ensures Select(message) == Some(Commands[k]) <==>
              Contains(message, Keywords[k]) && forall j :: 0 <= j < k ==> !Contains(message, Keywords[j])
  {
    FirstMatchIs(Keywords, message, k);
    if Select(message) == Some(Commands[k]) {
      var i := FirstMatch(Keywords, message).value;
      assert Commands[i] == Commands[k];
      assert i == k;
    }
  }

  /** The bare keyword `OPI_CLOSE` selects the close handler. */
  lemma CloseKeywordSelectsClose()
    ensures Select("OPI_CLOSE") == Some(Close)
  {
    LongerNeverContained("OPI_CLOSE", Keywords[0]);
    LongerNeverContained("OPI_CLOSE", Keywords[1]);
    LongerNeverContained("OPI_CLOSE", Keywords[2]);
    ContainsSelf("OPI_CLOSE");
    SelectIs("OPI_CLOSE", 3);
  }

  /** `message.Trim().Split(' ').Skip(1)`: the space-separated tokens after the keyword token. */
  function Parameters(message: string): (ps: seq<string>)
    ensures forall k :: 0 <= k < |ps| ==> ' ' !in ps[k]
  {
    Split(Trim(message), ' ')[1..]
  }

  /** There is one parameter per space in the trimmed message. */
  lemma ParameterCount(message: string)
    ensures |Parameters(message)| == Count(Trim(message), ' ')
  {
    SplitCount(Trim(message), ' ');
  }

  /** The keyword token and the parameters, joined by single spaces, give back the trimmed message. */
  lemma ParametersRebuild(message: string)
    ensures Join([Split(Trim(message), ' ')[0]] + Parameters(message), ' ') == Trim(message)
  {
    var parts := Split(Trim(message), ' ');
    assert [parts[0]] + parts[1..] == parts;
    JoinSplit(Trim(message), ' ');
  }

  /** `OPI_QUERY_DEVICE`: replies whether a client is connected. */
  function QueryDeviceHandler(connected: bool): Outcome {
    Handled([Write(EncodeBool(connected))])
  }

  /** The background arguments are accepted: exactly 16 parameters and every conversion succeeds. */
  predicate BackgroundAccepted(ps: seq<string>, p: Parsers)
    requires |ps| >= 16
  {
    && |ps| == 16
    && p.fixation(ps[..10]).error == []
    && p.alpha(ps[10]).ok
    && p.color(ps[11..15]).ok
    && p.eye(ps[15]).ok
  }

  // The error texts the handlers log; only whether they are empty matters.
  const BackgroundCountError: string := "Not the correct number of parameters for OPI_SET_BGROUND."
  const BackgroundAlphaError: string := "Parameter for OPI_SET_BGROUND Background Alpha was invalid."
  const BackgroundColorError: string := "Parameters for OPI_SET_BGROUND Color were invalid."
  const BackgroundEyeError: string := "Parameter for OPI_SET_BGROUND Eye was invalid."
  const PresentCountError: string := "Not the correct number of parameters for OPI_PRESENT."

  /** `OPI_SET_BGROUND` on a message: the handler below applied to the message's parameters. */
  function SetBackgroundHandler(message: string, p: Parsers): Outcome {
    SetBackgroundOn(Parameters(message), p)
  }

  /**
   * The body of `OPI_SET_BGROUND` once the parameters are split off: the
   * error text accumulates a count error, the fixation factory's error and
   * the alpha, colour and eye conversion errors, in that order; each slice
   * of the parameters is taken where the handler takes it, and a slice past
   * the end throws.
   */
  function SetBackgroundOn(ps: seq<string>, p: Parsers): (o: Outcome)
    ensures o.Fault? <==> |ps| < 16
    ensures o.Handled? ==> Reply(o) == Some(EncodeBool(BackgroundAccepted(ps, p)))
    ensures o.Handled? && BackgroundAccepted(ps, p) ==>
              o.effects == [ScheduleBackground(p.color(ps[11..15]).value, p.fixation(ps[..10]).value, p.eye(ps[15]).value),
                            Write(EncodeBool(true))]
    ensures o.Handled? && !BackgroundAccepted(ps, p) ==> o.effects == [Write(EncodeBool(false))]
  {
    var countError := if |ps| != 16 then BackgroundCountError else [];
    // Array.Copy of the ten fixation parameters
    if |ps| < 10 then Fault
    else
      var fixation := p.fixation(ps[..10]);
      // parameters[10]
      if |ps| < 11 then Fault
      else
        var alpha := p.alpha(ps[10]);
        // Array.Copy of the four colour parameters from index 11
        if |ps| < 15 then Fault
        else
          var color := p.color(ps[11..15]);
          // parameters[15]
          if |ps| < 16 then Fault
          else
            var eye := p.eye(ps[15]);
            var errorMessage := countError + fixation.error
              + (if alpha.ok then [] else BackgroundAlphaError)
              + (if color.ok then [] else BackgroundColorError)
              + (if eye.ok then [] else BackgroundEyeError);
            if errorMessage != [] then Handled([Write(EncodeBool(false))])
            else Handled([ScheduleBackground(color.value, fixation.value, eye.value), Write(EncodeBool(true))])
  }

  /** The reply to a failed present: int32 0 followed by int32 3. */
  function PresentErrorReply(): (bs: seq<byte>)
    ensures |bs| == 8 && DecodeInt32(bs[..4]) == 0 && DecodeInt32(bs[4..]) == 3
  {
    Int32RoundTrip(0);
    Int32RoundTrip(3);
    EncodeInt32(0) + EncodeInt32(3)
  }

  /** The present arguments are accepted: exactly 11 parameters and the stimulus factory reports no error. */
  predicate PresentAccepted(ps: seq<string>, p: Parsers) {
    |ps| == 11 && p.stimulus(ps).error == []
  }

  /** `OPI_PRESENT` on a message: the handler below applied to the message's parameters. */
  function PresentHandler(message: string, p: Parsers): Outcome {
    PresentOn(Parameters(message), p)
  }

  /**
   * The body of `OPI_PRESENT` once the parameters are split off: the error
   * text is a count error followed by the stimulus factory's error; on error
   * the 8-byte error reply is written, otherwise the stimulus is presented
   * and nothing is written here.
   */
  function PresentOn(ps: seq<string>, p: Parsers): (o: Outcome)
    ensures o.Handled?
    ensures !PresentAccepted(ps, p) <==> Reply(o) == Some(PresentErrorReply())
    ensures PresentAccepted(ps, p) <==> o.effects == [PresentStimulus(p.stimulus(ps).value)]
  {
    var errorMessage := (if |ps| != 11 then PresentCountError else []) + p.stimulus(ps).error;
    if errorMessage != [] then Handled([Write(PresentErrorReply())])
    else Handled([PresentStimulus(p.stimulus(ps).value)])
  }

  // ---------------------------------------------------------------------------
  // The colour conversion the handlers call
  // ---------------------------------------------------------------------------

  /** The handlers' colour conversion is `Conversions.ToColor` as written. */
  ghost predicate ColorAsWritten(p: Parsers, named: string -> Option<Color>, rgb: string -> Option<real>) {
    forall cs :: p.color(cs) == ToColorAsWritten(cs, named, rgb)
  }

  /** `CreateStaticStimulus` reports an error when parameters 7 to 10 do not convert to a colour. */
  ghost predicate StimulusChecksColor(p: Parsers) {
    forall ps :: |ps| == 11 && !p.color(ps[7..11]).ok ==> p.stimulus(ps).error != []
  }

  /**
   * Both handlers hand the colour conversion four strings, which `ToColor`
   * as written never accepts: `OPI_SET_BGROUND` then replies false (or
   * throws) and `OPI_PRESENT` writes the error reply, for every message.
   */
  lemma ColorAsWrittenRejectsEveryRequest(message: string, p: Parsers,
                                          named: string -> Option<Color>, rgb: string -> Option<real>)
    requires ColorAsWritten(p, named, rgb) && StimulusChecksColor(p)
    ensures SetBackgroundHandler(message, p).Fault?
            || SetBackgroundHandler(message, p) == Handled([Write(EncodeBool(false))])
    ensures PresentHandler(message, p) == Handled([Write(PresentErrorReply())])
  {
    var ps := Parameters(message);
    if |ps| >= 16 {
      assert p.color(ps[11..15]) == ToColorAsWritten(ps[11..15], named, rgb);
      assert !BackgroundAccepted(ps, p);
    }
    if |ps| == 11 {
      assert p.color(ps[7..11]) == ToColorAsWritten(ps[7..11], named, rgb);
    }
    assert !PresentAccepted(ps, p);
  }

  /**
   * With conversions that accept the arguments, as the parameter layout
   * documents them (a colour name and three RGB values), the background is
   * set and true is replied, and the stimulus is presented.
   */
  lemma ConvertibleArgumentsAccepted(ps: seq<string>, p: Parsers)
    ensures |ps| == 16 && p.fixation(ps[..10]).error == [] && p.alpha(ps[10]).ok
            && p.color(ps[11..15]).ok && p.eye(ps[15]).ok ==>
              SetBackgroundOn(ps, p) ==
                Handled([ScheduleBackground(p.color(ps[11..15]).value, p.fixation(ps[..10]).value, p.eye(ps[15]).value),
                         Write(EncodeBool(true))])
    ensures |ps| == 11 && p.stimulus(ps).error == [] ==>
              PresentOn(ps, p) == Handled([PresentStimulus(p.stimulus(ps).value)])
  {
  }

  /** `OPI_CLOSE`: replies true, then shuts down. */
  function CloseHandler(): Outcome {
    Handled([Write(EncodeBool(true)), Shutdown])
  }

  /** `ProcessMessage`: selects the handler and runs it on the whole message. */
  function ProcessMessage(message: string, connected: bool, p: Parsers): Outcome {
    match Select(message)
    case None => Unrecognized
    case Some(QueryDevice) => QueryDeviceHandler(connected)
    case Some(SetBackground) => SetBackgroundHandler(message, p)
    case Some(Present) => PresentHandler(message, p)
    case Some(Close) => CloseHandler()
  }

  /** No handler is selected exactly when the message contains no keyword of the table. */
  lemma SelectNone(message: string)
    ensures Select(message).None? <==> forall k :: 0 <= k < |Keywords| ==> !Contains(message, Keywords[k])
  {
    FirstMatchSpec(Keywords, message);
  }

  /** A message is left unhandled, with nothing written, exactly when it contains no keyword of the table. */
  lemma UnrecognizedIffNoKeyword(message: string, connected: bool, p: Parsers)
    ensures ProcessMessage(message, connected, p).Unrecognized? <==>
              forall k :: 0 <= k < |Keywords| ==> !Contains(message, Keywords[k])
  {
    SelectNone(message);
    UnrecognizedIffNotSelected(message, connected, p);
  }

  /** Only an unselected message is left unhandled: every handler handles or throws. */
  lemma UnrecognizedIffNotSelected(message: string, connected: bool, p: Parsers)
    ensures ProcessMessage(message, connected, p).Unrecognized? <==> Select(message).None?
  {
    var o := ProcessMessage(message, connected, p);
    match Select(message)
    case None =>
    case Some(QueryDevice) => assert o == QueryDeviceHandler(connected);
    case Some(SetBackground) => assert o == SetBackgroundHandler(message, p);
    case Some(Present) => assert o == PresentHandler(message, p);
    case Some(Close) => assert o == CloseHandler();
  }

  /**
   * What each handler does: `OPI_QUERY_DEVICE` writes one bool, whether a
   * client is connected, and nothing else; `OPI_CLOSE` writes true before
   * shutting down; the other two run on the message's parameters.
   */
  lemma Dispatch(message: string, connected: bool, p: Parsers)
    ensures var o := ProcessMessage(message, connected, p);
            && (Select(message) == Some(QueryDevice) ==> o.Handled? && o.effects == [Write(EncodeBool(connected))])
            && (Select(message) == Some(Close) ==> o.Handled? && o.effects == [Write(EncodeBool(true)), Shutdown])
            && (Select(message) == Some(SetBackground) ==> o == SetBackgroundOn(Parameters(message), p))
            && (Select(message) == Some(Present) ==> o == PresentOn(Parameters(message), p))
  {
    var o := ProcessMessage(message, connected, p);
    match Select(message)
    case None =>
    case Some(QueryDevice) => assert o == QueryDeviceHandler(connected);
    case Some(SetBackground) => assert o == SetBackgroundHandler(message, p);
    case Some(Present) => assert o == PresentHandler(message, p);
    case Some(Close) => assert o == CloseHandler();
  }

  /** The number of writes among some effects. */
  function WriteCount(effects: seq<Effect>): (n: nat)
    ensures n <= |effects|
  {
    if effects == [] then 0 else (if effects[0].Write? then 1 else 0) + WriteCount(effects[1..])
  }

  /** The bytes an outcome writes: those of its first write, if it has one. */
  function Reply(o: Outcome): (r: Option<seq<byte>>)
    ensures r.Some? ==> o.Handled? && exists k :: 0 <= k < |o.effects| && o.effects[k] == Write(r.value)
    ensures o.Handled? && WriteCount(o.effects) > 0 ==> r.Some?
  {
    if o.Handled? then FirstWrite(o.effects) else None
  }

  function FirstWrite(effects: seq<Effect>): (r: Option<seq<byte>>)
    ensures r.Some? ==> exists k :: 0 <= k < |effects| && effects[k] == Write(r.value)
    ensures r.None? <==> WriteCount(effects) == 0
  {
    if effects == [] then None
    else if effects[0].Write? then Some(effects[0].bytes)
    else
      var r := FirstWrite(effects[1..]);
      if r.Some? then
        ghost var k :| 0 <= k < |effects[1..]| && effects[1..][k] == Write(r.value);
        assert effects[k + 1] == Write(r.value);
        r
      else r
  }

  /** One write followed by effects that write nothing. */
  lemma WriteCountSingle(bytes: seq<byte>, rest: seq<Effect>)
    requires forall k :: 0 <= k < |rest| ==> !rest[k].Write?
    ensures WriteCount([Write(bytes)] + rest) == 1
    ensures WriteCount(rest + [Write(bytes)]) == 1
  {
    NoWrites(rest);
    assert ([Write(bytes)] + rest)[1..] == rest;
    WriteCountAppend(rest, [Write(bytes)]);
    assert [Write(bytes)][1..] == [];
  }

  lemma {:induction false} NoWrites(effects: seq<Effect>)
    requires forall k :: 0 <= k < |effects| ==> !effects[k].Write?
    ensures WriteCount(effects) == 0
  {
    if effects != [] {
      NoWrites(effects[1..]);
    }
  }

  lemma {:induction false} WriteCountAppend(a: seq<Effect>, b: seq<Effect>)
    ensures WriteCount(a + b) == WriteCount(a) + WriteCount(b)
  {
    if a == [] {
      assert a + b == b;
    } else {
      WriteCountAppend(a[1..], b);
      assert (a + b)[1..] == a[1..] + b;
    }
  }

  /** `OPI_SET_BGROUND`, when it does not throw, writes exactly once. */
  lemma SetBackgroundWritesOnce(ps: seq<string>, p: Parsers)
    ensures var o := SetBackgroundOn(ps, p); o.Handled? ==> WriteCount(o.effects) == 1
  {
    var o := SetBackgroundOn(ps, p);
    if o.Handled? {
      if BackgroundAccepted(ps, p) {
        var e := ScheduleBackground(p.color(ps[11..15]).value, p.fixation(ps[..10]).value, p.eye(ps[15]).value);
        WriteCountSingle(EncodeBool(true), [e]);
        assert [e] + [Write(EncodeBool(true))] == o.effects;
      } else {
        WriteCountSingle(EncodeBool(false), []);
        assert [Write(EncodeBool(false))] + [] == o.effects;
      }
    }
  }

  /** `OPI_PRESENT` writes once on error and not at all on success. */
  lemma PresentWrites(ps: seq<string>, p: Parsers)
    ensures WriteCount(PresentOn(ps, p).effects) == if PresentAccepted(ps, p) then 0 else 1
  {
    var o := PresentOn(ps, p);
    if PresentAccepted(ps, p) {
      NoWrites(o.effects);
    } else {
      WriteCountSingle(PresentErrorReply(), []);
      assert [Write(PresentErrorReply())] + [] == o.effects;
    }
  }

  /**
   * Every message is answered by at most one write, and a recognized one by
   * exactly one unless it is a successful present, whose reply comes from
   * the presentation.
   */
  lemma AtMostOneReply(message: string, connected: bool, p: Parsers)
    ensures var o := ProcessMessage(message, connected, p);
            o.Handled? ==> WriteCount(o.effects) <= 1
    ensures var o := ProcessMessage(message, connected, p);
            o.Handled? ==> (WriteCount(o.effects) == 0 <==>
                            Select(message) == Some(Present) && PresentAccepted(Parameters(message), p))
  {
    Dispatch(message, connected, p);
    match Select(message)
    case None =>
    case Some(QueryDevice) =>
      WriteCountSingle(EncodeBool(connected), []);
      assert [Write(EncodeBool(connected))] + [] == [Write(EncodeBool(connected))];
    case Some(Close) =>
      WriteCountSingle(EncodeBool(true), [Shutdown]);
    case Some(SetBackground) =>
      SetBackgroundWritesOnce(Parameters(message), p);
    case Some(Present) =>
      PresentWrites(Parameters(message), p);
  }

  /** The replies that some outcomes write, in order. */
  function Replies(outcomes: seq<Outcome>): (rs: seq<seq<byte>>)
    ensures |rs| <= |outcomes|
  {
    if outcomes == [] then []
    else
      var last := outcomes[|outcomes| - 1];
      Replies(outcomes[..|outcomes| - 1]) + ReplySeq(last)
  }

  /** What one outcome adds to the replies. */
  function ReplySeq(o: Outcome): (rs: seq<seq<byte>>)
    ensures |rs| <= 1
  {
    if Reply(o).Some? then [Reply(o).value] else []
  }

  lemma RepliesSnoc(outcomes: seq<Outcome>, o: Outcome)
    ensures Replies(outcomes + [o]) == Replies(outcomes) + ReplySeq(o)
  {
    assert (outcomes + [o])[..|outcomes|] == outcomes;
  }

  /** The outcomes of processing some messages one after the other. */
  function ProcessAll(messages: seq<string>, connected: bool, p: Parsers): (os: seq<Outcome>)
    ensures |os| == |messages|
  {
    if messages == [] then []
    else ProcessAll(messages[..|messages| - 1], connected, p) + [ProcessMessage(messages[|messages| - 1], connected, p)]
  }

  /**
   * Where a pass of `Update` stands: `i` messages processed without fault,
   * plus the faulting one when `faulted`; the outcomes are those of the
   * first messages of the queue, in order.
   */
  ghost predicate Drained(queued: seq<string>, outcomes: seq<Outcome>, i: nat, faulted: bool, connected: bool, p: Parsers) {
    && |outcomes| == (if faulted then i + 1 else i)
    && 2 * i <= |queued| + 1 && |outcomes| <= |queued|
    && outcomes == ProcessAll(queued[..|outcomes|], connected, p)
    && (forall j :: 0 <= j < i ==> !outcomes[j].Fault?)
    && (faulted ==> outcomes[i].Fault?)
  }

  /** Processing the next queued message keeps `Drained`. */
  lemma DrainedStep(queued: seq<string>, outcomes: seq<Outcome>, i: nat, connected: bool, p: Parsers)
    requires Drained(queued, outcomes, i, false, connected, p) && i < |queued| - i
    ensures var o := ProcessMessage(queued[i], connected, p);
            Drained(queued, outcomes + [o], if o.Fault? then i else i + 1, o.Fault?, connected, p)
  {
    var o := ProcessMessage(queued[i], connected, p);
    assert queued[..i + 1][..i] == queued[..i];
    assert ProcessAll(queued[..i + 1], connected, p) == outcomes + [o];
  }

  /**
   * When the pass ends, either at the shrinking bound or at a fault, the
   * outcomes are those of the first messages, only the last can be a
   * fault, and without a fault exactly ceil(n/2) messages were processed.
   */
  lemma DrainedDone(queued: seq<string>, outcomes: seq<Outcome>, i: nat, faulted: bool, connected: bool, p: Parsers)
    requires Drained(queued, outcomes, i, faulted, connected, p) && (faulted || i >= |queued| - i)
    ensures forall j :: 0 <= j < |outcomes| - 1 ==> !outcomes[j].Fault?
    ensures (forall j :: 0 <= j < |outcomes| ==> !outcomes[j].Fault?) ==> |outcomes| == (|queued| + 1) / 2
  {
  }

  /**
   * One turn of `Update`'s loop: dequeue the oldest message, process it and
   * write its reply. A fault writes nothing.
   */
  method DequeueAndProcess(server: TcpServer.Server, connected: bool, p: Parsers) returns (o: Outcome)
    requires server.Valid() && server.buffer != []
    modifies server
    ensures server.Valid() && server.accepted == old(server.accepted)
    ensures o == ProcessMessage(old(server.buffer)[0], connected, p)
    ensures server.buffer == old(server.buffer)[1..]
    ensures server.Snapshot() == TcpServer.AfterWrites(old(server.Snapshot()), ReplySeq(o))
  {
    var _, message := server.TryDequeue();
    o := ProcessMessage(message, connected, p);
    var reply := Reply(o);
    if reply.Some? {
      server.Write(reply.value);
      assert [reply.value][..0] == [];
    }
  }

  /**
   * `Update`: the loop bound re-reads the shrinking queue length, so a pass
   * over n queued messages dequeues and processes the first ceil(n/2) of them
   * in order and leaves the rest queued; an exception from a handler ends
   * the pass after the message that raised it. Each reply is written to the
   * server as it is produced.
   */
  method Update(server: TcpServer.Server, connected: bool, p: Parsers) returns (outcomes: seq<Outcome>)
    requires server.Valid()
    modifies server
    ensures server.Valid() && server.accepted == old(server.accepted)
    ensures |outcomes| <= |old(server.buffer)|
    ensures server.buffer == old(server.buffer)[|outcomes|..]
    ensures outcomes == ProcessAll(old(server.buffer)[..|outcomes|], connected, p)
    ensures forall j :: 0 <= j < |outcomes| - 1 ==> !outcomes[j].Fault?
    ensures (forall j :: 0 <= j < |outcomes| ==> !outcomes[j].Fault?) ==>
              |outcomes| == (|old(server.buffer)| + 1) / 2
    ensures server.Snapshot() == TcpServer.AfterWrites(old(server.Snapshot()), Replies(outcomes))
  {
    ghost var queued := server.buffer;
    ghost var start := server.Snapshot();
    outcomes := [];
    var i := 0;
    var faulted := false;
    while !faulted && i < |server.buffer|
      invariant server.Valid() && server.accepted == old(server.accepted)
      invariant Drained(queued, outcomes, i, faulted, connected, p)
      invariant server.buffer == queued[|outcomes|..]
      invariant server.Snapshot() == TcpServer.AfterWrites(start, Replies(outcomes))
    {
      ghost var done := outcomes;
      DrainedStep(queued, outcomes, i, connected, p);
      var o := DequeueAndProcess(server, connected, p);
      RepliesSnoc(done, o);
      TcpServer.AfterWritesAppend(start, Replies(done), ReplySeq(o));
      outcomes := outcomes + [o];
      if o.Fault? {
        faulted := true;
      } else {
        i := i + 1;
      }
    }
    DrainedDone(queued, outcomes, i, faulted, connected, p);
  }
}
