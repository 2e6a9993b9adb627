/**
 * The message loop of Assets/Scripts/MessageProcessing.cs: a coroutine
 * that, once per frame until shutdown, takes at most one message from the
 * shared queue and dispatches it through an eleven-entry keyword table
 * headed by `OPI_CLOSE`. Apart from `OPI_CLOSE` and `OPI_MONO_PRESENT` the
 * handlers only log.
 */
module MessageProcessing {
  import opened Options
  import opened OpiText
  import opened Wire

  datatype Command =
    | Close | GetRes | Image | Present | SetBackground | BinFixation | BinPresent
    | MonoBackgroundAdd | MonoSetBackground | MonoPresent | SetFovY

  /** The keyword table, in the order it is scanned. */
  const Keywords: seq<string> := [
    "OPI_CLOSE", "OPI_GET_RES", "OPI_IMAGE", "OPI_PRESENT", "OPI_SET_BGROUND", "OPI_BIN_FIXATION",
    "OPI_BIN_PRESENT", "OPI_MONO_BG_ADD", "OPI_MONO_SET_BG", "OPI_MONO_PRESENT", "OPI_SET_FOVY"]

  /** The handler each keyword names. */
  const Commands: seq<Command> := [
    Close, GetRes, Image, Present, SetBackground, BinFixation,
    BinPresent, MonoBackgroundAdd, MonoSetBackground, MonoPresent, SetFovY]

  /** The stimulus `OPI_MONO_PRESENT` builds: integer position, size and times as parsed. */
  datatype MonoStimulus = MonoStimulus(x: int32, y: int32, size: real, duration: real, responseWindow: real)

  /** `int.Parse` and `double.Parse`; None where the call throws. */
  datatype NumberParsers = NumberParsers(parseInt: string -> Option<int32>, parseReal: string -> Option<real>)

  datatype Outcome =
    | Unrecognized
      /** `MainExecution.RunShutdown()`. */
    | RunShutdown
      /** A handler that only logs its name. */
    | Logged(command: Command)
      /** `OPI_MONO_PRESENT` with fewer than seven tokens: an error is logged. */
    | TooFewTokens
      /** `PresentationControl.Present` of the parsed stimulus. */
    | PresentMono(stimulus: MonoStimulus)
      /** A parse threw; the exception ends the coroutine. */
    | Fault

  /** The handler selected for a message: the first keyword of the table it contains. */
  function Select(message: string): Option<Command> {
    match FirstMatch(Keywords, message)
    case None => None
    case Some(k) => Some(Commands[k])
  }

  /**
   * `OPI_MONO_PRESENT`: the untrimmed message split on single spaces must
   * have seven tokens or more; tokens 2 and 3 are the integer position and
   * tokens 4 to 6 the size, duration and response window.
   */
  function MonoPresentHandler(message: string, np: NumberParsers): Outcome {
    var tokens := Split(message, ' ');
    if |tokens| < 7 then TooFewTokens
    else
      match (np.parseInt(tokens[2]), np.parseInt(tokens[3]),
             np.parseReal(tokens[4]), np.parseReal(tokens[5]), np.parseReal(tokens[6]))
      case (Some(x), Some(y), Some(size), Some(duration), Some(window)) =>
        PresentMono(MonoStimulus(x, y, size, duration, window))
      case _ => Fault
  }

  /** `ProcessMessage`: selects the handler by reflection on the keyword and runs it. */
  function ProcessMessage(message: string, np: NumberParsers): Outcome {
    match Select(message)
    case None => Unrecognized
    case Some(Close) => RunShutdown
    case Some(MonoPresent) => MonoPresentHandler(message, np)
    case Some(c) => Logged(c)
  }

  /**
   * A message containing `OPI_CLOSE` anywhere selects the close handler,
   * whose outcome is the `RunShutdown` call, whatever else it contains.
   */
  lemma CloseWins(message: string, np: NumberParsers)
    requires Contains(message, "OPI_CLOSE")
    ensures ProcessMessage(message, np) == RunShutdown
  {
    FirstMatchIs(Keywords, message, 0);
  }

  /** A message is left unhandled exactly when it contains no keyword of the table. */
  lemma UnrecognizedIffNoKeyword(message: string, np: NumberParsers)
    ensures ProcessMessage(message, np) == Unrecognized <==>
              forall k :: 0 <= k < |Keywords| ==> !Contains(message, Keywords[k])
  {
    FirstMatchSpec(Keywords, message);
    var m := MonoPresentHandler(message, np);
    assert m != Unrecognized;
  }

  /**
   * Every selected handler other than `OPI_CLOSE` and `OPI_MONO_PRESENT`
   * only logs.
   */
  lemma OthersOnlyLog(message: string, np: NumberParsers)
    requires Select(message).Some? && Select(message).value !in {Close, MonoPresent}
    ensures ProcessMessage(message, np) == Logged(Select(message).value)
  {
  }

  /**
   * `OPI_MONO_PRESENT` presents nothing with fewer than seven tokens,
   * keyword token included, and otherwise reads only tokens 2 to 6: two
   * messages that agree on those get the same outcome.
   */
  lemma MonoPresentReadsTokensTwoToSix(m1: string, m2: string, np: NumberParsers)
    ensures |Split(m1, ' ')| < 7 <==> MonoPresentHandler(m1, np) == TooFewTokens
    ensures |Split(m1, ' ')| >= 7 && |Split(m2, ' ')| >= 7 && Split(m1, ' ')[2..7] == Split(m2, ' ')[2..7] ==>
              MonoPresentHandler(m1, np) == MonoPresentHandler(m2, np)
  {
    var t1, t2 := Split(m1, ' '), Split(m2, ' ');
    if |t1| >= 7 && |t2| >= 7 && t1[2..7] == t2[2..7] {
      assert t1[2] == t1[2..7][0] && t1[3] == t1[2..7][1] && t1[4] == t1[2..7][2];
      assert t1[5] == t1[2..7][3] && t1[6] == t1[2..7][4];
      assert t2[2] == t2[2..7][0] && t2[3] == t2[2..7][1] && t2[4] == t2[2..7][2];
      assert t2[5] == t2[2..7][3] && t2[6] == t2[2..7][4];
    }
  }

  /** On seven or more tokens whose numbers all parse, the stimulus carries exactly those numbers. */
  lemma MonoPresentFields(message: string, np: NumberParsers)
    requires |Split(message, ' ')| >= 7
    ensures var t := Split(message, ' ');
            var o := MonoPresentHandler(message, np);
            o.PresentMono? <==> (np.parseInt(t[2]).Some? && np.parseInt(t[3]).Some? && np.parseReal(t[4]).Some?
                                 && np.parseReal(t[5]).Some? && np.parseReal(t[6]).Some?)
    ensures var t := Split(message, ' ');
            var o := MonoPresentHandler(message, np);
            o.PresentMono? ==> o.stimulus == MonoStimulus(np.parseInt(t[2]).value, np.parseInt(t[3]).value,
                                                         np.parseReal(t[4]).value, np.parseReal(t[5]).value,
                                                         np.parseReal(t[6]).value)
  {
  }

  /** The outcomes of processing some messages one after the other. */
  function ProcessAll(messages: seq<string>, np: NumberParsers): (os: seq<Outcome>)
    ensures |os| == |messages|
  {
    if messages == [] then []
    else ProcessAll(messages[..|messages| - 1], np) + [ProcessMessage(messages[|messages| - 1], np)]
  }

  /** No outcome is a fault. */
  predicate FaultFree(outcomes: seq<Outcome>) {
    forall j :: 0 <= j < |outcomes| ==> !outcomes[j].Fault?
  }

  lemma FaultFreeSnoc(outcomes: seq<Outcome>, o: Outcome)
    requires FaultFree(outcomes)
    ensures FaultFree(outcomes + [o]) <==> !o.Fault?
  {
    if o.Fault? {
      assert (outcomes + [o])[|outcomes|] == o;
    } else {
      assert forall j :: 0 <= j < |outcomes| ==> (outcomes + [o])[j] == outcomes[j];
    }
  }

  function Min(a: nat, b: nat): nat {
    if a <= b then a else b
  }

  /**
   * Where the loop stands after `frame` frames: one outcome per message
   * taken, oldest first; only the last can be a fault, and without one a
   * message was taken in every frame while the queue lasted.
   */
  ghost predicate Progress(queued: seq<string>, outcomes: seq<Outcome>, frame: nat, np: NumberParsers) {
    && |outcomes| <= frame && |outcomes| <= |queued|
    && outcomes == ProcessAll(queued[..|outcomes|], np)
    && (forall j :: 0 <= j < |outcomes| - 1 ==> !outcomes[j].Fault?)
    && (FaultFree(outcomes) ==> |outcomes| == Min(frame, |queued|))
  }

  /** A frame that takes the next message keeps `Progress`. */
  lemma ProgressTake(queued: seq<string>, outcomes: seq<Outcome>, frame: nat, np: NumberParsers)
    requires Progress(queued, outcomes, frame, np) && FaultFree(outcomes) && |outcomes| < |queued|
    ensures Progress(queued, outcomes + [ProcessMessage(queued[|outcomes|], np)], frame + 1, np)
  {
    var n := |outcomes|;
    var o := ProcessMessage(queued[n], np);
    var taken := queued[..n + 1];
    assert taken[..n] == queued[..n] && taken[n] == queued[n];
    assert ProcessAll(taken, np) == outcomes + [o];
    assert n == frame;
    assert forall j :: 0 <= j < n ==> (outcomes + [o])[j] == outcomes[j];
  }

  /** A frame that finds the queue empty keeps `Progress`. */
  lemma ProgressIdle(queued: seq<string>, outcomes: seq<Outcome>, frame: nat, np: NumberParsers)
    requires Progress(queued, outcomes, frame, np) && |outcomes| == |queued|
    ensures Progress(queued, outcomes, frame + 1, np)
  {
  }

  /** The message queue and the `Exited` flag the loop shares with the rest of the program. */
  class MessageLoop {
    /** `MainExecution.Messages`, oldest first. */
    var messages: seq<string>
    /** `MessageProcessing.Exited`. */
    var exited: bool

    constructor (queued: seq<string>)
      ensures messages == queued && !exited
    {
      messages, exited := queued, false;
    }

    /**
     * `BeginProcessing`, run until `MainExecution.Shutdown` is first seen
     * true at the start of frame `shutdownFrame`: every earlier frame takes
     * at most one message, oldest first, and processes it. The loop then
     * sets `Exited`, unless a handler threw, which ends the coroutine
     * with `Exited` left as it was.
     */
    method BeginProcessing(shutdownFrame: nat, np: NumberParsers) returns (outcomes: seq<Outcome>)
      modifies this
      ensures |outcomes| <= shutdownFrame && |outcomes| <= |old(messages)|
      ensures messages == old(messages)[|outcomes|..]
      ensures outcomes == ProcessAll(old(messages)[..|outcomes|], np)
      ensures forall j :: 0 <= j < |outcomes| - 1 ==> !outcomes[j].Fault?
      ensures FaultFree(outcomes) ==> |outcomes| == Min(shutdownFrame, |old(messages)|)
      ensures exited == (old(exited) || FaultFree(outcomes))
    {
      ghost var queued := messages;
      outcomes := [];
      var frame := 0;
      var faulted := false;
      while !faulted && frame < shutdownFrame
        invariant frame <= shutdownFrame && Progress(queued, outcomes, frame, np)
        invariant messages == queued[|outcomes|..]
        invariant faulted <==> !FaultFree(outcomes)
        invariant exited == old(exited)
      {
        if messages != [] {
          var message := messages[0];
          messages := messages[1..];
          var o := ProcessMessage(message, np);
          ProgressTake(queued, outcomes, frame, np);
          FaultFreeSnoc(outcomes, o);
          outcomes := outcomes + [o];
          faulted := o.Fault?;
        } else {
          ProgressIdle(queued, outcomes, frame, np);
        }
        frame := frame + 1;
      }
      if !faulted {
        exited := true;
      }
    }
  }
}
