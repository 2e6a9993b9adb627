/**
 * The single-client TCP server (Assets/Scripts/TCPServer.cs) as a sequential
 * state machine. Sockets are client ids, background tasks are flags, and each
 * public operation, the accept of one connection and one pass of the read
 * loop are atomic steps.
 */
module TcpServer {
  import opened Options
  import opened Wire

  /** An accepted connection: the model's stand-in for a TcpClient. */
  type ClientId = nat

  /** One `Stream.Write` call as its client receives it. */
  datatype Packet = Packet(client: ClientId, bytes: seq<byte>)

  /** The most bytes one `Stream.Read` call of the read loop takes. */
  const BufferSize: nat := 1024

  /** The messages the read loop stores for a series of polls: one per non-empty read, in order. */
  function Received(polls: seq<seq<byte>>): (msgs: seq<string>)
    ensures |msgs| <= |polls|
  {
    if polls == [] then [] else Stored(polls[0]) + Received(polls[1..])
  }

  /** What one poll stores: nothing for a zero-byte read, else its bytes as one ASCII string. */
  function Stored(p: seq<byte>): (msgs: seq<string>)
    ensures |msgs| <= 1
  {
    if p == [] then [] else [AsciiDecode(p)]
  }

  /** Reading one poll further stores what that poll stores. */
  lemma ReceivedPrefix(polls: seq<seq<byte>>, i: nat)
    requires i < |polls|
    ensures Received(polls[..i + 1]) == Received(polls[..i]) + Stored(polls[i])
  {
    assert polls[..i + 1] == polls[..i] + [polls[i]];
    ReceivedSnoc(polls[..i], polls[i]);
  }

  /** One more poll adds at most one message, at the end. */
  lemma {:induction false} ReceivedSnoc(polls: seq<seq<byte>>, p: seq<byte>)
    ensures Received(polls + [p]) == Received(polls) + Stored(p)
  {
    if polls != [] {
      ReceivedSnoc(polls[1..], p);
      assert (polls + [p])[1..] == polls[1..] + [p];
    }
  }

  /** The messages of two runs of polls are those of the first run followed by those of the second. */
  lemma {:induction false} ReceivedAppend(a: seq<seq<byte>>, b: seq<seq<byte>>)
    ensures Received(a + b) == Received(a) + Received(b)
  {
    if a == [] {
      assert a + b == b;
    } else {
      var ab := a + b;
      assert ab[0] == a[0] && ab[1..] == a[1..] + b;
      calc {
        Received(ab);
        Stored(a[0]) + Received(a[1..] + b);
        { ReceivedAppend(a[1..], b); }
        Stored(a[0]) + (Received(a[1..]) + Received(b));
        (Stored(a[0]) + Received(a[1..])) + Received(b);
      }
    }
  }

  /** Zero-byte polls store nothing. */
  lemma {:induction false} ReceivedIgnoresEmptyPolls(polls: seq<seq<byte>>)
    requires forall k :: 0 <= k < |polls| ==> polls[k] == []
    ensures Received(polls) == []
  {
    if polls != [] {
      ReceivedIgnoresEmptyPolls(polls[1..]);
    }
  }

  /** The set holding the client, if there is one. */
  function ClientSet(c: Option<ClientId>): set<ClientId> {
    if c.Some? then {c.value} else {}
  }

  /**
   * The server's fields other than the message queue, as one value, for
   * stating what a series of writes does.
   */
  datatype State = State(
    currentClient: Option<ClientId>, closed: set<ClientId>, stream: Option<ClientId>,
    listeningStarted: bool, accepting: bool, listenerCancel: Option<bool>, readHook: bool,
    readCancel: Option<bool>, reading: bool, sent: seq<Packet>)

  /** The current client is set and has not been closed. */
  predicate LiveIn(s: State) {
    s.currentClient.Some? && s.currentClient.value !in s.closed
  }

  /** The packets a client receives for a series of writes. */
  function Packets(c: ClientId, writes: seq<seq<byte>>): (ps: seq<Packet>)
    ensures |ps| == |writes|
    ensures forall k :: 0 <= k < |ps| ==> ps[k] == Packet(c, writes[k])
  {
    seq(|writes|, k requires 0 <= k < |writes| => Packet(c, writes[k]))
  }

  /**
   * The state after `Write(data)`: a live client receives the bytes and a
   * paused read loop resumes; otherwise nothing is sent and a read loop that
   * was running stays stopped.
   */
  function AfterWrite(s: State, data: seq<byte>): (t: State)
    ensures LiveIn(t) == LiveIn(s) && t.currentClient == s.currentClient
    ensures t.sent == s.sent + if LiveIn(s) then Packets(s.currentClient.value, [data]) else []
    ensures t.reading ==> s.reading
  {
    var live := LiveIn(s);
    s.(sent := s.sent + (if live then [Packet(s.currentClient.value, data)] else []),
       reading := s.reading && live,
       readCancel := if !s.reading then s.readCancel else if live then Some(false) else Some(true),
       stream := if live then s.currentClient else s.stream)
  }

  /** The state after a series of writes, in order. */
  function AfterWrites(s: State, writes: seq<seq<byte>>): State
  {
    if writes == [] then s else AfterWrite(AfterWrites(s, writes[..|writes| - 1]), writes[|writes| - 1])
  }

  /** Writing one series and then another is writing their concatenation. */
  lemma {:induction false} AfterWritesAppend(s: State, a: seq<seq<byte>>, b: seq<seq<byte>>)
    ensures AfterWrites(s, a + b) == AfterWrites(AfterWrites(s, a), b)
    decreases |b|
  {
    if b == [] {
      assert a + b == a;
    } else {
      var init := b[..|b| - 1];
      AfterWritesAppend(s, a, init);
      assert (a + b)[..|a + b| - 1] == a + init;
    }
  }

  /**
   * A series of writes reaches a live client in order and unchanged, or
   * sends nothing at all; a read loop keeps running only if the client was
   * live, and the connection itself is untouched.
   */
  lemma {:induction false} AfterWritesEffect(s: State, writes: seq<seq<byte>>)
    ensures var t := AfterWrites(s, writes);
            && t.sent == s.sent + (if LiveIn(s) then Packets(s.currentClient.value, writes) else [])
            && t.reading == (s.reading && (LiveIn(s) || writes == []))
            && t.currentClient == s.currentClient && t.closed == s.closed
            && t.listeningStarted == s.listeningStarted && t.accepting == s.accepting
            && t.listenerCancel == s.listenerCancel && t.readHook == s.readHook
    decreases |writes|
  {
    if writes != [] {
      var init := writes[..|writes| - 1];
      AfterWritesEffect(s, init);
      if LiveIn(s) {
        var c := s.currentClient.value;
        assert Packets(c, writes) == Packets(c, init) + Packets(c, [writes[|writes| - 1]]);
      }
    }
  }

  class Server {
    /** `Buffer`: received messages, oldest first. */
    var buffer: seq<string>
    /** `CurrentClient`; `Disconnect` closes it but leaves the field set. */
    var currentClient: Option<ClientId>
    /** Clients whose TcpClient has been closed and disposed. */
    var closed: set<ClientId>
    /** `Stream`: the NetworkStream of the current client, or null. */
    var stream: Option<ClientId>
    /** `ListeningTask != null`. */
    var listeningStarted: bool
    /** The accept loop is running and owns the port. */
    var accepting: bool
    /** `CancelListener`: None while null, otherwise whether cancellation was requested. */
    var listenerCancel: Option<bool>
    /** `StartReading` is registered on `ClientConnected`. */
    var readHook: bool
    /** `CancelReading`: None while null, otherwise whether cancellation was requested. */
    var readCancel: Option<bool>
    /** `ReadingTask != null && !ReadingTask.IsCompleted`. */
    var reading: bool
    /** Everything written to clients, in order. */
    var sent: seq<Packet>
    /** Every client accepted so far; a TcpClient is never accepted twice. */
    ghost var accepted: set<ClientId>

    ghost predicate Valid()
      reads this
    {
      && (stream.Some? ==> currentClient == stream && stream.value !in closed)
      && (reading ==> readCancel == Some(false))
      && (accepting ==> listeningStarted)
      && (listeningStarted ==> listenerCancel.Some?)
      && closed <= accepted
      && ClientSet(currentClient) <= accepted
    }

    /** The current client is set and has not been closed. */
    predicate Live()
      reads this
    {
      currentClient.Some? && currentClient.value !in closed
    }

    /** The fields other than the queue, as one value. */
    function Snapshot(): (s: State)
      reads this
      ensures LiveIn(s) == Live()
    {
      State(currentClient, closed, stream, listeningStarted, accepting, listenerCancel, readHook,
            readCancel, reading, sent)
    }

    constructor ()
      ensures Valid() && accepted == {}
      ensures buffer == [] && currentClient == None && stream == None && sent == []
      ensures !listeningStarted && !accepting && listenerCancel == None && !readHook
      ensures readCancel == None && !reading
    {
      buffer, currentClient, closed, stream := [], None, {}, None;
      listeningStarted, accepting, listenerCancel, readHook := false, false, None, false;
      readCancel, reading, sent := None, false, [];
      accepted := {};
    }

    /**
     * `StartListening`: installs a fresh listener cancellation source, binds
     * the port and starts the accept loop with `StartReading` hooked to
     * `ClientConnected`. Binding fails (`ok` false) while an earlier accept
     * loop still owns the port; the fresh cancellation source is installed
     * even then.
     */
    method StartListening() returns (ok: bool)
      requires Valid()
      modifies this`listenerCancel, this`readHook, this`listeningStarted, this`accepting
      ensures Valid()
      ensures ok == !old(accepting)
      ensures listenerCancel == Some(false)
      ensures ok ==> accepting && listeningStarted && readHook
      ensures !ok ==> accepting == old(accepting) && listeningStarted == old(listeningStarted)
                      && readHook == old(readHook)
    {
      listenerCancel := Some(false);
      if accepting {
        ok := false;
        return;
      }
      readHook := true;
      listeningStarted := true;
      accepting := true;
      ok := true;
    }

    /**
     * One pass of the accept loop: a connection `c` arrives, the previous
     * client is disconnected, `c` becomes the current client, reading starts
     * if the hook is installed, and the loop ends if cancellation was requested.
     */
    method Accept(c: ClientId)
      requires Valid() && accepting && c !in accepted
      modifies this
      ensures Valid() && accepted == old(accepted) + {c}
      ensures currentClient == Some(c) && Live() && stream == None
      ensures closed == old(closed) + ClientSet(old(currentClient))
      ensures reading == old(readHook)
      ensures readCancel == if old(readHook) then Some(false)
                            else if old(reading) then Some(true) else old(readCancel)
      ensures accepting == (old(listenerCancel) != Some(true))
      ensures buffer == old(buffer) && sent == old(sent)
      ensures listeningStarted == old(listeningStarted) && listenerCancel == old(listenerCancel)
      ensures readHook == old(readHook)
    {
      Disconnect();
      currentClient := Some(c);
      accepted := accepted + {c};
      if readHook {
        StartReading();
      }
      if listenerCancel == Some(true) {
        accepting := false;
      }
    }

    /**
     * `StopListening`: without effect before `StartListening`; afterwards it
     * unhooks `StartReading`, disconnects and requests cancellation of the
     * accept loop, which ends at its next accept.
     */
    method StopListening()
      requires Valid()
      modifies this
      ensures Valid() && accepted == old(accepted)
      ensures !old(listeningStarted) ==> unchanged(this)
      ensures old(listeningStarted) ==>
                && !readHook && listenerCancel == Some(true) && stream == None && !reading
                && closed == old(closed) + ClientSet(old(currentClient))
                && readCancel == (if old(reading) then Some(true) else old(readCancel))
      ensures currentClient == old(currentClient) && accepting == old(accepting)
      ensures listeningStarted == old(listeningStarted)
      ensures buffer == old(buffer) && sent == old(sent)
    {
      if !listeningStarted {
        return;
      }
      readHook := false;
      Disconnect();
      listenerCancel := Some(true);
    }

    /** `StartReading`: a fresh cancellation source and a running read loop. */
    method StartReading()
      requires Valid()
      modifies this`readCancel, this`reading
      ensures Valid()
      ensures readCancel == Some(false) && reading
    {
      readCancel := Some(false);
      reading := true;
    }

    /**
     * `StopReading`: requests cancellation unless it already was; a running
     * read loop then ends. With no cancellation source yet the call
     * dereferences null (`ok` false) and changes nothing.
     */
    method StopReading() returns (ok: bool)
      requires Valid()
      modifies this`readCancel, this`reading
      ensures Valid()
      ensures ok == old(readCancel).Some?
      ensures readCancel == if ok then Some(true) else old(readCancel)
      ensures !reading
      ensures old(readCancel) == Some(true) ==> unchanged(this)
    {
      if readCancel.None? {
        ok := false;
        return;
      }
      ok := true;
      if readCancel == Some(true) {
        return;
      }
      readCancel := Some(true);
      reading := false;
    }

    /**
     * One iteration of the read loop: the loop ends when there is no client
     * or its socket is closed; otherwise it takes the stream and stores the
     * bytes read, if any, as one ASCII string.
     */
    method ReadStep(chunk: seq<byte>)
      requires Valid() && reading && |chunk| <= BufferSize
      modifies this`buffer, this`stream, this`reading
      ensures Valid()
      ensures reading == old(Live())
      ensures old(Live()) ==> stream == currentClient
      ensures !old(Live()) ==> stream == old(stream)
      ensures buffer == old(buffer) + if old(Live()) then Received([chunk]) else []
    {
      if currentClient.None? || currentClient.value in closed {
        reading := false;
        return;
      }
      stream := currentClient;
      if |chunk| > 0 {
        buffer := buffer + [AsciiDecode(chunk)];
      }
    }

    /**
     * The read loop run over a series of polls (each the bytes one
     * `Stream.Read` returned, empty when no data was available): a live
     * client's polls are stored as `Received(polls)`; otherwise the loop
     * ends at once and stores nothing.
     */
    method ReadLoop(polls: seq<seq<byte>>)
      requires Valid() && reading
      requires forall k :: 0 <= k < |polls| ==> |polls[k]| <= BufferSize
      modifies this`buffer, this`stream, this`reading
      ensures Valid()
      ensures polls != [] ==> reading == old(Live())
      ensures polls == [] ==> reading == old(reading)
      ensures stream == if old(Live()) && polls != [] then old(currentClient) else old(stream)
      ensures buffer == old(buffer) + if old(Live()) then Received(polls) else []
    {
      ghost var live := Live();
      ghost var before := buffer;
      ghost var stream0 := stream;
      var i := 0;
      while i < |polls| && reading
        invariant 0 <= i <= |polls| && Valid()
        invariant Live() == live && currentClient == old(currentClient)
        invariant live ==> reading
        invariant i > 0 ==> reading == live
        invariant i == 0 ==> reading
        invariant stream == if live && i > 0 then currentClient else stream0
        invariant buffer == before + if live then Received(polls[..i]) else []
      {
        ReadStep(polls[i]);
        ReceivedPrefix(polls, i);
        i := i + 1;
      }
      if live {
        assert polls[..i] == polls;
      }
    }

    /**
     * `Write`: with a read loop running, stops reading, writes once the loop
     * has ended, and starts reading again; otherwise writes without
     * starting a read loop. A write reaches only a live current client, and
     * when it fails reading is not restarted.
     */
    method Write(data: seq<byte>)
      requires Valid()
      modifies this`readCancel, this`reading, this`stream, this`sent
      ensures Valid()
      ensures sent == old(sent) + if old(Live()) then [Packet(old(currentClient).value, data)] else []
      ensures reading == (old(reading) && old(Live()))
      ensures Snapshot() == AfterWrite(old(Snapshot()), data)
    {
      if reading {
        var _ := StopReading();
        WriteHandler(data, true);
      } else {
        WriteHandler(data, false);
      }
    }

    /**
     * `WriteHandler`: takes the current client's stream, writes the bytes
     * unchanged, and restarts reading when asked to. With no client, or a
     * closed one, getting the stream throws inside the task: nothing is
     * written and reading is not restarted.
     */
    method WriteHandler(data: seq<byte>, wasReading: bool)
      requires Valid()
      modifies this`readCancel, this`reading, this`stream, this`sent
      ensures Valid()
      ensures sent == old(sent) + if Live() then [Packet(currentClient.value, data)] else []
      ensures reading == if Live() && wasReading then true else old(reading)
      ensures readCancel == if Live() && wasReading then Some(false) else old(readCancel)
      ensures stream == if Live() then currentClient else old(stream)
    {
      if currentClient.None? || currentClient.value in closed {
        return;
      }
      stream := currentClient;
      sent := sent + [Packet(currentClient.value, data)];
      if wasReading {
        StartReading();
      }
    }

    /**
     * `Disconnect`: releases the stream, stops a running read loop and
     * closes the current client if there is one. Safe with no client, and a
     * second call changes nothing.
     */
    method Disconnect()
      requires Valid()
      modifies this`stream, this`readCancel, this`reading, this`closed
      ensures Valid()
      ensures stream == None && !reading
      ensures closed == old(closed) + ClientSet(currentClient)
      ensures readCancel == if old(reading) then Some(true) else old(readCancel)
      ensures !Live()
      ensures old(stream) == None && !old(reading) && !old(Live()) ==> unchanged(this)
    {
      if stream.Some? {
        stream := None;
      }
      if reading {
        var _ := StopReading();
      }
      if currentClient.Some? && currentClient.value !in closed {
        closed := closed + {currentClient.value};
      }
    }

    /** `Shutdown`: disconnects, stops listening and removes every event listener. */
    method Shutdown()
      requires Valid()
      modifies this
      ensures Valid() && accepted == old(accepted)
      ensures stream == None && !reading && !readHook && !Live()
      ensures closed == old(closed) + ClientSet(old(currentClient))
      ensures listenerCancel == if old(listeningStarted) then Some(true) else old(listenerCancel)
      ensures readCancel == if old(reading) then Some(true) else old(readCancel)
      ensures accepting == old(accepting) && listeningStarted == old(listeningStarted)
      ensures currentClient == old(currentClient) && buffer == old(buffer) && sent == old(sent)
    {
      Disconnect();
      StopListening();
      readHook := false;
    }

    /** `Buffer.TryDequeue`: the oldest message, if any. */
    method TryDequeue() returns (ok: bool, msg: string)
      modifies this`buffer
      ensures ok == (old(buffer) != [])
      ensures ok ==> msg == old(buffer)[0] && buffer == old(buffer)[1..]
      ensures !ok ==> buffer == old(buffer)
    {
      if buffer == [] {
        ok, msg := false, [];
      } else {
        ok, msg := true, buffer[0];
        buffer := buffer[1..];
      }
    }
  }
  /** A connection of a second client closes the first and makes the second the live, read client. */
  method ConnectingTwoClientsClosesFirst(first: ClientId, second: ClientId)
    returns (firstOpen: bool, secondOpen: bool, secondRead: bool)
    requires first != second
    ensures !firstOpen && secondOpen && secondRead
  {
    var server := new Server();
    var _ := server.StartListening();
    server.Accept(first);
    server.Accept(second);
    firstOpen := first !in server.closed;
    secondOpen := server.currentClient == Some(second) && server.Live();
    secondRead := server.reading;
  }

  /** After a second client connects, a write reaches only that client. */
  method MessageWritesToNewestClient(first: ClientId, second: ClientId, data: seq<byte>)
    returns (toFirst: seq<seq<byte>>, toSecond: seq<seq<byte>>)
    requires first != second
    ensures toFirst == [] && toSecond == [data]
  {
    var server := new Server();
    var _ := server.StartListening();
    server.Accept(first);
    server.Accept(second);
    server.Write(data);
    toFirst := PacketsTo(server.sent, first);
    toSecond := PacketsTo(server.sent, second);
  }

  /** The bytes written to one client, in order. */
  function PacketsTo(sent: seq<Packet>, c: ClientId): (r: seq<seq<byte>>)
    ensures |r| <= |sent|
  {
    if sent == [] then []
    else (if sent[0].client == c then [sent[0].bytes] else []) + PacketsTo(sent[1..], c)
  }

  /** `StopListening` after a client connected ends the read loop and closes the client. */
  method StopListeningStopsReading(c: ClientId) returns (stillReading: bool, clientOpen: bool)
    ensures !stillReading && !clientOpen
  {
    var server := new Server();
    var _ := server.StartListening();
    server.Accept(c);
    server.StopListening();
    stillReading := server.reading;
    clientOpen := server.Live();
  }

  /** Two messages sent one after the other are dequeued in order and unchanged. */
  method CanReceiveMultipleMessages(c: ClientId, m1: string, m2: string) returns (first: string, second: string)
    requires IsAscii(m1) && IsAscii(m2) && m1 != [] && m2 != []
    requires |m1| <= BufferSize && |m2| <= BufferSize
    ensures first == m1 && second == m2
  {
    var server := new Server();
    var _ := server.StartListening();
    server.Accept(c);
    AsciiRoundTrip(m1);
    AsciiRoundTrip(m2);
    server.ReadStep(AsciiEncode(m1));
    var _, r1 := server.TryDequeue();
    server.ReadStep(AsciiEncode(m2));
    var _, r2 := server.TryDequeue();
    first, second := r1, r2;
  }

  /** A write in between leaves the read loop running: a later message is still received. */
  method CanReadMessageAfterWriting(c: ClientId, reply: seq<byte>, m: string)
    returns (written: seq<seq<byte>>, received: string)
    requires IsAscii(m) && m != [] && |m| <= BufferSize
    ensures written == [reply] && received == m
  {
    var server := new Server();
    var _ := server.StartListening();
    server.Accept(c);
    server.Write(reply);
    AsciiRoundTrip(m);
    server.ReadStep(AsciiEncode(m));
    var _, r := server.TryDequeue();
    written, received := PacketsTo(server.sent, c), r;
  }
}
