/** The TCP server of src/server/tcp_server.py as a state machine over
    abstract socket events.

    Each accepted connection is given as the sequence of outcomes of the
    socket calls its session makes. The reply text and the stop test come
    from `process_message` and `stop_server` of src/server/common.py, which
    is not part of this model: they are parameters here. */
module TcpServer {
  import opened Wrappers
  import opened PyText
  import opened Utf8
  import opened Net
  import Message

  const InvalidFormatText :=
    "Invalid message format. Please send a valid UTF-8 encoded string."

  /** What `conn.recv` returned when it returned something. */
  type Chunk = b: Bytes | |b| > 0 witness [0]

  /** One turn of the session loop, seen from the socket. */
  datatype Event =
    | Recv(data: Chunk)       // recv returned data and the reply's sendall returned
    | RecvEmpty               // recv returned b"": the peer closed the connection
    | SendFails(data: Chunk)  // recv returned data but the reply's sendall raised
    | RecvFails               // recv raised, e.g. the peer reset the connection

  /** Why a session stopped, or Waiting if it is still blocked in recv
      because the event trace ran out. */
  datatype SessionEnd = Disconnected | Errored | StopRequested | Waiting

  /** The responses whose `sendall` returned normally, in order, and how the
      session ended. Each response travels as its UTF-8 encoding
      (`response.encode("utf-8")`), which Utf8.DecodeEncode shows the peer
      decodes back to the same text. */
  datatype Session = Session(sent: seq<string>, end: SessionEnd)

  /** The response to a chunk: the fixed format complaint if it is not
      UTF-8, else the reply to its stripped text. */
  function ReplyTo(data: Bytes, processMessage: string -> string): (r: string)
    ensures Decode(data).None? ==> r == InvalidFormatText
  {
    match Decode(data)
    case None => InvalidFormatText
    case Some(text) => processMessage(Strip(text))
  }

  /** A chunk whose stripped text the stop test accepts. */
  predicate IsStopChunk(data: Bytes, stopServer: string -> bool) {
    Decode(data).Some? && stopServer(Strip(Decode(data).value))
  }

  /** Events after which the session loop goes round again. */
  predicate Continues(e: Event, stopServer: string -> bool) {
    e.Recv? && !IsStopChunk(e.data, stopServer)
  }

  /** The inner `while True` loop of one connection, lines 33-64, with the
      `except Exception` of line 65 ending the session as Errored. */
  function RunSession(events: seq<Event>, processMessage: string -> string,
                      stopServer: string -> bool): (s: Session)
    ensures |s.sent| <= |events|
    ensures s.end == Waiting ==> |s.sent| == |events|
    ensures s.end == StopRequested ==> |s.sent| > 0
    ensures s.end in {Disconnected, Errored} ==> |s.sent| < |events|
    decreases |events|
  {
    if |events| == 0 then Session([], Waiting)
    else match events[0]
      case RecvEmpty => Session([], Disconnected)
      case RecvFails => Session([], Errored)
      case SendFails(_) => Session([], Errored)
      case Recv(data) =>
        var reply := ReplyTo(data, processMessage);
        if IsStopChunk(data, stopServer) then Session([reply], StopRequested)
        else
          var rest := RunSession(events[1..], processMessage, stopServer);
          Session([reply] + rest.sent, rest.end)
  }

  /** Exactly one reply per delivered chunk, in receive order, each the
      answer to its own chunk. */
  lemma {:induction false} SessionReplies(events: seq<Event>, processMessage: string -> string,
                                          stopServer: string -> bool)
    ensures var s := RunSession(events, processMessage, stopServer);
      forall i :: 0 <= i < |s.sent| ==>
        events[i].Recv? && s.sent[i] == ReplyTo(events[i].data, processMessage)
    decreases |events|
  {
    if |events| > 0 && Continues(events[0], stopServer) {
      var tail := events[1..];
      SessionReplies(tail, processMessage, stopServer);
      var s := RunSession(events, processMessage, stopServer);
      var r := RunSession(tail, processMessage, stopServer);
      assert s.sent == [ReplyTo(events[0].data, processMessage)] + r.sent;
      forall i | 1 <= i < |s.sent|
        ensures events[i].Recv? && s.sent[i] == ReplyTo(events[i].data, processMessage)
      {
        assert events[i] == tail[i - 1] && s.sent[i] == r.sent[i - 1];
      }
    }
  }

  /** Every event answered before the last one let the loop go round again:
      no event before the one that ends the session could have ended it. */
  lemma {:induction false} SessionPrefixContinues(events: seq<Event>,
                                                  processMessage: string -> string,
                                                  stopServer: string -> bool)
    ensures var s := RunSession(events, processMessage, stopServer);
      var k := if s.end == StopRequested then |s.sent| - 1 else |s.sent|;
      forall i :: 0 <= i < k ==> Continues(events[i], stopServer)
    decreases |events|
  {
    if |events| > 0 && Continues(events[0], stopServer) {
      var tail := events[1..];
      SessionPrefixContinues(tail, processMessage, stopServer);
      forall i | 1 <= i < |events|
        ensures events[i] == tail[i - 1]
      {
      }
    }
  }

  /** How the session ended is decided by the event that ended it: a stop
      chunk whose reply was sent, an empty read, or an exception. */
  lemma {:induction false} SessionEndCause(events: seq<Event>, processMessage: string -> string,
                                           stopServer: string -> bool)
    ensures var s := RunSession(events, processMessage, stopServer);
      && (s.end == StopRequested ==>
            events[|s.sent| - 1].Recv? && IsStopChunk(events[|s.sent| - 1].data, stopServer))
      && (s.end == Disconnected ==> events[|s.sent|].RecvEmpty?)
      && (s.end == Errored ==> events[|s.sent|].RecvFails? || events[|s.sent|].SendFails?)
    decreases |events|
  {
    if |events| > 0 && Continues(events[0], stopServer) {
      var tail := events[1..];
      SessionEndCause(tail, processMessage, stopServer);
      var s := RunSession(events, processMessage, stopServer);
      var r := RunSession(tail, processMessage, stopServer);
      assert |s.sent| == |r.sent| + 1;
      if s.end == StopRequested {
        assert events[|s.sent| - 1] == tail[|r.sent| - 1];
      } else if s.end != Waiting {
        assert events[|s.sent|] == tail[|r.sent|];
      }
    }
  }

  /** The first event is handled on its own: an empty read ends the session
      as a disconnect, an exception as an error, both with nothing sent. */
  lemma ClosingEvents(rest: seq<Event>, data: Chunk, processMessage: string -> string,
                      stopServer: string -> bool)
    ensures RunSession([RecvEmpty] + rest, processMessage, stopServer) == Session([], Disconnected)
    ensures RunSession([RecvFails] + rest, processMessage, stopServer) == Session([], Errored)
    ensures RunSession([SendFails(data)] + rest, processMessage, stopServer) == Session([], Errored)
  {
  }

  /** A chunk that is not UTF-8 gets exactly the format complaint and the
      session carries on with the next read. */
  lemma InvalidChunkContinues(data: Chunk, rest: seq<Event>, processMessage: string -> string,
                              stopServer: string -> bool)
    requires Decode(data).None?
    ensures var s := RunSession([Recv(data)] + rest, processMessage, stopServer);
      var r := RunSession(rest, processMessage, stopServer);
      s.sent == [InvalidFormatText] + r.sent && s.end == r.end
  {
    assert ([Recv(data)] + rest)[1..] == rest;
  }

  /** A client that sends the UTF-8 encoding of a text is answered on
      that text, stripped. */
  lemma ReplyToEncoded(text: string, processMessage: string -> string)
    ensures ReplyTo(Encode(text), processMessage) == processMessage(Strip(text))
  {
    DecodeEncode(text);
  }

  /** A stop chunk is answered first and then ends the session as a stop
      request, but only if its reply was sent: when that sendall raises the
      session ends as an error instead. */
  lemma StopAfterReply(data: Chunk, rest: seq<Event>, processMessage: string -> string,
                       stopServer: string -> bool)
    requires IsStopChunk(data, stopServer)
    ensures RunSession([Recv(data)] + rest, processMessage, stopServer)
         == Session([processMessage(Strip(Decode(data).value))], StopRequested)
    ensures RunSession([SendFails(data)] + rest, processMessage, stopServer).end == Errored
  {
  }

  /** The chunk's text is stripped before both the reply and the stop test. */
  lemma RepliesToStrippedText(data: Chunk, pre: string, text: string, post: string,
                              processMessage: string -> string)
    requires All(pre, IsSpace) && All(post, IsSpace)
    requires Decode(data) == Some(pre + text + post)
    ensures ReplyTo(data, processMessage) == processMessage(Strip(text))
  {
    TrimSurrounded(pre, text, post, IsSpace);
  }

  // ---------------------------------------------------------------------
  // The accept loop, lines 25-70.

  /** What `server_socket.accept()` did on one turn of the outer loop. */
  datatype Accepted =
    | Conn(client: Address, events: seq<Event>)  // a connection and its session's events
    | AcceptFails                                 // accept raised: caught at line 69

  datatype Delivery = Delivery(to: Address, response: string)

  /** Accepting: blocked in accept. Serving: blocked in a session's recv.
      Stopped: the loop has exited. */
  datatype Status = Accepting | Serving | Stopped

  datatype Server = Server(sent: seq<Delivery>, shutdown: bool, status: Status)

  /** The server right after `listen`, line 26: `shutdown = False`. */
  const Start := Server([], false, Accepting)

  function Addressed(client: Address, responses: seq<string>): seq<Delivery> {
    seq(|responses|, i requires 0 <= i < |responses| => Delivery(client, responses[i]))
  }

  /** One turn of `while not shutdown`: accept, run the session to its end. */
  function Turn(st: Server, a: Accepted, processMessage: string -> string,
                stopServer: string -> bool): (r: Server)
    ensures |st.sent| <= |r.sent| && r.sent[..|st.sent|] == st.sent
    ensures r.status == Accepting <==> Continue(a, processMessage, stopServer)
    ensures r.shutdown <==>
      st.shutdown || (a.Conn? && RunSession(a.events, processMessage, stopServer).end == StopRequested)
  {
    match a
    case AcceptFails => Server(st.sent, st.shutdown, Stopped)
    case Conn(client, events) =>
      var s := RunSession(events, processMessage, stopServer);
      var sent := st.sent + Addressed(client, s.sent);
      match s.end
      case StopRequested => Server(sent, true, Stopped)
      case Waiting => Server(sent, st.shutdown, Serving)
      case _ => Server(sent, st.shutdown, Accepting)
  }

  /** The outer loop run over the connections it accepts, in order. Once it
      is not Accepting, later connections are never accepted. */
  function Serve(st: Server, accepted: seq<Accepted>, processMessage: string -> string,
                 stopServer: string -> bool): (r: Server)
    ensures st.shutdown ==> r.shutdown
    ensures |st.sent| <= |r.sent| && r.sent[..|st.sent|] == st.sent
    decreases |accepted|
  {
    if |accepted| == 0 || st.status != Accepting then st
    else Serve(Turn(st, accepted[0], processMessage, stopServer), accepted[1..],
               processMessage, stopServer)
  }

  function RunServer(accepted: seq<Accepted>, processMessage: string -> string,
                     stopServer: string -> bool): Server
  {
    Serve(Start, accepted, processMessage, stopServer)
  }

  /** Running the loop over a trace in two parts is running it over the
      whole trace. */
  lemma {:induction false} ServeSplit(st: Server, a: seq<Accepted>, b: seq<Accepted>,
                                      processMessage: string -> string, stopServer: string -> bool)
    ensures Serve(st, a + b, processMessage, stopServer)
         == Serve(Serve(st, a, processMessage, stopServer), b, processMessage, stopServer)
    decreases |a|
  {
    if |a| == 0 {
      assert a + b == b;
    } else if st.status == Accepting {
      assert (a + b)[0] == a[0] && (a + b)[1..] == a[1..] + b;
      ServeSplit(Turn(st, a[0], processMessage, stopServer), a[1..], b, processMessage, stopServer);
    }
  }

  /** Shutdown is monotone along the trace of accepted connections: once a
      prefix of the run has set it, the whole run has it set. */
  lemma ShutdownMonotone(accepted: seq<Accepted>, k: nat, processMessage: string -> string,
                         stopServer: string -> bool)
    requires k <= |accepted|
    ensures RunServer(accepted[..k], processMessage, stopServer).shutdown
        ==> RunServer(accepted, processMessage, stopServer).shutdown
  {
    ServeSplit(Start, accepted[..k], accepted[k..], processMessage, stopServer);
    assert accepted[..k] + accepted[k..] == accepted;
  }

  /** Shutdown set means the loop has exited. */
  lemma {:induction false} ShutdownStops(st: Server, accepted: seq<Accepted>,
                                         processMessage: string -> string, stopServer: string -> bool)
    requires st.shutdown ==> st.status == Stopped
    ensures var r := Serve(st, accepted, processMessage, stopServer);
      r.shutdown ==> r.status == Stopped
    decreases |accepted|
  {
    if |accepted| > 0 && st.status == Accepting {
      ShutdownStops(Turn(st, accepted[0], processMessage, stopServer), accepted[1..],
                    processMessage, stopServer);
    }
  }

  /** Once the loop has left Accepting, connections arriving later change
      nothing: after a stop command no further connection is accepted. */
  lemma NoAcceptAfterStop(accepted: seq<Accepted>, later: seq<Accepted>,
                          processMessage: string -> string, stopServer: string -> bool)
    requires RunServer(accepted, processMessage, stopServer).status != Accepting
    ensures RunServer(accepted + later, processMessage, stopServer)
         == RunServer(accepted, processMessage, stopServer)
  {
    ServeSplit(Start, accepted, later, processMessage, stopServer);
  }

  /** The server shuts down exactly when some connection's session ends in
      a stop request and every connection before it ended by a disconnect
      or an exception. */
  lemma {:induction false} ShutdownIff(st: Server, accepted: seq<Accepted>,
                                       processMessage: string -> string, stopServer: string -> bool)
    requires st.status == Accepting && !st.shutdown
    ensures Serve(st, accepted, processMessage, stopServer).shutdown <==>
      exists i :: 0 <= i < |accepted| && StopsAt(accepted, i, processMessage, stopServer)
    decreases |accepted|
  {
    if |accepted| > 0 {
      var a := accepted[0];
      var next := Turn(st, a, processMessage, stopServer);
      if next.status == Accepting {
        ShutdownIff(next, accepted[1..], processMessage, stopServer);
        assert !StopsAt(accepted, 0, processMessage, stopServer);
        forall i | 1 <= i < |accepted|
          ensures StopsAt(accepted, i, processMessage, stopServer)
              <==> StopsAt(accepted[1..], i - 1, processMessage, stopServer)
        {
          assert accepted[1..][i - 1] == accepted[i];
          assert forall j :: 1 <= j < i ==> accepted[1..][j - 1] == accepted[j];
        }
        if Serve(st, accepted, processMessage, stopServer).shutdown {
          var i :| 0 <= i < |accepted[1..]| && StopsAt(accepted[1..], i, processMessage, stopServer);
          assert StopsAt(accepted, i + 1, processMessage, stopServer);
        }
      } else if next.shutdown {
        assert StopsAt(accepted, 0, processMessage, stopServer);
      } else {
        forall i | 0 <= i < |accepted|
          ensures !StopsAt(accepted, i, processMessage, stopServer)
        {
          if i > 0 {
            assert !Continue(accepted[0], processMessage, stopServer);
          }
        }
      }
    }
  }

  /** The session of accepted[i] ends in a stop request after every earlier
      one returned to accept. */
  predicate StopsAt(accepted: seq<Accepted>, i: nat, processMessage: string -> string,
                    stopServer: string -> bool)
    requires i < |accepted|
  {
    && accepted[i].Conn?
    && RunSession(accepted[i].events, processMessage, stopServer).end == StopRequested
    && forall j :: 0 <= j < i ==> Continue(accepted[j], processMessage, stopServer)
  }

  predicate Continue(a: Accepted, processMessage: string -> string, stopServer: string -> bool) {
    a.Conn? && RunSession(a.events, processMessage, stopServer).end in {Disconnected, Errored}
  }

  // ---------------------------------------------------------------------
  // Instantiation with the classifier of src/utils/message.py. That
  // src/server/common.py's `process_message` and `stop_server` are the two
  // halves of `process` is an assumption of this model.

  function ProcessMessage(message: string): string {
    Message.Process(message).response
  }

  function StopServer(message: string): bool {
    Message.Process(message).shutdown
  }

  /** A chunk carrying text with no whitespace at either end is answered
      and checked for the stop command on that text as is. */
  lemma UnpaddedChunk(data: Chunk, text: string, processMessage: string -> string,
                      stopServer: string -> bool)
    requires Decode(data) == Some(text)
    requires |text| > 0 && !IsSpace(text[0]) && !IsSpace(text[|text| - 1])
    ensures ReplyTo(data, processMessage) == processMessage(text)
    ensures IsStopChunk(data, stopServer) == stopServer(text)
  {
    TrimKeeps(text, IsSpace);
  }

  /** A chunk that is not a stop command is answered and the session
      continues with the rest of the trace. */
  lemma ContinuingChunk(data: Chunk, rest: seq<Event>, processMessage: string -> string,
                        stopServer: string -> bool)
    requires !IsStopChunk(data, stopServer)
    ensures var s := RunSession([Recv(data)] + rest, processMessage, stopServer);
      var r := RunSession(rest, processMessage, stopServer);
      s.sent == [ReplyTo(data, processMessage)] + r.sent && s.end == r.end
  {
    assert ([Recv(data)] + rest)[1..] == rest;
  }

  const Four: Chunk := [0x34]
  const Seven: Chunk := [0x37]
  const Stop: Chunk := [0x73, 0x74, 0x6F, 0x70]

  lemma ScenarioChunks()
    ensures Decode(Four) == Some("4")
    ensures Decode(Seven) == Some("7")
    ensures Decode(Stop) == Some("stop")
  {
    assert Encode("4") == Four;
    assert Encode("7") == Seven;
    assert Encode("stop") == Stop;
    DecodeIff(Four, "4");
    DecodeIff(Seven, "7");
    DecodeIff(Stop, "stop");
  }

  /** The run of a connection sending "4", "7", "stop" for any reply and stop
      functions that treat those three texts as numbers and a stop command. */
  lemma ThreeChunkRun(client: Address, other: Address, later: seq<Event>,
                      processMessage: string -> string, stopServer: string -> bool)
    requires !stopServer("4") && !stopServer("7") && stopServer("stop")
    ensures RunServer([Conn(client, [Recv(Four), Recv(Seven), Recv(Stop)]), Conn(other, later)],
                      processMessage, stopServer)
         == Server([Delivery(client, processMessage("4")), Delivery(client, processMessage("7")),
                    Delivery(client, processMessage("stop"))], true, Stopped)
  {
    ThreeChunkSession(processMessage, stopServer);
    var events := [Recv(Four), Recv(Seven), Recv(Stop)];
    FirstSessionStops(client, events, [Conn(other, later)], processMessage, stopServer);
    assert [Conn(client, events)] + [Conn(other, later)] == [Conn(client, events), Conn(other, later)];
    var sent := [processMessage("4"), processMessage("7"), processMessage("stop")];
    assert Addressed(client, sent) == [Delivery(client, processMessage("4")),
      Delivery(client, processMessage("7")), Delivery(client, processMessage("stop"))];
  }

  /** The session of that connection: three replies, then a stop request. */
  lemma ThreeChunkSession(processMessage: string -> string, stopServer: string -> bool)
    requires !stopServer("4") && !stopServer("7") && stopServer("stop")
    ensures RunSession([Recv(Four), Recv(Seven), Recv(Stop)], processMessage, stopServer)
         == Session([processMessage("4"), processMessage("7"), processMessage("stop")], StopRequested)
  {
    ScenarioChunks();
    UnpaddedChunk(Four, "4", processMessage, stopServer);
    UnpaddedChunk(Seven, "7", processMessage, stopServer);
    UnpaddedChunk(Stop, "stop", processMessage, stopServer);
    var last: seq<Event> := [Recv(Stop)];
    StopAfterReply(Stop, [], processMessage, stopServer);
    assert last == [Recv(Stop)] + [];
    ContinuingChunk(Seven, last, processMessage, stopServer);
    ContinuingChunk(Four, [Recv(Seven)] + last, processMessage, stopServer);
    assert [Recv(Four), Recv(Seven), Recv(Stop)] == [Recv(Four)] + ([Recv(Seven)] + last);
  }

  /** When the first connection's session ends in a stop request, the
      server has sent that session's replies to its client, is shut down,
      and accepts nothing more. */
  lemma FirstSessionStops(client: Address, events: seq<Event>, later: seq<Accepted>,
                          processMessage: string -> string, stopServer: string -> bool)
    requires RunSession(events, processMessage, stopServer).end == StopRequested
    ensures RunServer([Conn(client, events)] + later, processMessage, stopServer)
         == Server(Addressed(client, RunSession(events, processMessage, stopServer).sent), true, Stopped)
  {
    var accepted := [Conn(client, events)] + later;
    assert accepted[0] == Conn(client, events) && accepted[1..] == later;
    var sent := Addressed(client, RunSession(events, processMessage, stopServer).sent);
    var st := Turn(Start, accepted[0], processMessage, stopServer);
    assert [] + sent == sent;
    assert st == Server(sent, true, Stopped);
    assert RunServer(accepted, processMessage, stopServer) == Serve(st, later, processMessage, stopServer);
  }

  /** With that instantiation a connection that sends "4", "7" and "stop"
      gets the even, odd and shutdown replies, and the server stops without
      accepting the next connection. */
  lemma EvenOddStopScenario(client: Address, other: Address, later: seq<Event>)
    ensures RunServer([Conn(client, [Recv(Four), Recv(Seven), Recv(Stop)]), Conn(other, later)],
                      ProcessMessage, StopServer)
         == Server([Delivery(client, Message.EvenText), Delivery(client, Message.OddText),
                    Delivery(client, Message.ShutdownText)], true, Stopped)
  {
    Message.FourSevenStop();
    ThreeChunkRun(client, other, later, ProcessMessage, StopServer);
  }

  /** Unlike `process` on its own, the server strips the text first, so a
      chunk carrying a padded " stop\n" shuts it down. PaddedStopChunk
      gives the six bytes that carry it. */
  lemma PaddedStopShutsDown(data: Chunk, rest: seq<Event>)
    requires Decode(data) == Some(" stop\n")
    ensures RunSession([Recv(data)] + rest, ProcessMessage, StopServer)
         == Session([Message.ShutdownText], StopRequested)
  {
    PaddedStopStrip();
    Message.StopShutsDown("stop");
    StopAfterReply(data, rest, ProcessMessage, StopServer);
  }

  /** The six bytes of " stop\n" are a stop command, answered with the
      shutdown text. */
  lemma PaddedStopReply()
    ensures ReplyTo([0x20, 0x73, 0x74, 0x6F, 0x70, 0x0A], ProcessMessage) == Message.ShutdownText
    ensures IsStopChunk([0x20, 0x73, 0x74, 0x6F, 0x70, 0x0A], StopServer)
  {
    PaddedStopChunk();
    Message.StopShutsDown("stop");
  }

  lemma PaddedStopChunk()
    ensures Decode([0x20, 0x73, 0x74, 0x6F, 0x70, 0x0A]) == Some(" stop\n")
    ensures Strip(" stop\n") == "stop"
  {
    PaddedStopBytes();
    DecodeIff([0x20, 0x73, 0x74, 0x6F, 0x70, 0x0A], " stop\n");
    PaddedStopStrip();
  }

  lemma PaddedStopBytes()
    ensures Encode(" stop\n") == [0x20, 0x73, 0x74, 0x6F, 0x70, 0x0A]
  {
    assert Encode("\n") == [0x0A];
    assert Encode("p\n") == [0x70, 0x0A];
    assert Encode("op\n") == [0x6F, 0x70, 0x0A];
    assert Encode("top\n") == [0x74, 0x6F, 0x70, 0x0A];
    assert Encode("stop\n") == [0x73, 0x74, 0x6F, 0x70, 0x0A];
  }

  lemma PaddedStopStrip()
    ensures Strip(" stop\n") == "stop"
  {
    assert " stop\n" == " " + "stop" + "\n";
    TrimSurrounded(" ", "stop", "\n", IsSpace);
    TrimKeeps("stop", IsSpace);
  }
}
