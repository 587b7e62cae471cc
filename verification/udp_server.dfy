/** The UDP server of src/server/udp_server.py: a port prompt, then a
    receive loop answering every datagram to its own sender. It has its own
    classifier (`str.isdigit`, no stripping, no stop command) and no error
    handling: a datagram that is not UTF-8 ends the program. */
module UdpServer {
  import opened Wrappers
  import opened PyText
  import opened PyInt
  import opened Utf8
  import opened Net
  import opened Prompt
  import Message

  const EvenReply := "The number you've entered is even.\n"
  const OddReply := "The number you've entered is odd.\n"
  const NotNumberReply := "You have not entered a number. Please try again.\n"

  /** The prompt loop of lines 3-8 over the operator's input lines: the
      first line `int()` accepts. None when the lines run out first (Python's
      `input` then raises EOFError, which nothing catches). The port is not
      range-checked. */
  function PromptPort(lines: seq<string>): (port: Option<int>)
    ensures port.Some? ==> exists i :: 0 <= i < |lines| && ParseInt(lines[i]) == port
  {
    match FirstAccepted(lines, ParseInt)
    case None => None
    case Some((p, i)) =>
      assert ParseInt(lines[i]) == Some(p);
      Some(p)
  }

  /** The prompt keeps the first accepted line and skips every line before
      it; it gives up only when no line is accepted. */
  lemma PromptPortFirst(lines: seq<string>)
    ensures PromptPort(lines).None? <==> forall i :: 0 <= i < |lines| ==> ParseInt(lines[i]).None?
    ensures PromptPort(lines).Some? ==>
      exists i :: 0 <= i < |lines| && ParseInt(lines[i]) == PromptPort(lines)
        && forall j :: 0 <= j < i ==> ParseInt(lines[j]).None?
  {
    FirstAcceptedIsFirst(lines, ParseInt);
    if FirstAccepted(lines, ParseInt).Some? {
      var i := FirstAccepted(lines, ParseInt).value.1;
      assert ParseInt(lines[i]) == PromptPort(lines);
    }
  }

  /** A port above 65535 is accepted by the prompt. */
  lemma PortAboveRange()
    ensures PromptPort(["70000"]) == Some(70000)
  {
    UnsignedLiteral("70000");
    assert "70000"[..4] == "7000";
    assert "7000"[..3] == "700";
    assert "700"[..2] == "70";
    assert "70"[..1] == "7";
    assert Value("70000") == 70000;
  }

  /** A negative port is accepted too, after a rejected line. */
  lemma NegativePort()
    ensures PromptPort(["abc", "-1"]) == Some(-1)
  {
    StrayCharRejected("abc", 0);
    SignedLiteral('-', "1");
    assert ['-'] + "1" == "-1";
    assert ["abc", "-1"][1..] == ["-1"];
  }

  /** `message.isdigit()`, with only ASCII digits counted as digits. */
  predicate IsDigits(message: string) {
    |message| > 0 && AllDigits(message)
  }

  /** Lines 21-25. None where `int(message)` would raise ValueError, which
      nothing catches; with ASCII digits that can only be the digit limit. */
  function Respond(message: string): (r: Option<string>)
    ensures r.Some? ==> |r.value| > 0 && r.value[|r.value| - 1] == '\n'
  {
    if IsDigits(message) then
      match ParseInt(message)
      case Some(n) => Some(if n % 2 == 0 then EvenReply else OddReply)
      case None => None
    else Some(NotNumberReply)
  }

  /** A message within the digit limit is always answered: all-digit ones
      by the parity of their value, everything else as not a number. */
  lemma RespondClassifies(message: string)
    requires |message| <= MaxStrDigits
    ensures Respond(message) == Some(
      if !IsDigits(message) then NotNumberReply
      else if Value(message) % 2 == 0 then EvenReply else OddReply)
  {
    if IsDigits(message) {
      RespondDigits(message);
    }
  }

  /** An all-digit message is answered by the parity of its value. */
  lemma {:induction false} RespondDigits(message: string)
    requires IsDigits(message) && |message| <= MaxStrDigits
    ensures Respond(message) == Some(if Value(message) % 2 == 0 then EvenReply else OddReply)
  {
    UnsignedLiteral(message);
    RespondParsed(message, Value(message));
  }

  /** An all-digit message is answered by the parity of what int() reads. */
  lemma RespondParsed(message: string, n: int)
    requires IsDigits(message) && ParseInt(message) == Some(n)
    ensures Respond(message) == Some(if n % 2 == 0 then EvenReply else OddReply)
  {
  }

  /** The byte count passed to `recvfrom`. */
  const RecvSize: nat := 2048

  /** What `recvfrom(2048)` hands over of a datagram: at most the first
      2048 bytes, the rest discarded. */
  function Received(datagram: Bytes): (data: Bytes)
    ensures |data| <= RecvSize && |data| <= |datagram|
    ensures |datagram| > RecvSize ==> |data| == RecvSize
    ensures data == datagram[..|data|]
    ensures |datagram| <= RecvSize ==> data == datagram
  {
    if |datagram| <= RecvSize then datagram else datagram[..RecvSize]
  }

  datatype Datagram = Datagram(client: Address, payload: Bytes)

  datatype Reply = Reply(to: Address, response: string)

  /** The replies sent, in order, and whether the loop was ended by an
      uncaught exception. Otherwise it is still waiting in `recvfrom`. */
  datatype Outcome = Outcome(replies: seq<Reply>, crashed: bool)

  /** The answer to one datagram, None if handling it raises. */
  function Handle(d: Datagram): (h: Option<Reply>)
    ensures h.Some? ==> h.value.to == d.client
    ensures h.Some? ==> |h.value.response| > 0 && h.value.response[|h.value.response| - 1] == '\n'
    ensures Decode(Received(d.payload)).None? ==> h.None?
  {
    match Decode(Received(d.payload))
    case None => None
    case Some(message) =>
      match Respond(message)
      case None => None
      case Some(response) => Some(Reply(d.client, response))
  }

  /** The receive loop of lines 15-27 over the datagrams that arrive,
      with the handling of one datagram as a parameter. */
  function ServeWith(datagrams: seq<Datagram>, handle: Datagram -> Option<Reply>): (o: Outcome)
    ensures |o.replies| <= |datagrams|
    ensures o.crashed <==> |o.replies| < |datagrams|
    decreases |datagrams|
  {
    if |datagrams| == 0 then Outcome([], false)
    else match handle(datagrams[0])
      case None => Outcome([], true)
      case Some(reply) =>
        var rest := ServeWith(datagrams[1..], handle);
        Outcome([reply] + rest.replies, rest.crashed)
  }

  /** The server's receive loop. */
  function Serve(datagrams: seq<Datagram>): (o: Outcome)
    ensures |o.replies| <= |datagrams|
    ensures o.crashed <==> |o.replies| < |datagrams|
  {
    ServeWith(datagrams, Handle)
  }

  /** Reply i is the handling of datagram i: the loop answers the
      datagrams in order and skips none. */
  lemma {:induction false} RepliesInOrder(datagrams: seq<Datagram>, handle: Datagram -> Option<Reply>)
    ensures var o := ServeWith(datagrams, handle);
      forall i :: 0 <= i < |o.replies| ==> handle(datagrams[i]) == Some(o.replies[i])
    decreases |datagrams|
  {
    if |datagrams| > 0 && handle(datagrams[0]).Some? {
      var tail := datagrams[1..];
      RepliesInOrder(tail, handle);
      var o := ServeWith(datagrams, handle);
      var r := ServeWith(tail, handle);
      forall i | 1 <= i < |o.replies|
        ensures handle(datagrams[i]) == Some(o.replies[i])
      {
        assert datagrams[i] == tail[i - 1] && o.replies[i] == r.replies[i - 1];
      }
    }
  }

  /** The loop stops only at a datagram whose handling fails: the first
      one, and only if there is one. */
  lemma {:induction false} StopsAtFirstFailure(datagrams: seq<Datagram>, handle: Datagram -> Option<Reply>)
    ensures var o := ServeWith(datagrams, handle);
      && (o.crashed <==> exists i :: 0 <= i < |datagrams| && handle(datagrams[i]).None?)
      && (o.crashed ==> handle(datagrams[|o.replies|]).None?)
    decreases |datagrams|
  {
    if |datagrams| > 0 && handle(datagrams[0]).Some? {
      var tail := datagrams[1..];
      StopsAtFirstFailure(tail, handle);
      assert forall i :: 1 <= i < |datagrams| ==> datagrams[i] == tail[i - 1];
    }
  }

  /** Reply i goes to the sender of datagram i, never to another one, and
      answers that datagram's own message. */
  lemma RepliesToSender(datagrams: seq<Datagram>)
    ensures var o := Serve(datagrams);
      forall i :: 0 <= i < |o.replies| ==>
        Handle(datagrams[i]) == Some(o.replies[i]) && o.replies[i].to == datagrams[i].client
  {
    RepliesInOrder(datagrams, Handle);
  }

  /** The server stops only by crashing, at the first datagram whose
      handling raises. */
  lemma CrashesAtFirstFailure(datagrams: seq<Datagram>)
    ensures var o := Serve(datagrams);
      && (o.crashed <==> exists i :: 0 <= i < |datagrams| && Handle(datagrams[i]).None?)
      && (o.crashed ==> Handle(datagrams[|o.replies|]).None?)
  {
    StopsAtFirstFailure(datagrams, Handle);
  }

  /** Within the 2048-byte read only undecodable bytes can raise: the text
      is at most 2048 characters, under int()'s 4300-digit limit. */
  lemma HandleFailsOnlyOnDecode(d: Datagram)
    ensures Handle(d).None? <==> Decode(Received(d.payload)).None?
  {
    if Decode(Received(d.payload)).Some? {
      RespondClassifies(Decode(Received(d.payload)).value);
    }
  }

  /** No datagram stops the server: with every datagram UTF-8, every one of
      them is answered and the loop is still receiving. */
  lemma NoStopCommand(datagrams: seq<Datagram>)
    requires forall i :: 0 <= i < |datagrams| ==> Decode(Received(datagrams[i].payload)).Some?
    ensures Serve(datagrams) == Outcome(Serve(datagrams).replies, false)
    ensures |Serve(datagrams).replies| == |datagrams|
  {
    CrashesAtFirstFailure(datagrams);
    forall i | 0 <= i < |datagrams|
      ensures Handle(datagrams[i]).Some?
    {
      HandleFailsOnlyOnDecode(datagrams[i]);
    }
  }

  /** Every reply ends with a newline. */
  lemma RepliesEndWithNewline(datagrams: seq<Datagram>)
    ensures forall r :: r in Serve(datagrams).replies ==>
      |r.response| > 0 && r.response[|r.response| - 1] == '\n'
  {
    RepliesToSender(datagrams);
    var o := Serve(datagrams);
    forall r | r in o.replies
      ensures |r.response| > 0 && r.response[|r.response| - 1] == '\n'
    {
      var i :| 0 <= i < |o.replies| && o.replies[i] == r;
      var message := Decode(Received(datagrams[i].payload)).value;
      assert Respond(message) == Some(r.response);
    }
  }

  /** Negative numbers, padded numbers and "stop" are not digit strings, so
      they all get the not-a-number reply. */
  lemma NotDigits()
    ensures Respond("-3") == Some(NotNumberReply)
    ensures Respond(" 4") == Some(NotNumberReply)
    ensures Respond("4\n") == Some(NotNumberReply)
    ensures Respond("stop") == Some(NotNumberReply)
    ensures Respond("") == Some(NotNumberReply)
  {
    assert !IsAsciiDigit("-3"[0]) && !IsAsciiDigit(" 4"[0]) && !IsAsciiDigit("4\n"[1]);
    assert !IsAsciiDigit("stop"[0]);
  }

  /** The loop over two datagrams that are both handled. */
  lemma TwoDatagramRun(d: Datagram, e: Datagram, handle: Datagram -> Option<Reply>)
    requires handle(d).Some? && handle(e).Some?
    ensures ServeWith([d, e], handle) == Outcome([handle(d).value, handle(e).value], false)
  {
    assert [d, e][1..] == [e];
    assert [e][1..] == [];
  }

  /** The one-byte datagram "3" is answered as odd, to its sender. */
  lemma OddDatagram(a: Address)
    ensures Handle(Datagram(a, [0x33])) == Some(Reply(a, OddReply))
  {
    assert Encode("3") == [0x33];
    DecodeIff([0x33], "3");
    RespondDigits("3");
    assert Value("3") == 3;
  }

  /** Two clients sending "3" each get their own odd reply. */
  lemma TwoClientsScenario(a: Address, b: Address)
    ensures Serve([Datagram(a, [0x33]), Datagram(b, [0x33])])
         == Outcome([Reply(a, OddReply), Reply(b, OddReply)], false)
  {
    OddDatagram(a);
    OddDatagram(b);
    TwoDatagramRun(Datagram(a, [0x33]), Datagram(b, [0x33]), Handle);
  }
}
