/** The request classifier of src/utils/message.py: `process(message)`
    returns the reply text and whether the server should shut down. */
module Message {
  import opened Wrappers
  import opened PyText
  import opened PyInt

  /** `BUFFER_SIZE` of message.py, line 1. Neither modelled server reads it:
      the UDP server passes its own literal 2048 to `recvfrom`. */
  const BufferSize: nat := 2048

  const ShutdownText := "The server has shut down."
  const EvenText := "The number you entered is even."
  const OddText := "The number you entered is odd."
  const NotNumberText := "You have not entered a number. Please try again."

  datatype Reply = Reply(response: string, shutdown: bool)

  /** `message.lower() == "stop"`: compared as given, with no trimming. */
  predicate IsStop(message: string) {
    Lower(message) == "stop"
  }

  /** Python's `n % 2 == 0`. Python's `%` floors, Dafny's is Euclidean; for
      the positive divisor 2 both give 0 or 1, so they agree. */
  predicate IsEven(n: int) {
    n % 2 == 0
  }

  /** `process(message)`. `int()` raising ValueError is the None case of
      ParseInt; nothing else can raise. */
  function Process(message: string): (r: Reply)
    ensures r.shutdown <==> IsStop(message)
    ensures r.shutdown <==> r.response == ShutdownText
    ensures r.response in {ShutdownText, EvenText, OddText, NotNumberText}
  {
    if IsStop(message) then Reply(ShutdownText, true)
    else match ParseInt(message)
      case Some(n) => Reply(if IsEven(n) then EvenText else OddText, false)
      case None => Reply(NotNumberText, false)
  }

  /** Exactly the four-letter word "stop" in any mix of ASCII case. */
  lemma IsStopChars(message: string)
    ensures IsStop(message) <==>
      && |message| == 4
      && message[0] in "sS" && message[1] in "tT"
      && message[2] in "oO" && message[3] in "pP"
  {
    if |message| == 4 {
      var l := Lower(message);
      assert l[0] == LowerChar(message[0]) && l[1] == LowerChar(message[1]);
      assert l[2] == LowerChar(message[2]) && l[3] == LowerChar(message[3]);
      if IsStop(message) {
        assert l[0] == 's' && l[1] == 't' && l[2] == 'o' && l[3] == 'p';
      }
    }
  }

  /** A stop command in any case gets the shutdown reply. */
  lemma StopShutsDown(message: string)
    requires |message| == 4
    requires message[0] in "sS" && message[1] in "tT"
    requires message[2] in "oO" && message[3] in "pP"
    ensures Process(message) == Reply(ShutdownText, true)
  {
    IsStopChars(message);
  }

  /** The decimal form of any integer within int()'s digit limit is
      classified by its parity (Python's floor modulus), never as a shutdown. */
  lemma ProcessShowInt(n: int)
    requires DigitCount(n) <= MaxStrDigits
    ensures Process(ShowInt(n)) == Reply(if n % 2 == 0 then EvenText else OddText, false)
  {
    ParseShow(n);
    ProcessParses(ShowInt(n), n);
  }

  /** Every string int() accepts is classified by the parity of its value. */
  lemma ProcessParses(message: string, n: int)
    requires ParseInt(message) == Some(n)
    ensures Process(message).response == (if n % 2 == 0 then EvenText else OddText)
    ensures !Process(message).shutdown
  {
    IsStopChars(message);
    ParseAlphabet(message);
  }

  /** Everything that is neither a stop command nor accepted by int() gets
      the not-a-number reply; and that reply is given for nothing else. */
  lemma NotNumberIff(message: string)
    ensures Process(message) == Reply(NotNumberText, false)
        <==> !IsStop(message) && ParseInt(message).None?
  {
  }

  /** Surrounding whitespace does not change a number's classification:
      " 4 " is even. */
  lemma SpacedFourIsEven()
    ensures Process(" 4 ") == Reply(EvenText, false)
  {
    UnsignedLiteral("4");
    ParseIgnoresSpace(" ", "4", " ");
    assert " " + "4" + " " == " 4 ";
    ProcessParses(" 4 ", 4);
  }

  /** A leading "+" is accepted: "+4" is even. */
  lemma PlusFourIsEven()
    ensures Process("+4") == Reply(EvenText, false)
  {
    SignedLiteral('+', "4");
    assert ['+'] + "4" == "+4";
    ProcessParses("+4", 4);
  }

  /** Parity follows the floor modulus for negative numbers: -4 is even. */
  lemma MinusFourIsEven()
    ensures Process("-4") == Reply(EvenText, false)
  {
    SignedLiteral('-', "4");
    assert ['-'] + "4" == "-4";
    ProcessParses("-4", -4);
  }

  /** ... and -3 is odd. */
  lemma MinusThreeIsOdd()
    ensures Process("-3") == Reply(OddText, false)
  {
    SignedLiteral('-', "3");
    assert ['-'] + "3" == "-3";
    ProcessParses("-3", -3);
  }

  /** No trimming before the stop test: " stop" and "stop\n" are not
      shutdown commands, and since int() rejects them too they are answered
      as not-a-number. */
  lemma PaddedStopIsNotStop()
    ensures Process(" stop") == Reply(NotNumberText, false)
    ensures Process("stop\n") == Reply(NotNumberText, false)
  {
    IsStopChars(" stop");
    IsStopChars("stop\n");
    StrayCharRejected(" stop", 1);
    StrayCharRejected("stop\n", 0);
  }

  /** The not-a-number examples: "", "abc", "12a" and "1 2". */
  lemma NotNumbers()
    ensures Process("") == Reply(NotNumberText, false)
    ensures Process("abc") == Reply(NotNumberText, false)
    ensures Process("12a") == Reply(NotNumberText, false)
    ensures Process("1 2") == Reply(NotNumberText, false)
  {
    IsStopChars("");
    IsStopChars("abc");
    IsStopChars("12a");
    IsStopChars("1 2");
    StrayCharRejected("abc", 0);
    StrayCharRejected("12a", 2);
    InnerSpaceRejected("1", "2");
    assert "1" + " " + "2" == "1 2";
  }

  /** A space between two runs of digits makes int() fail. */
  lemma InnerSpaceRejected(a: string, b: string)
    requires |a| > 0 && AllDigits(a) && |b| > 0 && AllDigits(b)
    ensures ParseInt(a + " " + b).None?
  {
    var s := a + " " + b;
    assert s[0] == a[0] && s[|s| - 1] == b[|b| - 1] && s[|a|] == ' ';
    ParseUntrimmed(s);
    if ParseLiteral(s).Some? {
      LiteralAlphabet(s);
    }
  }

  /** "4" is even, "7" is odd, "stop" shuts down. */
  lemma FourSevenStop()
    ensures Process("4") == Reply(EvenText, false)
    ensures Process("7") == Reply(OddText, false)
    ensures Process("stop") == Reply(ShutdownText, true)
  {
    DigitIsClassified(4);
    DigitIsClassified(7);
    StopShutsDown("stop");
  }

  lemma DigitIsClassified(n: nat)
    requires n < 10
    ensures Process([DigitChar(n)]) == Reply(if n % 2 == 0 then EvenText else OddText, false)
  {
    ProcessShowInt(n);
  }
}
