/** The clients' server selection, `config_server` in src/client/common.py:
    an IPv4 address, then a port, each read line by line from the user
    until one is acceptable, with an empty line choosing the default.
    `ipaddress.IPv4Address` is a library call and stays a parameter: a
    validity predicate and the normal form it prints. */
module ClientConfig {
  import opened Wrappers
  import opened PyText
  import opened PyInt
  import opened Prompt

  const DefaultIp := "127.0.0.1"
  const DefaultPort := 25535
  /** Ports below 1024 are left to the operating system. */
  const MinPort := 1024
  const MaxPort := 65535

  predicate InRange(port: int) {
    MinPort <= port <= MaxPort
  }

  datatype Config = Config(ip: string, port: int)

  /** One answer to the address prompt (lines 20-28): an empty answer
      picks the default, a valid address is kept in its normal form, and
      anything else is rejected. */
  function IpAnswer(line: string, isIPv4: string -> bool, normalize: string -> string): (r: Option<string>)
    ensures r.None? <==> |Strip(line)| > 0 && !isIPv4(Strip(line))
    ensures r.Some? && |Strip(line)| > 0 ==> r.value == normalize(Strip(line))
  {
    var ip := Strip(line);
    if |ip| == 0 then Some(DefaultIp)
    else if isIPv4(ip) then Some(normalize(ip))
    else None
  }

  /** One answer to the port prompt (lines 31-41): an empty answer picks
      the default; a number is taken only inside 1024..65535. */
  function PortAnswer(line: string): (r: Option<int>)
    ensures r.Some? ==> InRange(r.value)
  {
    var port := Strip(line);
    if |port| == 0 then Some(DefaultPort)
    else match ParseInt(port)
      case Some(p) => if InRange(p) then Some(p) else None
      case None => None
  }

  /** `config_server`: the address prompt first, then the port prompt on
      the lines after the accepted address. */
  function ConfigServer(lines: seq<string>, isIPv4: string -> bool, normalize: string -> string): (r: Option<Config>)
    ensures r.Some? ==> InRange(r.value.port)
  {
    match FirstAccepted(lines, line => IpAnswer(line, isIPv4, normalize))
    case None => None
    case Some((ip, i)) =>
      match FirstAccepted(lines[i + 1..], PortAnswer)
      case None => None
      case Some((port, _)) => Some(Config(ip, port))
  }

  /** The default port itself lies in the accepted range. */
  lemma DefaultPortInRange()
    ensures InRange(DefaultPort)
    ensures PortAnswer("") == Some(DefaultPort)
  {
  }

  /** An empty or all-blank address answer picks the loopback default,
      whatever the validity predicate says. */
  lemma BlankIpIsDefault(line: string, isIPv4: string -> bool, normalize: string -> string)
    requires All(line, IsSpace)
    ensures IpAnswer(line, isIPv4, normalize) == Some(DefaultIp)
  {
    TrimLeftAllP(line, IsSpace);
  }

  /** Surrounding whitespace does not change an address answer: the
      answer is stripped before it is checked. */
  lemma IpAnswerStripped(pre: string, line: string, post: string,
                         isIPv4: string -> bool, normalize: string -> string)
    requires All(pre, IsSpace) && All(post, IsSpace)
    ensures IpAnswer(pre + line + post, isIPv4, normalize) == IpAnswer(line, isIPv4, normalize)
  {
    TrimSurrounded(pre, line, post, IsSpace);
  }

  /** An all-blank port answer picks the default port. */
  lemma BlankPortIsDefault(line: string)
    requires All(line, IsSpace)
    ensures PortAnswer(line) == Some(DefaultPort)
  {
    TrimLeftAllP(line, IsSpace);
  }

  /** A port answer that is a number is accepted exactly when the number
      lies in 1024..65535, both ends included. */
  lemma PortAnswerRange(line: string, p: int)
    requires ParseInt(Strip(line)) == Some(p)
    ensures PortAnswer(line).Some? <==> MinPort <= p <= MaxPort
    ensures PortAnswer(line).Some? ==> PortAnswer(line) == Some(p)
  {
  }

  /** A non-blank answer that `int()` rejects is rejected. */
  lemma NonNumericPortRejected(line: string)
    requires |Strip(line)| > 0 && ParseInt(Strip(line)).None?
    ensures PortAnswer(line).None?
  {
  }

  /** The answer is taken from the address prompt through the first
      accepted line; the port prompt sees only the lines after it. */
  lemma {:induction false} IpBeforePort(ipLines: seq<string>, portLines: seq<string>,
                                        isIPv4: string -> bool, normalize: string -> string)
    requires |ipLines| > 0
    requires IpAnswer(ipLines[|ipLines| - 1], isIPv4, normalize).Some?
    requires forall j :: 0 <= j < |ipLines| - 1 ==> IpAnswer(ipLines[j], isIPv4, normalize).None?
    ensures ConfigServer(ipLines + portLines, isIPv4, normalize) ==
      match FirstAccepted(portLines, PortAnswer)
      case None => None
      case Some((port, _)) => Some(Config(IpAnswer(ipLines[|ipLines| - 1], isIPv4, normalize).value, port))
  {
    var accept := line => IpAnswer(line, isIPv4, normalize);
    var lines := ipLines + portLines;
    var n := |ipLines| - 1;
    FirstAcceptedIsFirst(lines, accept);
    assert accept(lines[n]).Some?;
    var i := FirstAccepted(lines, accept).value.1;
    assert i == n;
    assert lines[n + 1..] == portLines;
  }

  /** A plain digit answer is read as its decimal value. */
  lemma DigitAnswer(line: string)
    requires |line| > 0 && AllDigits(line) && |line| <= MaxStrDigits
    ensures PortAnswer(line) == (if InRange(Value(line)) then Some(Value(line)) else None)
  {
    TrimKeeps(line, IsSpace);
    UnsignedLiteral(line);
    PortAnswerRange(line, Value(line));
  }

  /** 1024 is the lowest port accepted. */
  lemma AcceptsLowest()
    ensures PortAnswer("1024") == Some(1024)
  {
    DigitAnswer("1024");
    assert "1024"[..3] == "102" && "102"[..2] == "10" && "10"[..1] == "1";
    assert Value("1024") == 1024;
  }

  /** 1023 is reserved and rejected. */
  lemma RejectsBelowLowest()
    ensures PortAnswer("1023").None?
  {
    DigitAnswer("1023");
    assert "1023"[..3] == "102" && "102"[..2] == "10" && "10"[..1] == "1";
    assert Value("1023") == 1023;
  }

  /** 65535 is the highest port accepted. */
  lemma AcceptsHighest()
    ensures PortAnswer("65535") == Some(65535)
  {
    assert "65535"[..4] == "6553" && "6553"[..3] == "655" && "655"[..2] == "65" && "65"[..1] == "6";
    DigitAnswer("65535");
    assert Value("65535") == 65535;
  }

  /** 65536 is out of range and rejected. */
  lemma RejectsAboveHighest()
    ensures PortAnswer("65536").None?
  {
    assert "65536"[..4] == "6553" && "6553"[..3] == "655" && "655"[..2] == "65" && "65"[..1] == "6";
    DigitAnswer("65536");
    assert Value("65536") == 65536;
  }

  /** Rejected port answers are skipped until an acceptable one: a
      reserved port, a word and an out-of-range port, then 65535. */
  lemma PortRetries()
    ensures FirstAccepted(["80", "x", "65536", "65535"], PortAnswer) == Some((65535, 3))
  {
    DigitAnswer("80");
    assert "80"[..1] == "8";
    assert Value("80") == 80;
    TrimKeeps("x", IsSpace);
    StrayCharRejected("x", 0);
    RejectsAboveHighest();
    AcceptsHighest();
    var lines := ["80", "x", "65536", "65535"];
    assert lines[1..] == ["x", "65536", "65535"];
    assert lines[1..][1..] == ["65536", "65535"];
    assert lines[1..][1..][1..] == ["65535"];
  }
}
