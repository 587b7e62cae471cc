/** The prompt loops of the programs: read lines from the user until one
    is acceptable. src/server/udp_server.py asks for its port this way, and
    `config_server` in src/client/common.py its address and its port. */
module Prompt {
  import opened Wrappers

  /** The first line `accept` takes, as the value it yields and the line's
      index. None when the lines run out first: `input` then raises
      EOFError, which none of these prompts catches. */
  function FirstAccepted<T>(lines: seq<string>, accept: string -> Option<T>): (r: Option<(T, nat)>)
    ensures r.Some? ==> r.value.1 < |lines| && accept(lines[r.value.1]) == Some(r.value.0)
    decreases |lines|
  {
    if |lines| == 0 then None
    else match accept(lines[0])
      case Some(v) => Some((v, 0))
      case None =>
        match FirstAccepted(lines[1..], accept)
        case None => None
        case Some((v, i)) => Some((v, i + 1))
  }

  /** The loop gives up only when no line is acceptable, and otherwise
      stops at the first acceptable line: every line before it is
      rejected. */
  lemma {:induction false} FirstAcceptedIsFirst<T>(lines: seq<string>, accept: string -> Option<T>)
    ensures FirstAccepted(lines, accept).None? <==> forall i :: 0 <= i < |lines| ==> accept(lines[i]).None?
    ensures FirstAccepted(lines, accept).Some? ==>
      forall j :: 0 <= j < FirstAccepted(lines, accept).value.1 ==> accept(lines[j]).None?
    decreases |lines|
  {
    if |lines| > 0 && accept(lines[0]).None? {
      var tail := lines[1..];
      FirstAcceptedIsFirst(tail, accept);
      assert forall i :: 1 <= i < |lines| ==> lines[i] == tail[i - 1];
    }
  }
}
