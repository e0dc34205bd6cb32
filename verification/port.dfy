/** `archer/core/port.py`: a transport-layer port of a remote host. */
module Ports {
  import opened Wrappers

  /** Port numbers the constructor accepts. */
  type Number = n: int | 0 < n < 65536 witness 1

  /** Transport protocols the constructor accepts (the check is case-sensitive). */
  type Proto = s: string | s == "tcp" || s == "udp" witness "tcp"

  /** The state every port and host starts in. */
  const UnknownState: string := "unknown"

  /** A port. The source stores the number in an attribute called `num`. */
  datatype Port = Port(num: Number, proto: Proto, lastActivity: Option<int>, state: string)

  /** `Port.NumberError` and `Port.ProtocolError`. */
  datatype Error = NumberError | ProtocolError

  /** `Port(num, proto)`: the number is checked first, then the protocol; a port that
      passes both carries them unchanged, no last activity and the unknown state. */
  function New(num: int, proto: string): (r: Result<Port, Error>)
    ensures r.Success? <==> 0 < num < 65536 && (proto == "tcp" || proto == "udp")
    ensures !(0 < num < 65536) ==> r == Failure(NumberError)
    ensures 0 < num < 65536 && proto != "tcp" && proto != "udp" ==> r == Failure(ProtocolError)
    ensures r.Success? ==> r.value.num == num && r.value.proto == proto
    ensures r.Success? ==> r.value.lastActivity == None && r.value.state == UnknownState
  {
    if !(0 < num < 65536) then Failure(NumberError)
    else if proto != "tcp" && proto != "udp" then Failure(ProtocolError)
    else Success(Port(num, proto, None, UnknownState))
  }

  /** The number is checked before the protocol: a bad number with a bad protocol
      reports the number, and the protocol check is case-sensitive. */
  lemma NumberCheckedFirst()
    ensures New(0, "icmp") == Failure(NumberError)
    ensures New(65536, "tcp") == Failure(NumberError)
    ensures New(22, "TCP") == Failure(ProtocolError)
    ensures New(65535, "udp").Success?
  {
  }
}
