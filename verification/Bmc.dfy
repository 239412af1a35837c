/** The far end of an IPMI request, and the request type.

    A controller answers at every moment with bytes or not at all; what it
    answers may change from one moment to the next. The log of requests is
    also the clock: the request at position t was sent at time t. */
module Bmc {
  import opened Common

  type Answer = (nat, seq<byte>) -> Option<seq<byte>>

  class Controller {
    const answer: Answer
    var log: seq<seq<byte>>

    constructor (answer: Answer)
      ensures this.answer == answer && log == []
    {
      this.answer := answer;
      log := [];
    }

    /** `ExecRaw`: None is a non-nil error. */
    method ExecRaw(request: seq<byte>) returns (reply: Option<seq<byte>>)
      modifies this
      ensures log == old(log) + [request]
      ensures reply == answer(|old(log)|, request)
    {
      reply := answer(|log|, request);
      log := log + [request];
    }
  }

  /** `IpmiResponse` */
  datatype IpmiResponse = IpmiResponse(data: seq<byte>, isValid: nat)

  /** `IpmiRequest`: the data is a slice, so copies of the struct share it. */
  datatype IpmiRequest = IpmiRequest(data: array<byte>, channel: int, slave: byte) {

    /** A request with the same contents whose bytes are shared with nobody. */
    method Clone() returns (c: IpmiRequest)
      ensures fresh(c.data)
      ensures c.data[..] == data[..] && c.channel == channel && c.slave == slave
    {
      var cloned := new byte[data.Length](_ => 0);
      for i := 0 to data.Length
        invariant cloned[..i] == data[..i]
      {
        cloned[i] := data[i];
      }
      c := IpmiRequest(cloned, channel, slave);
    }
  }
}
