/** The C batch function over the open driver, and its Go caller. One function
    stands for both C variants, which differ in the address they send to. */
module Inband {
  import opened Common
  import opened Bmc
  import opened BatchEngine

  const BUFFER: nat := 1024

  /** What the batch function returns: its own checks, or the loop's status. */
  datatype ReturnCode = InvalidBufferSize | NotOpened | Done(status: Status)

  /** The opened device. Which messages it takes, which reply comes next and
      which calls fail is up to it. `selects` keeps what select returned. */
  class DriverFile {
    const replyTo: (nat, Message) -> seq<byte>
    var state: Driver
    ghost var selects: seq<int>

    constructor (replyTo: (nat, Message) -> seq<byte>)
      ensures this.replyTo == replyTo && state == Driver(map[], {}, {}, {}, 0) && selects == []
    {
      this.replyTo := replyTo;
      state := Driver(map[], {}, {}, {}, 0);
      selects := [];
    }

    /** `ioctl(fd, IPMICTL_SEND_COMMAND, ...)` */
    method SendCommand(id: nat, m: Message) returns (rc: int)
      modifies this`state
      ensures state == if rc < 0 then old(state).(refused := old(state).refused + {id})
                       else old(state).(inFlight := old(state).inFlight[id := m])
    {
      rc := *;
      state := if rc < 0 then state.(refused := state.refused + {id})
               else state.(inFlight := state.inFlight[id := m]);
    }

    /** `select` on the device: negative for an error, 0 when time ran out. */
    method Select() returns (ready: int)
      modifies this`selects
      ensures selects == old(selects) + [ready]
    {
      ready := *;
      selects := selects + [ready];
    }

    /** `ioctl(fd, IPMICTL_RECEIVE_MSG_TRUNC, ...)`; a failure may lose a message. */
    method ReceiveMessage() returns (rc: int, id: nat, reply: seq<byte>, ghost lost: Option<nat>)
      modifies this`state
      ensures rc >= 0 ==>
        && id in old(state).inFlight && reply == replyTo(id, old(state).inFlight[id])
        && state == old(state).(inFlight := old(state).inFlight - {id}, answered := old(state).answered + {id})
      ensures rc < 0 ==>
        match lost
        case None => state == old(state).(failures := old(state).failures + 1)
        case Some(i) => i in old(state).inFlight && state == old(state).(
          inFlight := old(state).inFlight - {i}, lost := old(state).lost + {i}, failures := old(state).failures + 1)
    {
      rc, id, reply, lost := *, 0, [], None;
      if state.inFlight == map[] || rc < 0 {
        rc := -1;
        var drop: bool := *;
        if drop && state.inFlight != map[] {
          var i :| i in state.inFlight;
          lost := Some(i);
          state := state.(inFlight := state.inFlight - {i}, lost := state.lost + {i});
        }
        state := state.(failures := state.failures + 1);
      } else {
        id :| id in state.inFlight;
        reply := replyTo(id, state.inFlight[id]);
        state := state.(inFlight := state.inFlight - {id}, answered := state.answered + {id});
      }
    }
  }

  predicate Buffers(outputs: seq<Output>) { forall o <- outputs :: |o.data| == BUFFER }

  function MessageOf(input: seq<byte>): Message
    requires |input| >= 2
  {
    Message(input[0], input[1], input[2..])
  }

  /** A message is what it was made from: netfn, command, data. */
  lemma MessageBytes(input: seq<byte>)
    requires |input| >= 2
    ensures var m := MessageOf(input); [m.netfn, m.cmd] + m.data == input
  {
  }

  /** The run the loop makes, as the machine sees it. */
  function ParamsOf(inputs: seq<seq<byte>>, window: int, replyTo: (nat, Message) -> seq<byte>): Params
    requires forall i :: 0 <= i < |inputs| ==> |inputs[i]| >= 2
  {
    Params(seq(|inputs|, i requires 0 <= i < |inputs| => MessageOf(inputs[i])), window, false, replyTo)
  }

  /** The copy loop after a successful receive. */
  method StoreReply(o: Output, reply: seq<byte>) returns (o': Output)
    requires |reply| <= |o.data|
    ensures o' == Stored(o, reply)
  {
    var data := o.data;
    for i := 0 to |reply|
      invariant data == reply[..i] + o.data[i..]
    {
      data := data[i := reply[i]];
    }
    assert reply[..|reply|] == reply;
    o' := Output(data, |reply|, 1);
  }

  /** The loop is at s: the buffers and the device are what s says. */
  ghost predicate IsAt(s: System, p: Params, device: DriverFile, outputs: array<Output>)
    reads device, outputs
  {
    && s.engine.outputs == outputs[..] && s.driver == device.state && p.replyTo == device.replyTo
    && |p.inputs| == outputs.Length && !Ended(s)
  }

  /** The sending half of the loop body. */
  method SendTurn(device: DriverFile, m: Message, outputs: array<Output>, sent: nat, ghost p: Params, ghost s: System)
    returns (ok: bool, ghost event: Event)
    requires IsAt(s, p, device, outputs) && MaySend(p, s.engine) && sent == s.engine.sent && m == p.inputs[sent]
    requires Buffers(outputs[..])
    modifies device`state, outputs
    ensures Buffers(outputs[..]) && event == (if ok then Send else SendFails) && Enabled(p, s, event)
    ensures Next(p, s, event) == System(
              s.engine.(sent := sent + 1, outputs := outputs[..],
                        status := if ok then s.engine.status else CommandNotSent,
                        toReceive := if ok then s.engine.toReceive else s.engine.toReceive - 1),
              device.state)
  {
    outputs[sent] := Pending(outputs[sent]);
    var rc := device.SendCommand(sent, m);
    ok := rc >= 0;
    event := if ok then Send else SendFails;
  }

  /** The receiving half, once the device is ready. */
  method ReceiveTurn(device: DriverFile, outputs: array<Output>, ghost p: Params, ghost s: System)
    returns (ok: bool, ghost event: Event)
    requires IsAt(s, p, device, outputs) && !MaySend(p, s.engine) && !p.counts
    requires forall i <- s.driver.inFlight :: i < outputs.Length
    requires Buffers(outputs[..]) && forall i, m :: |device.replyTo(i, m)| <= BUFFER
    modifies device`state, outputs
    ensures Buffers(outputs[..]) && Enabled(p, s, event) && if ok then event.Receive? else event.ReceiveFails?
    ensures Next(p, s, event) == System(
              s.engine.(outputs := outputs[..], toReceive := s.engine.toReceive - 1,
                        status := if ok then s.engine.status else MessageNotReceived),
              device.state)
  {
    var rc, id, reply, lost := device.ReceiveMessage();
    if rc < 0 {
      return false, ReceiveFails(lost);
    }
    var o := StoreReply(outputs[id], reply);
    outputs[id] := o;
    return true, Receive(id);
  }

  /** The events of a run that waited for the device, against what select
      returned: an error, no time left, or something to receive. */
  ghost predicate AsSelected(run: seq<Event>, selects: seq<int>) {
    if run == [] then selects == []
    else
      var n := |run| - 1;
      match run[n]
      case Send => AsSelected(run[..n], selects)
      case SendFails => AsSelected(run[..n], selects)
      case Receive(_) => selects != [] && selects[|selects| - 1] > 0 && AsSelected(run[..n], selects[..|selects| - 1])
      case ReceiveFails(_) => selects != [] && selects[|selects| - 1] > 0 && AsSelected(run[..n], selects[..|selects| - 1])
      case SelectFails => selects != [] && selects[|selects| - 1] < 0 && AsSelected(run[..n], selects[..|selects| - 1])
      case Timeout => selects != [] && selects[|selects| - 1] == 0 && AsSelected(run[..n], selects[..|selects| - 1])
  }

  /** What a loop that made this run and returned this status made of selects. */
  ghost predicate SelectsSaid(before: seq<int>, after: seq<int>, run: seq<Event>, status: Status) {
    && before <= after
    && var said := after[|before|..];
       && AsSelected(run, said)
       && (status == DeviceTimeout <==> said != [] && said[|said| - 1] == 0)
       && (status == DeviceNotReady <==> said != [] && said[|said| - 1] < 0)
  }

  lemma NothingSaid(before: seq<int>)
    ensures SelectsSaid(before, before, [], IpmiOk)
  {
    assert before[|before|..] == [];
  }

  /** One more event, and what select said if it waited for the device. */
  lemma SaidNext(before: seq<int>, after: seq<int>, run: seq<Event>, status: Status,
                 event: Event, ready: int, status': Status)
    requires SelectsSaid(before, after, run, status) && status != DeviceTimeout && status != DeviceNotReady
    requires match event
             case Send => status' == status
             case SendFails => status' == CommandNotSent
             case Receive(_) => ready > 0 && status' == status
             case ReceiveFails(_) => ready > 0 && status' == MessageNotReceived
             case SelectFails => ready < 0 && status' == DeviceNotReady
             case Timeout => ready == 0 && status' == DeviceTimeout
    ensures SelectsSaid(before, if event.Send? || event.SendFails? then after else after + [ready], run + [event], status')
  {
    var said := after[|before|..];
    assert (after + [ready])[|before|..] == said + [ready];
    assert (run + [event])[..|run|] == run && (said + [ready])[..|said|] == said;
  }

  /** The second half of the loop body: wait for the device, then receive. */
  method WaitTurn(device: DriverFile, outputs: array<Output>, ghost p: Params, ghost s: System)
    returns (trouble: Option<Status>, ghost event: Event, ghost ready: int)
    requires IsAt(s, p, device, outputs) && !MaySend(p, s.engine) && !p.counts
    requires forall i <- s.driver.inFlight :: i < outputs.Length
    requires Buffers(outputs[..]) && forall i, m :: |device.replyTo(i, m)| <= BUFFER
    modifies device, outputs
    ensures Buffers(outputs[..]) && Enabled(p, s, event)
    ensures device.selects == old(device.selects) + [ready]
    ensures match event
            case Receive(_) => ready > 0 && trouble == None
            case ReceiveFails(_) => ready > 0 && trouble == Some(MessageNotReceived)
            case SelectFails => ready < 0 && trouble == Some(DeviceNotReady)
            case Timeout => ready == 0 && trouble == Some(DeviceTimeout)
            case _ => false
    ensures var gaveUp := event.SelectFails? || event.Timeout?;
      Next(p, s, event) == System(
        s.engine.(outputs := outputs[..], returned := gaveUp,
                  toReceive := if gaveUp then s.engine.toReceive else s.engine.toReceive - 1,
                  status := if trouble.Some? then trouble.value else s.engine.status),
        device.state)
  {
    var readyFds := device.Select();
    ready := readyFds;
    if readyFds < 0 {
      return Some(DeviceNotReady), SelectFails, ready;
    }
    if readyFds < 1 {
      return Some(DeviceTimeout), Timeout, ready;
    }
    var ok;
    ok, event := ReceiveTurn(device, outputs, p, s);
    trouble := if ok then None else Some(MessageNotReceived);
  }

  /** The loop, as a run of the machine with receipts not counted; s is where
      the run ended. It gives up on a select that failed or timed out and on
      no other, and receives after every other one. */
  method SendAndReceive(device: DriverFile, ghost p: Params, messages: seq<Message>, outputs: array<Output>, nSim: int)
    returns (status: Status, ghost run: seq<Event>, ghost s: System)
    requires p == Params(messages, nSim, false, device.replyTo)
    requires device.state == Driver(map[], {}, {}, {}, 0) && outputs.Length == |messages|
    requires Buffers(outputs[..]) && forall i, m :: |device.replyTo(i, m)| <= BUFFER
    modifies device, outputs
    ensures RunTo(p, old(outputs[..]), run, s) && Ended(s)
    ensures outputs[..] == s.engine.outputs && status == s.engine.status && device.state == s.driver
    ensures SelectsSaid(old(device.selects), device.selects, run, status)
  {
    hide RunTo, SelectsSaid, Measure, Inv, Runs;
    ghost var selects, before := device.selects, outputs[..];
    NothingSaid(selects);
    RunToStart(p, before);
    var n := |messages|;
    var sent, recvd, toReceive := 0, 0, n;
    status := IpmiOk;
    run, s := [], Start(p, outputs[..]);
    while toReceive > 0
      invariant s == System(Engine(sent, recvd, toReceive, status, outputs[..], false), device.state)
      invariant RunTo(p, before, run, s) && Buffers(outputs[..])
      invariant SelectsSaid(selects, device.selects, run, status) && status != DeviceTimeout && status != DeviceNotReady
      decreases Measure(p, s)
    {
      ghost var event;
      ghost var said, was := device.selects, status;
      if sent < n && sent - recvd < nSim {
        var ok;
        ok, event := SendTurn(device, messages[sent], outputs, sent, p, s);
        if !ok {
          status := CommandNotSent;
          toReceive := toReceive - 1;
        }
        sent := sent + 1;
        SaidNext(selects, said, run, was, event, 0, status);
      } else {
        forall i <- device.state.inFlight ensures i < n { InFlightWasSent(p, before, run, s, i); }
        var trouble;
        ghost var ready;
        trouble, event, ready := WaitTurn(device, outputs, p, s);
        if trouble.Some? {
          status := trouble.value;
        }
        SaidNext(selects, said, run, was, event, ready, status);
        if status == DeviceNotReady || status == DeviceTimeout {
          RunToNext(p, before, run, s, event);
          return status, run + [event], Next(p, s, event);
        }
        toReceive := toReceive - 1;
      }
      RunToNext(p, before, run, s, event);
      run, s := run + [event], Next(p, s, event);
    }
  }

  /** The batch: its checks, then the loop. */
  method BatchCommands(device: DriverFile, opens: bool, inputs: seq<seq<byte>>, outputs: array<Output>, nSim: int)
    returns (code: ReturnCode, ghost run: seq<Event>, ghost s: System)
    requires device.state == Driver(map[], {}, {}, {}, 0) && outputs.Length == |inputs|
    requires Buffers(outputs[..]) && forall i, m :: |device.replyTo(i, m)| <= BUFFER
    modifies device, outputs
    ensures code == InvalidBufferSize <==> exists i :: 0 <= i < |inputs| && |inputs[i]| < 2
    ensures code == NotOpened <==> !opens && forall i :: 0 <= i < |inputs| ==> |inputs[i]| >= 2
    ensures !code.Done? ==> outputs[..] == old(outputs[..])
    ensures code.Done? ==>
      var p := ParamsOf(inputs, nSim, device.replyTo);
      && RunTo(p, old(outputs[..]), run, s) && Ended(s)
      && outputs[..] == s.engine.outputs && code.status == s.engine.status && device.state == s.driver
      && SelectsSaid(old(device.selects), device.selects, run, code.status)
    ensures code == Done(IpmiOk) ==>
      forall i :: 0 <= i < |inputs| ==> Holds(outputs[i], device.replyTo(i, MessageOf(inputs[i])))
  {
    run, s := [], System(Engine(0, 0, 0, IpmiOk, [], false), device.state);
    for i := 0 to |inputs|
      invariant forall j :: 0 <= j < i ==> |inputs[j]| >= 2
    {
      if |inputs[i]| < 2 {
        return InvalidBufferSize, run, s;
      }
    }
    if !opens {
      return NotOpened, run, s;
    }
    ghost var before := outputs[..];
    ghost var p := ParamsOf(inputs, nSim, device.replyTo);
    var messages := seq(|inputs|, i requires 0 <= i < |inputs| => MessageOf(inputs[i]));
    assert p.inputs == messages;
    var status;
    status, run, s := SendAndReceive(device, p, messages, outputs, nSim);
    if status == IpmiOk {
      OkMeansEveryReply(p, before, run, s);
    }
    return Done(status), run, s;
  }

  /** The window the Go callers pass. */
  const N_SIM: int := 3

  /** With it a batch can succeed exactly if it has at most three requests. */
  lemma ThreeFit(p: Params, before: seq<Output>)
    requires p.window == N_SIM && !p.counts && |before| == |p.inputs|
    ensures (exists run, s :: Succeeds(p, before, run, s)) <==> |p.inputs| <= 3
  {
    SucceedsIff(p, before);
  }

  /** `BatchExecRaw` of the in-band layer: on success the reply to each request,
      in request order; with more than three requests there is no success. */
  method BatchExecRaw(device: DriverFile, opens: bool, requests: seq<seq<byte>>)
    returns (r: Result<seq<IpmiResponse>>)
    requires |requests| >= 1 && device.state == Driver(map[], {}, {}, {}, 0)
    requires forall i, m :: |device.replyTo(i, m)| <= BUFFER
    modifies device
    ensures r.Ok? ==>
      && |requests| <= 3 && |r.value| == |requests|
      && forall i :: 0 <= i < |requests| ==>
           |requests[i]| >= 2 && r.value[i] == IpmiResponse(device.replyTo(i, MessageOf(requests[i])), 1)
  {
    var empty := Output(Zeros(BUFFER), 0, 0);
    var outputs := new Output[|requests|](_ => empty);
    ghost var before := outputs[..];
    var code, run, s := BatchCommands(device, opens, requests, outputs, N_SIM);
    if code != Done(IpmiOk) {
      return Err(ExecFailed);
    }
    SuccessNeedsWindow(ParamsOf(requests, N_SIM, device.replyTo), before, run, s);
    var results: seq<IpmiResponse> := [];
    for i := 0 to outputs.Length
      invariant |results| == i
      invariant forall j :: 0 <= j < i ==> results[j] == IpmiResponse(device.replyTo(j, MessageOf(requests[j])), 1)
    {
      var o := outputs[i];
      results := results + [IpmiResponse(o.data[..o.dataLen], o.isValid)];
    }
    return Ok(results);
  }
}
