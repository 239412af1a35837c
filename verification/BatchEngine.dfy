/** The windowed request/response engine of `IPMI_BatchCommands` and
    `IPMI_System_BatchCommands`, as a state machine over its loop turns.

    The code sends while `sent - recvd` is below the window, but nothing ever
    advances `recvd`. `counts` says whether a receipt does: false is the code,
    true what the window test is written for. */
module BatchEngine {
  import opened Common

  datatype Status =
    | IpmiOk
    | CommandNotSent
    | DeviceNotReady
    | DeviceTimeout
    | MessageNotReceived

  /** netfn, command and data of a request. */
  datatype Message = Message(netfn: byte, cmd: byte, data: seq<byte>)

  /** One of the caller's result structures; its buffer keeps old bytes behind
      the first dataLen ones. */
  datatype Output = Output(data: seq<byte>, dataLen: nat, isValid: int)

  /** `replyTo` is the reply to a message sent under an id; equal messages may
      get different replies. */
  datatype Params = Params(
    inputs: seq<Message>,
    window: int,
    counts: bool,
    replyTo: (nat, Message) -> seq<byte>)

  /** The variables of the loop; `returned` is set by the early returns. */
  datatype Engine = Engine(
    sent: nat, recvd: nat, toReceive: int, status: Status, outputs: seq<Output>, returned: bool)

  /** The driver's side: messages accepted and not yet answered, ids it refused,
      ids it has answered, ids whose answer was lost in a failed receive, and
      the number of failed receives. It answers a message at most once. */
  datatype Driver = Driver(
    inFlight: map<nat, Message>, refused: set<nat>, answered: set<nat>, lost: set<nat>, failures: nat)

  datatype System = System(engine: Engine, driver: Driver)

  datatype Event =
    | Send
    | SendFails
    | Receive(id: nat)
    | ReceiveFails(lost: Option<nat>)  // perhaps with the loss of a message
    | SelectFails
    | Timeout

  function Start(p: Params, outputs: seq<Output>): System {
    System(Engine(0, 0, |p.inputs|, IpmiOk, outputs, false), Driver(map[], {}, {}, {}, 0))
  }

  predicate Ended(s: System) { s.engine.toReceive <= 0 || s.engine.returned }

  /** The test at the top of the loop body. */
  predicate MaySend(p: Params, e: Engine) { e.sent < |p.inputs| && e.sent - e.recvd < p.window }

  predicate Enabled(p: Params, s: System, event: Event) {
    && !Ended(s) && |s.engine.outputs| == |p.inputs|
    && match event
       case Send => MaySend(p, s.engine)
       case SendFails => MaySend(p, s.engine)
       case Receive(id) => !MaySend(p, s.engine) && id in s.driver.inFlight && id < |s.engine.outputs|
       case ReceiveFails(lost) => !MaySend(p, s.engine) && (lost.Some? ==> lost.value in s.driver.inFlight)
       case SelectFails => !MaySend(p, s.engine)
       case Timeout => !MaySend(p, s.engine)
  }

  /** Marks a result as pending, and stores a reply in it. */
  function Pending(o: Output): Output { o.(isValid := 0) }

  function Stored(o: Output, reply: seq<byte>): Output {
    Output(reply + (if |o.data| > |reply| then o.data[|reply|..] else []), |reply|, 1)
  }

  function Next(p: Params, s: System, event: Event): System
    requires Enabled(p, s, event)
  {
    var e, d := s.engine, s.driver;
    match event
    case Send =>
      System(e.(sent := e.sent + 1, outputs := e.outputs[e.sent := Pending(e.outputs[e.sent])]),
             d.(inFlight := d.inFlight[e.sent := p.inputs[e.sent]]))
    case SendFails =>
      System(e.(sent := e.sent + 1, outputs := e.outputs[e.sent := Pending(e.outputs[e.sent])],
                status := CommandNotSent, toReceive := e.toReceive - 1),
             d.(refused := d.refused + {e.sent}))
    case Receive(id) =>
      System(e.(outputs := e.outputs[id := Stored(e.outputs[id], p.replyTo(id, d.inFlight[id]))],
                recvd := if p.counts then e.recvd + 1 else e.recvd, toReceive := e.toReceive - 1),
             d.(inFlight := d.inFlight - {id}, answered := d.answered + {id}))
    case ReceiveFails(lost) =>
      System(e.(status := MessageNotReceived, toReceive := e.toReceive - 1),
             match lost
             case None => d.(failures := d.failures + 1)
             case Some(id) =>
               d.(inFlight := d.inFlight - {id}, lost := d.lost + {id}, failures := d.failures + 1))
    case SelectFails =>
      System(e.(status := DeviceNotReady, returned := true), d)
    case Timeout =>
      System(e.(status := DeviceTimeout, returned := true), d)
  }

  /** From s the events of a run lead to s'. */
  ghost predicate Runs(p: Params, s: System, run: seq<Event>, s': System)
    decreases run
  {
    if run == [] then s' == s
    else Enabled(p, s, run[0]) && Runs(p, Next(p, s, run[0]), run[1..], s')
  }

  lemma {:induction false} RunsOneMore(p: Params, s: System, run: seq<Event>, s': System, event: Event)
    requires Runs(p, s, run, s') && Enabled(p, s', event)
    ensures Runs(p, s, run + [event], Next(p, s', event))
    decreases run
  {
    if run == [] {
      assert [event][1..] == [];
    } else {
      RunsOneMore(p, Next(p, s, run[0]), run[1..], s', event);
      assert (run + [event])[1..] == run[1..] + [event];
    }
  }

  // What every step keeps.

  /** Every message sent is in exactly one place, in flight as it was given. */
  ghost predicate Partitioned(n: nat, d: Driver) {
    && (forall i <- d.inFlight :: i < n && i !in d.refused && i !in d.answered && i !in d.lost)
    && (forall i <- d.refused :: i < n && i !in d.answered && i !in d.lost)
    && (forall i <- d.answered :: i < n && i !in d.lost)
    && (forall i <- d.lost :: i < n)
    && (forall i: nat :: i < n ==> i in d.inFlight || i in d.refused || i in d.answered || i in d.lost)
  }

  /** Result i: as the caller left it until message i is sent, then pending,
      then the reply to message i. */
  ghost predicate OutputFits(p: Params, before: Output, e: Engine, d: Driver, i: nat)
    requires i < |e.outputs| && i < |p.inputs|
  {
    var o := e.outputs[i];
    if i >= e.sent then o == before
    else if i in d.answered then Holds(o, p.replyTo(i, p.inputs[i]))
    else o == Pending(before)
  }

  /** The result the Go side makes of an output is the reply. */
  predicate Holds(o: Output, reply: seq<byte>) {
    o.isValid == 1 && o.dataLen == |reply| && |o.data| >= |reply| && o.data[..o.dataLen] == reply
  }

  ghost predicate OutputsFit(p: Params, before: seq<Output>, s: System) {
    && |before| == |s.engine.outputs| == |p.inputs|
    && forall i: nat :: i < |p.inputs| ==> OutputFits(p, before[i], s.engine, s.driver, i)
  }

  ghost predicate Accounted(p: Params, s: System) {
    && s.engine.sent <= |p.inputs| && Partitioned(s.engine.sent, s.driver)
    && forall i <- s.driver.inFlight :: i < |p.inputs| && s.driver.inFlight[i] == p.inputs[i]
  }

  /** The counters in terms of what happened to the messages. */
  ghost predicate Counted(p: Params, s: System) {
    var e, d := s.engine, s.driver;
    && |d.lost| <= d.failures
    && e.toReceive == |p.inputs| - |d.refused| - |d.answered| - d.failures
    && e.toReceive >= 0
    && e.recvd == (if p.counts then |d.answered| else 0)
    && (e.status == IpmiOk <==> d.refused == {} && d.failures == 0 && !e.returned)
    && (if p.window >= 1 then e.sent <= p.window + e.recvd else e.sent == 0)
  }

  ghost predicate Inv(p: Params, before: seq<Output>, s: System) {
    Accounted(p, s) && OutputsFit(p, before, s) && Counted(p, s)
  }

  lemma StartInv(p: Params, before: seq<Output>)
    requires |before| == |p.inputs|
    ensures Inv(p, before, Start(p, before))
  {
  }

  lemma StepAccounted(p: Params, s: System, event: Event)
    requires Accounted(p, s) && Enabled(p, s, event)
    ensures Accounted(p, Next(p, s, event))
  {
  }

  lemma StepOutputsFit(p: Params, before: seq<Output>, s: System, event: Event)
    requires Accounted(p, s) && OutputsFit(p, before, s) && Enabled(p, s, event)
    ensures OutputsFit(p, before, Next(p, s, event))
  {
  }

  lemma StepCounted(p: Params, s: System, event: Event)
    requires Accounted(p, s) && Counted(p, s) && Enabled(p, s, event)
    ensures Counted(p, Next(p, s, event))
  {
  }

  lemma {:induction false} RunInv(p: Params, before: seq<Output>, s: System, run: seq<Event>, s': System)
    requires Inv(p, before, s) && Runs(p, s, run, s')
    ensures Inv(p, before, s')
    decreases run
  {
    if run != [] {
      StepAccounted(p, s, run[0]);
      StepOutputsFit(p, before, s, run[0]);
      StepCounted(p, s, run[0]);
      RunInv(p, before, Next(p, s, run[0]), run[1..], s');
    }
  }

  // What holds of every run from the start.

  lemma SubsetOfSameSize(a: set<nat>, b: set<nat>)
    requires a <= b && |a| == |b|
    ensures a == b
  {
    assert |b - a| == |b| - |a|;
  }

  lemma PlacesAddUp(n: nat, d: Driver)
    requires Partitioned(n, d)
    ensures |d.inFlight| + |d.refused| + |d.answered| + |d.lost| == n
    ensures d.answered <= Ids(n)
  {
    SizesAddUp(n, d.inFlight.Keys, d.refused, d.answered, d.lost);
    assert |d.inFlight| == |d.inFlight.Keys|;
  }

  lemma SizesAddUp(n: nat, a: set<nat>, b: set<nat>, c: set<nat>, d: set<nat>)
    requires a !! b && (a + b) !! c && (a + b + c) !! d
    requires forall i: nat :: i < n <==> i in a || i in b || i in c || i in d
    ensures |a| + |b| + |c| + |d| == n
  {
    var ab := a + b;
    var abc := ab + c;
    assert |ab| == |a| + |b|;
    assert |abc| == |ab| + |c|;
    assert |abc + d| == |abc| + |d|;
    assert abc + d == Ids(n);
  }

  /** Sent messages are conserved, and to_receive counts down once for every
      refused send and every attempt to receive. */
  lemma Conservation(p: Params, before: seq<Output>, run: seq<Event>, s: System)
    requires |before| == |p.inputs| && Runs(p, Start(p, before), run, s)
    ensures s.engine.sent == |s.driver.refused| + |s.driver.inFlight| + |s.driver.answered| + |s.driver.lost|
    ensures s.engine.toReceive
         == |p.inputs| - |s.driver.refused| - |s.driver.answered| - s.driver.failures >= 0
    ensures s.engine.status == IpmiOk
      <==> s.driver.refused == {} && s.driver.failures == 0 && !s.engine.returned
    ensures s.engine.sent <= |p.inputs| == |s.engine.outputs|
    ensures forall i: nat :: i < s.engine.sent ==>
              (s.engine.outputs[i].isValid == 1 <==> i in s.driver.answered)
    ensures forall i: nat :: i < s.engine.sent && i !in s.driver.answered ==>
              s.engine.outputs[i] == before[i].(isValid := 0)
    ensures forall i: nat :: s.engine.sent <= i < |p.inputs| ==> s.engine.outputs[i] == before[i]
  {
    StartInv(p, before);
    RunInv(p, before, Start(p, before), run, s);
    PlacesAddUp(s.engine.sent, s.driver);
    forall i: nat | i < |p.inputs|
      ensures i < s.engine.sent ==> (s.engine.outputs[i].isValid == 1 <==> i in s.driver.answered)
      ensures i < s.engine.sent && i !in s.driver.answered ==> s.engine.outputs[i] == before[i].(isValid := 0)
      ensures s.engine.sent <= i ==> s.engine.outputs[i] == before[i]
    {
      assert OutputFits(p, before[i], s.engine, s.driver, i);
    }
  }

  /** The last thing that went wrong in a run. */
  function LastTrouble(run: seq<Event>): Option<Status> {
    if run == [] then None
    else if LastTrouble(run[1..]).Some? then LastTrouble(run[1..])
    else match run[0]
      case Send => None
      case Receive(_) => None
      case SendFails => Some(CommandNotSent)
      case ReceiveFails(_) => Some(MessageNotReceived)
      case SelectFails => Some(DeviceNotReady)
      case Timeout => Some(DeviceTimeout)
  }

  /** The status is the last trouble, IPMI_OK if there was none: a failed send
      or receive does not end the loop, and a later one replaces it. */
  lemma {:induction false} StatusIsLastTrouble(p: Params, s: System, run: seq<Event>, s': System)
    requires Runs(p, s, run, s')
    ensures s'.engine.status == match LastTrouble(run) case None => s.engine.status case Some(t) => t
    decreases run
  {
    if run != [] {
      StatusIsLastTrouble(p, Next(p, s, run[0]), run[1..], s');
    }
  }

  /** The batch returns IPMI_OK at the end of this run. */
  ghost predicate Succeeds(p: Params, before: seq<Output>, run: seq<Event>, s: System)
    requires |before| == |p.inputs|
  {
    Runs(p, Start(p, before), run, s) && Ended(s) && s.engine.status == IpmiOk
  }

  /** A batch that ends with IPMI_OK has the reply to request i in output i, for
      every i, in whatever order the replies came. */
  lemma OkMeansEveryReply(p: Params, before: seq<Output>, run: seq<Event>, s: System)
    requires |before| == |p.inputs| && Succeeds(p, before, run, s)
    ensures |s.engine.outputs| == |p.inputs|
    ensures forall i: nat :: i < |p.inputs| ==> Holds(s.engine.outputs[i], p.replyTo(i, p.inputs[i]))
  {
    var e, d := s.engine, s.driver;
    StartInv(p, before);
    RunInv(p, before, Start(p, before), run, s);
    PlacesAddUp(e.sent, d);
    forall i | i in Ids(e.sent) ensures i in Ids(|p.inputs|) {}
    SubsetOfSameSize(d.answered, Ids(|p.inputs|));
    forall i: nat | i < |p.inputs| ensures Holds(e.outputs[i], p.replyTo(i, p.inputs[i])) {
      assert i in Ids(|p.inputs|);
      assert OutputFits(p, before[i], e, d, i);
    }
  }

  /** The window: were receipts counted, never more than `window` messages
      would be unanswered; as they are not, never more are sent at all. */
  lemma WindowHolds(p: Params, before: seq<Output>, run: seq<Event>, s: System)
    requires |before| == |p.inputs| && Runs(p, Start(p, before), run, s)
    ensures var w := if p.window >= 0 then p.window else 0;
      && (p.window < 1 ==> s.engine.sent == 0)
      && if p.counts then |s.driver.inFlight| <= s.engine.sent - s.engine.recvd <= w else s.engine.sent <= w
  {
    StartInv(p, before);
    RunInv(p, before, Start(p, before), run, s);
    PlacesAddUp(s.engine.sent, s.driver);
  }

  function Measure(p: Params, s: System): int {
    |p.inputs| - s.engine.sent + s.engine.toReceive + if s.engine.returned then 0 else 1
  }

  /** Every turn of the loop makes progress, so whatever the driver does a batch
      of n messages ends within 2n + 1 turns. */
  lemma {:induction false} RunsAreShort(p: Params, before: seq<Output>, s: System, run: seq<Event>, s': System)
    requires Inv(p, before, s) && Runs(p, s, run, s')
    ensures |run| <= Measure(p, s) - Measure(p, s')
    ensures s == Start(p, before) ==> |run| <= 2 * |p.inputs| + 1
    decreases run
  {
    RunInv(p, before, s, run, s');
    if run != [] {
      RunInv(p, before, s, run[..1], Next(p, s, run[0]));
      RunsAreShort(p, before, Next(p, s, run[0]), run[1..], s');
    }
  }

  /** The condition under which a batch can succeed at all. */
  predicate CanSucceed(p: Params) {
    p.inputs == [] || (if p.counts then p.window >= 1 else |p.inputs| <= p.window)
  }

  /** From any trouble-free state there is a way to the end. */
  lemma {:induction false} Finish(p: Params, before: seq<Output>, s: System) returns (run: seq<Event>, s': System)
    requires CanSucceed(p) && Inv(p, before, s) && s.engine.status == IpmiOk
    ensures Runs(p, s, run, s') && Ended(s') && s'.engine.status == IpmiOk
    decreases Measure(p, s)
  {
    if Ended(s) {
      return [], s;
    }
    var e, d := s.engine, s.driver;
    PlacesAddUp(e.sent, d);
    var event := Send;
    if !MaySend(p, e) {
      assert |d.inFlight| > 0;
      var id :| id in d.inFlight;
      event := Receive(id);
    }
    assert Enabled(p, s, event);
    var next := Next(p, s, event);
    StepAccounted(p, s, event);
    StepOutputsFit(p, before, s, event);
    StepCounted(p, s, event);
    var rest;
    rest, s' := Finish(p, before, next);
    run := [event] + rest;
    assert run[1..] == rest;
  }

  lemma SuccessNeedsWindow(p: Params, before: seq<Output>, run: seq<Event>, s: System)
    requires |before| == |p.inputs| && Succeeds(p, before, run, s)
    ensures CanSucceed(p)
  {
    Conservation(p, before, run, s);
    WindowHolds(p, before, run, s);
  }

  /** As written, a batch can succeed exactly when the window holds all of it;
      if receipts counted, any window would do. */
  lemma SucceedsIff(p: Params, before: seq<Output>)
    requires |before| == |p.inputs|
    ensures (exists run, s :: Succeeds(p, before, run, s)) <==> CanSucceed(p)
  {
    if CanSucceed(p) {
      StartInv(p, before);
      var run, s := Finish(p, before, Start(p, before));
      assert Succeeds(p, before, run, s);
    }
    forall run, s | Succeeds(p, before, run, s) ensures CanSucceed(p) {
      SuccessNeedsWindow(p, before, run, s);
    }
  }

  /** A run so far, with what it keeps. */
  ghost predicate RunTo(p: Params, before: seq<Output>, run: seq<Event>, s: System)
    requires |before| == |p.inputs|
  {
    Runs(p, Start(p, before), run, s) && Inv(p, before, s)
  }

  lemma RunToStart(p: Params, before: seq<Output>)
    requires |before| == |p.inputs|
    ensures RunTo(p, before, [], Start(p, before))
  {
  }

  lemma RunToNext(p: Params, before: seq<Output>, run: seq<Event>, s: System, event: Event)
    requires |before| == |p.inputs| && RunTo(p, before, run, s) && Enabled(p, s, event)
    ensures RunTo(p, before, run + [event], Next(p, s, event))
    ensures 0 <= Measure(p, Next(p, s, event)) < Measure(p, s)
  {
    RunsOneMore(p, Start(p, before), run, s, event);
    StepAccounted(p, s, event);
    StepOutputsFit(p, before, s, event);
    StepCounted(p, s, event);
  }

  lemma InFlightWasSent(p: Params, before: seq<Output>, run: seq<Event>, s: System, id: nat)
    requires |before| == |p.inputs| && RunTo(p, before, run, s) && id in s.driver.inFlight
    ensures id < |s.engine.outputs| == |p.inputs|
  {
  }
}
