/** A controller that keeps a sensor data record (SDR) repository, seen through
    the requests of sections 33.9 to 33.12, 35.14 and 20.1 of IPMI v2.0. */
module Repository {
  import opened Common
  import opened Bmc

  /** What one host offers. A record starts with its id (two bytes), version,
      type and the number of bytes that follow these five. Records form a list
      through `next`; 0xFFFF ends it and id 0 is another name of the first. */
  datatype Host = Host(
    choice: Option<bool>,  // Some(true): sensors kept by the device itself
    records: map<uint16, seq<byte>>,
    next: map<uint16, uint16>,
    first: uint16,
    reservation: seq<byte>,
    allocationUnit: uint16)
  {
    function Resolve(id: uint16): uint16 { if id == 0 then first else id }

    /** A key that can be looked up, with a record that describes itself. */
    predicate Stored(k: uint16) {
      && k in records && k in next && Resolve(k) == k
      && |records[k]| >= 5 && |records[k]| - 5 == records[k][4]
      && records[k][0] == Lo(k) && records[k][1] == Hi(k)
    }

    predicate IsSensor(k: uint16)
      requires k in records && |records[k]| >= 5
    {
      records[k][3] == 1 || records[k][3] == 2
    }

    /** ks are the records met from key k to the end of the list. */
    predicate IsChain(k: uint16, ks: seq<uint16>)
      decreases ks
    {
      && ks != [] && ks[0] == k && Stored(k)
      && if next[k] == 0xFFFF then |ks| == 1 else IsChain(Resolve(next[k]), ks[1..])
    }
  }

  // Requests, byte for byte.

  function DeviceIdRequest(): seq<byte> { [0x6, 0x1] }

  function SdrInfoRequest(device: bool): seq<byte> {
    if device then [0x4, 0x20] else [0xa, 0x20]
  }

  function ReserveRequest(device: bool): seq<byte> {
    if device then [0x4, 0x22] else [0xa, 0x22]
  }

  function AllocationRequest(): seq<byte> { [0xa, 0x21] }

  function GetSdrRequest(device: bool, reservation: seq<byte>, id: uint16, offset: nat, count: nat): seq<byte>
    requires |reservation| >= 2
  {
    (if device then [0x4, 0x21] else [0xa, 0x23])
    + [reservation[0], reservation[1], Lo(id), Hi(id), offset % 0x100, count % 0x100]
  }

  function ReadingRequest(sensor: uint16): seq<byte> { [0x4, 0x2D, Lo(sensor)] }

  /** A reply with the bytes the code looks at: none of the SDR info command's,
      exactly ten of the allocation info, all that were asked for of a partial
      read (the only request of eight bytes). */
  predicate Whole(request: seq<byte>, reply: seq<byte>) {
    if |request| == 8 then |reply| >= 3 + request[7] as int
    else if request == SdrInfoRequest(true) || request == SdrInfoRequest(false) then true
    else if request == AllocationRequest() then |reply| == 10
    else if request == DeviceIdRequest() then |reply| >= 3 && (Bit(reply[2], 7) ==> |reply| >= 7)
    else |reply| >= 3
  }

  /** A reply the code can go on with. */
  predicate Answered(request: seq<byte>, reply: Option<seq<byte>>) {
    reply.Some? && Whole(request, reply.value)
  }

  /** A partial read that came back with some bytes, but fewer than the code
      copies out of it. */
  predicate TooShort(request: seq<byte>, reply: Option<seq<byte>>) {
    |request| == 8 && reply.Some? && 0 < |reply.value| < 3 + request[7] as int
  }

  predicate LastTooShort(answer: Answer, log: seq<seq<byte>>) {
    log != [] && TooShort(log[|log| - 1], answer(|log| - 1, log[|log| - 1]))
  }

  /** Every request logged since time t was answered. */
  ghost predicate AnsweredSince(answer: Answer, log: seq<seq<byte>>, t: nat) {
    forall i :: t <= i < |log| ==> Answered(log[i], answer(i, log[i]))
  }

  /** The branch of `GetDeviceId` on the device-id reply without its first
      byte: data[1] bit 7 says the device has sensor records of its own, data[5]
      bit 1 a repository, data[5] bit 0 a sensor device. */
  function SdrChoice(data: seq<byte>): Option<bool>
    requires |data| >= 2 && (Bit(data[1], 7) ==> |data| >= 6)
  {
    if Bit(data[1], 7) then
      if Bit(data[5], 1) then Some(false)
      else if Bit(data[5], 0) then Some(true)
      else None
    else Some(false)
  }

  ghost predicate TellsChoice(answer: Answer, h: Host) {
    forall t: nat :: var a := answer(t, DeviceIdRequest());
      Answered(DeviceIdRequest(), a) ==> SdrChoice(a.value[1..]) == h.choice
  }

  ghost predicate Reserves(answer: Answer, h: Host, device: bool) {
    && |h.reservation| >= 2
    && forall t: nat :: var a := answer(t, ReserveRequest(device));
         Answered(ReserveRequest(device), a) ==> a.value[1..] == h.reservation
  }

  ghost predicate TellsAllocation(answer: Answer, h: Host) {
    forall t: nat :: var a := answer(t, AllocationRequest());
      Answered(AllocationRequest(), a) ==> LittleEndian(a.value[3], a.value[4]) == h.allocationUnit
  }

  /** A partial read: id of the next record, then the bytes asked for. */
  predicate IsPiece(sdr: seq<byte>, h: Host, k: uint16, offset: nat, count: nat)
    requires h.Stored(k) && offset + count <= |h.records[k]|
  {
    && |sdr| == 2 + count
    && sdr[0] == Lo(h.next[k]) && sdr[1] == Hi(h.next[k])
    && forall i :: 2 <= i < 2 + count ==> sdr[i] == h.records[k][offset + i - 2]
  }

  /** The same behind a completion code. */
  predicate IsReply(reply: seq<byte>, h: Host, k: uint16, offset: nat, count: nat)
    requires h.Stored(k) && offset + count <= |h.records[k]|
  {
    reply != [] && IsPiece(reply[1..], h, k, offset, count)
  }

  /** Partial reads under the current reservation, as far as they are answered,
      return what they ask for. */
  ghost predicate ServesRecords(answer: Answer, h: Host, device: bool) {
    && |h.reservation| >= 2
    && forall t: nat, id: uint16, offset: nat, count: nat ::
         var request := GetSdrRequest(device, h.reservation, id, offset, count);
         var k := h.Resolve(id);
         && h.Stored(k) && offset + count <= |h.records[k]|
         && offset < 0x100 && count < 0x100
         && Answered(request, answer(t, request))
         ==> IsReply(answer(t, request).value, h, k, offset, count)
  }

  lemma ReservationFits(answer: Answer, h: Host, device: bool)
    requires ServesRecords(answer, h, device)
    ensures |h.reservation| >= 2
  {
  }

  /** A reply to a partial read, by its length; the request asks for the offset
      and count that are left when both are cut to a byte. */
  lemma PieceArrives(answer: Answer, h: Host, device: bool, t: nat, id: uint16, offset: nat, count: nat)
    requires ServesRecords(answer, h, device) && h.Stored(h.Resolve(id))
    ensures var request := GetSdrRequest(device, h.reservation, id, offset, count);
      var (a, k, at, n) := (answer(t, request), h.Resolve(id), offset % 0x100, count % 0x100);
      && |request| == 8
      && (Answered(request, a) <==> a.Some? && |a.value| >= 3 + n)
      && (TooShort(request, a) <==> a.Some? && 1 <= |a.value| < 3 + n)
      && (a.Some? && |a.value| >= 3 + n && at + n <= |h.records[k]| ==> IsPiece(a.value[1..], h, k, at, n))
  {
    hide IsPiece;
    var at, n := offset % 0x100, count % 0x100;
    assert GetSdrRequest(device, h.reservation, id, offset, count) == GetSdrRequest(device, h.reservation, id, at, n);
  }

  /** Sensor readings may change at any time. Only their shape is fixed: a
      sensor that can be read sends its state as well. */
  ghost predicate TellsReadings(answer: Answer) {
    forall t: nat, n: uint16 :: var a := answer(t, ReadingRequest(n));
      Answered(ReadingRequest(n), a) && Readable(a.value[1..]) ==> |a.value| >= 4
  }

  predicate Readable(data: seq<byte>)
    requires |data| >= 2
  {
    !Bit(data[1], 5) && Bit(data[1], 6)
  }

  ghost predicate Conforms(answer: Answer, h: Host) {
    && TellsChoice(answer, h)
    && (forall device :: Reserves(answer, h, device) && ServesRecords(answer, h, device))
    && TellsAllocation(answer, h)
    && TellsReadings(answer)
  }

  lemma AnsweredNothing(answer: Answer, log: seq<seq<byte>>)
    ensures AnsweredSince(answer, log, |log|)
  {
  }

  lemma AnsweredOneMore(answer: Answer, log: seq<seq<byte>>, t: nat, request: seq<byte>)
    requires t <= |log|
    ensures AnsweredSince(answer, log + [request], t) <==>
            AnsweredSince(answer, log, t) && Answered(request, answer(|log|, request))
  {
    var longer := log + [request];
    assert longer[|log|] == request;
    if AnsweredSince(answer, longer, t) {
      forall i | t <= i < |log| ensures Answered(log[i], answer(i, log[i])) {
        assert longer[i] == log[i];
      }
    }
  }

  lemma AnsweredLast(answer: Answer, log: seq<seq<byte>>, t: nat)
    requires AnsweredSince(answer, log, t) && t < |log|
    ensures !LastTooShort(answer, log)
  {
  }

  lemma AnsweredInSteps(answer: Answer, log: seq<seq<byte>>, log': seq<seq<byte>>, t: nat)
    requires t <= |log| && log <= log'
    ensures AnsweredSince(answer, log', t) <==>
            AnsweredSince(answer, log, t) && AnsweredSince(answer, log', |log|)
  {
  }

  /** A list that ends never meets a record twice. */
  lemma {:induction false} ChainHasNoRepeat(h: Host, k: uint16, ks: seq<uint16>, i: nat, j: nat)
    requires h.IsChain(k, ks) && i < j < |ks|
    ensures ks[i] != ks[j]
  {
    ChainSuffix(h, k, ks, i);
    ChainSuffix(h, k, ks, j);
    if ks[i] == ks[j] {
      ChainIsUnique(h, ks[i], ks[i..], ks[j..]);
    }
  }

  lemma {:induction false} ChainSuffix(h: Host, k: uint16, ks: seq<uint16>, i: nat)
    requires h.IsChain(k, ks) && i < |ks|
    ensures h.IsChain(ks[i], ks[i..])
    decreases ks
  {
    if i > 0 {
      ChainSuffix(h, h.Resolve(h.next[k]), ks[1..], i - 1);
      assert ks[1..][i - 1..] == ks[i..];
    } else {
      assert ks[0..] == ks;
    }
  }

  lemma {:induction false} ChainIsUnique(h: Host, k: uint16, a: seq<uint16>, b: seq<uint16>)
    requires h.IsChain(k, a) && h.IsChain(k, b)
    ensures a == b
    decreases a
  {
    if h.next[k] != 0xFFFF {
      ChainIsUnique(h, h.Resolve(h.next[k]), a[1..], b[1..]);
    }
    assert a == [a[0]] + a[1..] && b == [b[0]] + b[1..];
  }
}
