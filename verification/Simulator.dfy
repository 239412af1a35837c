/** A controller that understands the requests byte by byte. It shows that the
    contract assumed of a controller can be met, and that a request says what
    its sender meant. */
module Simulator {
  import opened Common
  import opened Bmc
  import opened Repository

  datatype PartialRead = PartialRead(device: bool, reservation: seq<byte>, id: uint16, offset: nat, count: nat)

  /** Section 33.12 of IPMI v2.0: reservation, record id, offset, bytes to read. */
  function DecodeGetSdr(request: seq<byte>): Option<PartialRead> {
    if |request| == 8 && (request[..2] == [0x4, 0x21] || request[..2] == [0xa, 0x23]) then
      Some(PartialRead(request[0] == 0x4, request[2..4], LittleEndian(request[4], request[5]), request[6], request[7]))
    else None
  }

  /** A request says what was meant exactly when offset and count are bytes. */
  lemma GetSdrRoundTrip(device: bool, reservation: seq<byte>, id: uint16, offset: nat, count: nat)
    requires |reservation| == 2
    ensures DecodeGetSdr(GetSdrRequest(device, reservation, id, offset, count))
              == Some(PartialRead(device, reservation, id, offset, count))
            <==> offset < 0x100 && count < 0x100
  {
    var request := GetSdrRequest(device, reservation, id, offset, count);
    assert request[..2] == if device then [0x4, 0x21] else [0xa, 0x23];
    assert request[2..4] == reservation;
    assert LittleEndian(request[4], request[5]) == id;
  }

  function Reply(h: Host, request: seq<byte>): seq<byte>
    requires |h.reservation| == 2
  {
    if request == [0x06, 0x01] then
      [0, 0, if h.choice == Some(false) then 0 else 0x80, 0, 0, 0, if h.choice == Some(true) then 1 else 0]
    else if request == [0x04, 0x22] || request == [0x0A, 0x22] then [0] + h.reservation
    else if request == [0x0A, 0x21] then [0, 0, 0, Lo(h.allocationUnit), Hi(h.allocationUnit), 0, 0, 0, 0, 0]
    else if |request| == 3 && request[..2] == [0x4, 0x2D] then [0, 0, 0x40, 0]
    else
      match DecodeGetSdr(request)
      case None => [0xC1]  // invalid command
      case Some(read) =>
        var k := h.Resolve(read.id);
        if read.reservation != h.reservation then [0xC5]  // reservation cancelled
        else if !h.Stored(k) then [0xCB]  // no such record
        else if read.offset + read.count > |h.records[k]| then [0xC9]  // out of range
        else [0, Lo(h.next[k]), Hi(h.next[k])] + h.records[k][read.offset..read.offset + read.count]
  }

  lemma SimulatorServesRecords(h: Host, device: bool, answer: Answer)
    requires |h.reservation| == 2
    requires forall t, request :: answer(t, request) == Some(Reply(h, request))
    ensures ServesRecords(answer, h, device)
  {
    forall t: nat, id: uint16, offset: nat, count: nat |
      && h.Stored(h.Resolve(id)) && offset + count <= |h.records[h.Resolve(id)]|
      && offset < 0x100 && count < 0x100
      ensures IsReply(answer(t, GetSdrRequest(device, h.reservation, id, offset, count)).value,
                      h, h.Resolve(id), offset, count)
    {
      GetSdrRoundTrip(device, h.reservation, id, offset, count);
      var request := GetSdrRequest(device, h.reservation, id, offset, count);
      assert answer(t, request) == Some(Reply(h, request));
      assert |request| == 8;
      var k := h.Resolve(id);
      var sdr := Reply(h, request)[1..];
      assert sdr == [Lo(h.next[k]), Hi(h.next[k])] + h.records[k][offset..offset + count];
    }
  }

  /** Network function and command of every request: a device's own records are
      asked for by sensor commands (04h), a repository's by storage commands (0Ah). */
  lemma CommandCodes(device: bool, reservation: seq<byte>, id: uint16, offset: nat, count: nat, sensor: uint16)
    requires |reservation| >= 2
    ensures DeviceIdRequest() == [0x06, 0x01] && AllocationRequest() == [0x0A, 0x21]
    ensures var f := if device then 0x04 else 0x0A;
      && SdrInfoRequest(device) == [f, 0x20] && ReserveRequest(device) == [f, 0x22]
      && GetSdrRequest(device, reservation, id, offset, count)[..2] == [f, if device then 0x21 else 0x23]
    ensures ReadingRequest(sensor) == [0x04, 0x2D, sensor % 0x100]
  {
  }

  /** The first bit of the device support bytes says whether records of its own
      may exist; then the repository comes first, its own records second. */
  lemma ChoiceFromBytes(data: seq<byte>)
    requires |data| >= 6
    ensures SdrChoice(data) == Some(true) <==> data[1] >= 0x80 && data[5] % 4 == 1
    ensures SdrChoice(data) == None <==> data[1] >= 0x80 && data[5] % 4 == 0
  {
  }

  lemma TopBit()
    ensures Bit(0x80, 7) && !Bit(0, 7) && Bit(1, 0) && !Bit(1, 1) && !Bit(0, 1) && !Bit(0, 0)
  {
  }

  /** The contract is met by a controller that keeps any records whatever. */
  lemma SimulatorConforms(h: Host, answer: Answer)
    requires |h.reservation| == 2
    requires forall t, request :: answer(t, request) == Some(Reply(h, request))
    ensures Conforms(answer, h)
  {
    forall device ensures Reserves(answer, h, device) && ServesRecords(answer, h, device) {
      SimulatorServesRecords(h, device, answer);
      forall t: nat ensures answer(t, ReserveRequest(device)) == Some([0] + h.reservation) {}
    }
    forall t: nat
      ensures var a := answer(t, DeviceIdRequest());
        a.Some? && |a.value| == 7 && SdrChoice(a.value[1..]) == h.choice
    {
      assert answer(t, DeviceIdRequest()) == Some(Reply(h, DeviceIdRequest()));
      TopBit();
      var data := Reply(h, DeviceIdRequest())[1..];
      var own: byte, sensors: byte := data[1], data[5];
      assert Bit(own, 7) <==> h.choice != Some(false);
      assert !Bit(sensors, 1) && (Bit(sensors, 0) <==> h.choice == Some(true));
      match h.choice {
        case None => assert SdrChoice(data) == h.choice;
        case Some(_) => assert SdrChoice(data) == h.choice;
      }
    }
    forall t: nat, n: uint16
      ensures answer(t, ReadingRequest(n)) == Some([0, 0, 0x40, 0])
    {
      assert ReadingRequest(n)[..2] == [0x4, 0x2D];
    }
  }
}
