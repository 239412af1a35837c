/** `SdrParser`: reading records piece by piece and scanning the repository. */
module SdrScan {
  import opened Common
  import opened Bmc
  import opened Repository
  import opened SdrPlan
  import opened SdrSpec
  import opened Health

  class SdrParser {
    const layer: Controller
    const cmdGetStorageSdr: IpmiRequest
    const cmdGetDeviceSdr: IpmiRequest
    const cmdGetSensorReading: IpmiRequest

    /** The package variable that keeps the result of the last scan; None is nil. */
    var sdrInfos: Option<seq<SdrInfo>>

    constructor (layer: Controller)
      ensures this.layer == layer && Valid() && sdrInfos == None
    {
      this.layer := layer;
      var storage := new byte[][0xa, 0x23, 0, 0, 0, 0, 0, 0];
      var device := new byte[][0x4, 0x21, 0, 0, 0, 0, 0, 0];
      var reading := new byte[][0x4, 0x2D, 0];
      cmdGetStorageSdr := IpmiRequest(storage, 0, 0);
      cmdGetDeviceSdr := IpmiRequest(device, 0, 0);
      cmdGetSensorReading := IpmiRequest(reading, 0, 0);
      sdrInfos := None;
    }

    /** The shared request templates hold what they were initialised with. */
    ghost predicate Valid()
      reads cmdGetStorageSdr.data, cmdGetDeviceSdr.data, cmdGetSensorReading.data
    {
      && cmdGetStorageSdr.data[..] == [0xa, 0x23, 0, 0, 0, 0, 0, 0]
      && cmdGetDeviceSdr.data[..] == [0x4, 0x21, 0, 0, 0, 0, 0, 0]
      && cmdGetSensorReading.data[..] == [0x4, 0x2D, 0]
    }

    /** One partial read: the log grows by one well-formed request, with offset
        and count cut to bytes; a reply that is long enough holds the piece that
        this asks for. */
    method GetSdr(ghost h: Host, reservationId: seq<byte>, recordId: uint16, offset: uint16, count: uint16,
                  isDeviceSdr: bool, ghost since: nat)
      returns (r: Result<seq<byte>>)
      requires Valid() && ServesRecords(layer.answer, h, isDeviceSdr) && reservationId == h.reservation
      requires h.Stored(h.Resolve(recordId)) && since <= |layer.log|
      modifies layer
      ensures layer.log == old(layer.log) + [GetSdrRequest(isDeviceSdr, reservationId, recordId, offset, count)]
      ensures AnsweredSince(layer.answer, layer.log, since)
        <==> r.Ok? && |r.value| >= 2 + count % 0x100 && old(AnsweredSince(layer.answer, layer.log, since))
      ensures LastTooShort(layer.answer, layer.log) <==> r.Ok? && |r.value| < 2 + count % 0x100
      ensures r != Err(ShortReply)
      ensures var k, at, n := h.Resolve(recordId), offset % 0x100, count % 0x100;
        r.Ok? && |r.value| >= 2 + n && at + n <= |h.records[k]| ==> IsPiece(r.value, h, k, at, n)
    {
      hide ServesRecords, AnsweredSince, IsPiece, Answered, TooShort;
      ReservationFits(layer.answer, h, isDeviceSdr);
      PieceArrives(layer.answer, h, isDeviceSdr, |layer.log|, recordId, offset, count);
      var cmd: IpmiRequest;
      if !isDeviceSdr {
        cmd := cmdGetStorageSdr.Clone();
      } else {
        cmd := cmdGetDeviceSdr.Clone();
      }
      var data := cmd.data;
      data[2] := reservationId[0];
      data[3] := reservationId[1];
      data[4] := recordId % 0x100;
      data[5] := recordId / 0x100;
      data[6] := offset % 0x100;
      data[7] := count % 0x100;
      assert data[..] == GetSdrRequest(isDeviceSdr, reservationId, recordId, offset, count);
      AnsweredOneMore(layer.answer, layer.log, since, data[..]);
      var reply := layer.ExecRaw(data[..]);
      if reply.None? {
        return Err(ExecFailed);
      }
      if |reply.value| < 1 {
        return Err(NoData);
      }
      return Ok(reply.value[1..]);
    }

    lemma NoPieces(h: Host, k: uint16, total: uint16, device: bool, reservation: seq<byte>, id: uint16, maxRead: uint16)
      requires h.Stored(k) && 1 <= total <= |h.records[k]| && |reservation| >= 2 && maxRead >= 1
      ensures Zeros(total + 2) == Filling(h, k, total, 0)
      ensures PartialReads(device, reservation, id, total, maxRead, 0) == []
      ensures AtPiece(total, maxRead, 0, 0, total)
    {
    }

    /** Reads a record, or its first bytes, in pieces. The guard looks at a
        bytesLeft that the body lowers, so the loop may stop early. A piece that
        is too short makes it panic, and so does one of 256 bytes or more, of
        which the request can only ask for the rest by 256. */
    method GetSdrBytes(ghost h: Host, reservationId: seq<byte>, recordId: uint16,
                       total: uint16, maxRead: uint16, isDeviceSdr: bool)
      returns (r: Result<seq<byte>>)
      requires Valid() && ServesRecords(layer.answer, h, isDeviceSdr) && reservationId == h.reservation
      requires h.Stored(h.Resolve(recordId)) && 1 <= total <= |h.records[h.Resolve(recordId)]|
      requires maxRead >= 1
      modifies layer
      ensures Valid() && old(layer.log) <= layer.log
      ensures r.Ok? <==> AnsweredSince(layer.answer, layer.log, |old(layer.log)|) && (maxRead < 0x100 || total < 0x100)
      ensures maxRead < 0x100 || total < 0x100 ==> (r == Err(ShortReply) <==> LastTooShort(layer.answer, layer.log))
      ensures r.Ok? ==>
        && r.value == Buffer(h, h.Resolve(recordId), total, maxRead)
        && layer.log == old(layer.log)
             + PartialReads(isDeviceSdr, reservationId, recordId, total, maxRead, Reads(total, maxRead))
    {
      hide Filling, PartialReads, AnsweredSince, LastTooShort, ServesRecords, GetSdrRequest, Valid, AtPiece, Reads, Reach, Offset, Count;
      ReservationFits(layer.answer, h, isDeviceSdr);
      NoPieces(h, h.Resolve(recordId), total, isDeviceSdr, reservationId, recordId, maxRead);
      AnsweredNothing(layer.answer, layer.log);
      ghost var k := h.Resolve(recordId);
      ghost var pieces: nat := 0;
      var data := NewBuffer(total + 2);
      var bytesLeft: uint16 := total;
      var current: uint16 := 0;
      var bytesRead: uint16 := 0;
      while bytesRead < bytesLeft
        invariant Valid() && AtPiece(total, maxRead, pieces, bytesRead, bytesLeft) && bytesRead <= total
        invariant data[..] == Filling(h, k, total, bytesRead)
        invariant layer.log == old(layer.log)
                    + PartialReads(isDeviceSdr, reservationId, recordId, total, maxRead, pieces)
        invariant AnsweredSince(layer.answer, layer.log, |old(layer.log)|)
        invariant maxRead < 0x100 || total < 0x100 || pieces == 0
        decreases Reads(total, maxRead) - pieces
      {
        NextPiece(total, maxRead, pieces, bytesRead, bytesLeft);
        bytesLeft := total - bytesRead;
        if bytesLeft > maxRead {
          current := maxRead;
        } else {
          current := bytesLeft;
        }
        PartialReadsOneMore(isDeviceSdr, reservationId, recordId, total, maxRead, pieces);
        var piece := ReadPiece(h, reservationId, recordId, total, data, bytesRead, current, isDeviceSdr, |old(layer.log)|);
        if piece.Err? {
          return Err(piece.error);
        }
        bytesRead := bytesRead + current;
        pieces := pieces + 1;
      }
      LastPiece(total, maxRead, pieces, bytesRead, bytesLeft);
      ReadsIsLeast(total, maxRead, 1);
      AnsweredLast(layer.answer, layer.log, |old(layer.log)|);
      return Ok(data[..]);
    }

    /** `make([]byte, n)` */
    method NewBuffer(n: nat) returns (data: array<byte>)
      requires Valid()
      ensures Valid() && fresh(data) && data[..] == Zeros(n)
    {
      data := new byte[n](_ => 0);
    }

    /** The part of the loop body that reads a piece and stores it. */
    method ReadPiece(ghost h: Host, reservationId: seq<byte>, recordId: uint16, ghost total: uint16, data: array<byte>,
                     bytesRead: uint16, current: uint16, isDeviceSdr: bool, ghost since: nat)
      returns (r: Result<()>)
      requires Valid() && ServesRecords(layer.answer, h, isDeviceSdr) && reservationId == h.reservation
      requires h.Stored(h.Resolve(recordId)) && bytesRead + current <= total <= |h.records[h.Resolve(recordId)]|
      requires bytesRead < 0x100 && current >= 1 && since <= |layer.log|
      requires data.Length < 0x1_0000 && data[..] == Filling(h, h.Resolve(recordId), total, bytesRead)
      requires data != cmdGetStorageSdr.data && data != cmdGetDeviceSdr.data && data != cmdGetSensorReading.data
      modifies layer, data
      ensures Valid() && layer.log == old(layer.log) + [GetSdrRequest(isDeviceSdr, reservationId, recordId, bytesRead, current)]
      ensures current < 0x100 ==>
        && (AnsweredSince(layer.answer, layer.log, since)
            <==> r.Ok? && old(AnsweredSince(layer.answer, layer.log, since)))
        && (r == Err(ShortReply) <==> LastTooShort(layer.answer, layer.log))
      ensures current >= 0x100 ==> r.Err?
      ensures r.Ok? ==> data[..] == Filling(h, h.Resolve(recordId), total, bytesRead + current)
    {
      hide Filling, AnsweredSince, Store, Answered, LastTooShort, ServesRecords;
      var piece := GetSdr(h, reservationId, recordId, bytesRead, current, isDeviceSdr, since);
      if piece.Err? {
        return Err(piece.error);
      }
      if |piece.value| < 2 + current {
        return Err(ShortReply);
      }
      FillingOneMore(h, h.Resolve(recordId), total, bytesRead, current, piece.value);
      StorePiece(data, bytesRead, current, piece.value);
      return Ok(());
    }

    /** Stores a piece: the next record id in front, the record bytes behind
        those already read. */
    method StorePiece(data: array<byte>, bytesRead: uint16, current: uint16, sdr: seq<byte>)
      requires 2 + bytesRead + current <= data.Length && data.Length < 0x1_0000
      requires |sdr| >= 2 + current
      modifies data
      ensures data[..] == Store(old(data[..]), bytesRead, current, sdr)
    {
      data[0] := sdr[0];
      data[1] := sdr[1];
      var i: uint16 := 0;
      while i < current
        invariant 0 <= i <= current
        invariant data[0] == sdr[0] && data[1] == sdr[1]
        invariant forall j :: 2 + bytesRead <= j < 2 + bytesRead + i ==> data[j] == sdr[j - bytesRead]
        invariant forall j :: 2 <= j < data.Length && !(2 + bytesRead <= j < 2 + bytesRead + i) ==>
                    data[j] == old(data[j])
      {
        data[2 + bytesRead + i] := sdr[2 + i];
        i := i + 1;
      }
    }

    method GetSdrHeader(ghost h: Host, reservationId: seq<byte>, recordId: uint16, isDeviceSdr: bool)
      returns (r: Result<SdrHeader>)
      requires Valid() && ServesRecords(layer.answer, h, isDeviceSdr) && reservationId == h.reservation
      requires h.Stored(h.Resolve(recordId))
      modifies layer
      ensures Valid() && old(layer.log) <= layer.log
      ensures r.Ok? <==> AnsweredSince(layer.answer, layer.log, |old(layer.log)|)
      ensures r.Ok? ==>
        var k := h.Resolve(recordId);
        var rec := h.records[k];
        r.value == SdrHeader(h.next[k], k, rec[2], rec[3], rec[4])
    {
      var b := GetSdrBytes(h, reservationId, recordId, 5, 16, isDeviceSdr);
      if b.Err? {
        return Err(b.error);
      }
      HeaderSeen(h, h.Resolve(recordId));
      return Ok(HeaderOf(b.value));
    }

    method GetSdrByHeader(ghost h: Host, reservationId: seq<byte>, header: SdrHeader, maxRead: uint16, isDeviceSdr: bool)
      returns (r: Result<SdrInfo>)
      requires Valid() && ServesRecords(layer.answer, h, isDeviceSdr) && reservationId == h.reservation
      requires h.Stored(header.recordId) && h.IsSensor(header.recordId)
      requires header.recordLength == h.records[header.recordId][4]
      requires maxRead >= 1
      modifies layer
      ensures Valid() && old(layer.log) <= layer.log
      ensures r.Ok?
        <==> AnsweredSince(layer.answer, layer.log, |old(layer.log)|) && Scannable(h, header.recordId, maxRead)
      ensures r.Ok? ==> r.value == SeenInfo(h, header.recordId, maxRead)
    {
      var total: uint16 := header.recordLength + 5;
      var read := GetSdrBytes(h, reservationId, header.recordId, total, maxRead, isDeviceSdr);
      if read.Err? {
        return Err(read.error);
      }
      var b := read.value;
      if total >= 14 {
        InfoSeen(h, header.recordId, maxRead);
      }
      var seen := HeaderOf(b);
      if seen.recordType == 1 || seen.recordType == 2 {
        if |b| < 16 {
          return Err(ShortRecord);
        }
        return Ok(SdrInfo(seen, b[9], b[14], b[15]));
      } else {
        return Err(BadRecordType);
      }
    }

    /** Walks the list of records from recordId (0: from the first) to its end
        and collects the sensors; recordId 0 selects every one. */
    method ScanSdrLoop(ghost h: Host, ghost ks: seq<uint16>, reservationId: seq<byte>, recordId: uint16,
                       maxRead: uint16, isDeviceSdr: bool)
      returns (r: Result<seq<SdrInfo>>)
      requires Valid() && ServesRecords(layer.answer, h, isDeviceSdr) && reservationId == h.reservation
      requires maxRead >= 1 && Walkable(h, h.Resolve(recordId), ks)
      modifies layer
      ensures Valid() && old(layer.log) <= layer.log
      ensures r.Ok?
        <==> AnsweredSince(layer.answer, layer.log, |old(layer.log)|) && AllScannable(h, ks, recordId, maxRead)
      ensures r.Ok? ==> r.value == SeenList(h, ks, recordId, maxRead)
    {
      var recId := recordId;
      var sdrSet: seq<SdrInfo> := [];
      ghost var rest := ks;
      ghost var since := |layer.log|;
      while true
        invariant Valid() && old(layer.log) <= layer.log
        invariant AnsweredSince(layer.answer, layer.log, since)
        invariant Walkable(h, h.Resolve(recId), rest)
        invariant AllScannable(h, ks, recordId, maxRead) <==> AllScannable(h, rest, recordId, maxRead)
        invariant AllScannable(h, ks, recordId, maxRead) ==>
          sdrSet + SeenList(h, rest, recordId, maxRead) == SeenList(h, ks, recordId, maxRead)
        decreases |rest|
      {
        WalkOn(h, h.Resolve(recId), rest, recordId, maxRead, sdrSet);
        ghost var log0 := layer.log;
        var read := GetSdrHeader(h, reservationId, recId, isDeviceSdr);
        AnsweredInSteps(layer.answer, log0, layer.log, since);
        if read.Err? {
          return Err(read.error);
        }
        var header := read.value;
        var recordType := header.recordType;
        if (recordId == 0 || header.recordId == recordId) && (recordType == 1 || recordType == 2) {
          ghost var log1 := layer.log;
          var more := AppendSensor(h, reservationId, header, maxRead, isDeviceSdr, sdrSet);
          AnsweredInSteps(layer.answer, log1, layer.log, since);
          if more.Err? {
            return Err(more.error);
          }
          sdrSet := more.value;
        }
        rest := rest[1..];
        recId := header.nextRecordId;
        if recId == 0xFFFF {
          break;
        }
      }
      return Ok(sdrSet);
    }

    /** The branch of the loop that reads a sensor's record. */
    method AppendSensor(ghost h: Host, reservationId: seq<byte>, header: SdrHeader, maxRead: uint16,
                        isDeviceSdr: bool, sdrSet: seq<SdrInfo>)
      returns (r: Result<seq<SdrInfo>>)
      requires Valid() && ServesRecords(layer.answer, h, isDeviceSdr) && reservationId == h.reservation
      requires h.Stored(header.recordId) && h.IsSensor(header.recordId)
      requires header.recordLength == h.records[header.recordId][4]
      requires maxRead >= 1
      modifies layer
      ensures Valid() && old(layer.log) <= layer.log
      ensures r.Ok?
        <==> AnsweredSince(layer.answer, layer.log, |old(layer.log)|) && Scannable(h, header.recordId, maxRead)
      ensures r.Ok? ==> r.value == sdrSet + [SeenInfo(h, header.recordId, maxRead)]
    {
      var sdr := GetSdrByHeader(h, reservationId, header, maxRead, isDeviceSdr);
      if sdr.Err? {
        return Err(sdr.error);
      }
      var recordType := sdr.value.header.recordType;
      if recordType == 1 || recordType == 2 {
        return Ok(sdrSet + [sdr.value]);
      }
      return Ok(sdrSet);
    }

    /** One request whose answer is looked at by the caller. */
    method Ask(request: seq<byte>) returns (r: Result<seq<byte>>)
      requires request == DeviceIdRequest() || request == AllocationRequest()
               || request == ReserveRequest(true) || request == ReserveRequest(false)
      modifies layer
      ensures layer.log == old(layer.log) + [request]
      ensures AnsweredSince(layer.answer, layer.log, |old(layer.log)|) <==> r.Ok? && Whole(request, r.value)
      ensures r.Ok? ==> r.value != [] && layer.answer(|old(layer.log)|, request) == Some(r.value)
    {
      AnsweredOneMore(layer.answer, layer.log, |layer.log|, request);
      var reply := layer.ExecRaw(request);
      if reply.None? {
        return Err(ExecFailed);
      }
      if |reply.value| < 1 {
        return Err(NoData);
      }
      return Ok(reply.value);
    }

    method GetSdrInfo(isDeviceSdr: bool) returns (r: Result<()>)
      modifies layer
      ensures layer.log == old(layer.log) + [SdrInfoRequest(isDeviceSdr)]
      ensures r.Ok? <==> AnsweredSince(layer.answer, layer.log, |old(layer.log)|)
    {
      AnsweredOneMore(layer.answer, layer.log, |layer.log|, SdrInfoRequest(isDeviceSdr));
      var reply := layer.ExecRaw(SdrInfoRequest(isDeviceSdr));
      return if reply.None? then Err(ExecFailed) else Ok(());
    }

    method ReserveSdr(ghost h: Host, isDeviceSdr: bool) returns (r: Result<seq<byte>>)
      requires Reserves(layer.answer, h, isDeviceSdr)
      modifies layer
      ensures layer.log == old(layer.log) + [ReserveRequest(isDeviceSdr)]
      ensures AnsweredSince(layer.answer, layer.log, |old(layer.log)|) <==> r.Ok? && |r.value| >= 2
      ensures r.Ok? && |r.value| >= 2 ==> r.value == h.reservation
    {
      var reply := Ask(ReserveRequest(isDeviceSdr));
      if reply.Err? {
        return Err(reply.error);
      }
      return Ok(reply.value[1..]);
    }

    method GetSdrRepositoryAllocationInfo(ghost h: Host) returns (r: Result<uint16>)
      requires TellsAllocation(layer.answer, h)
      modifies layer
      ensures layer.log == old(layer.log) + [AllocationRequest()]
      ensures r.Ok? <==> AnsweredSince(layer.answer, layer.log, |old(layer.log)|)
      ensures r.Ok? ==> r.value == MaxRead(h, false)
    {
      var reply := Ask(AllocationRequest());
      if reply.Err? {
        return Err(reply.error);
      }
      var data := reply.value[1..];
      if |data| != 9 {
        return Err(BadReplyLength);
      }
      var allocationUnitSize := LittleEndian(data[2], data[3]);
      var sdrMaxReadLen: uint16 := 16;
      if allocationUnitSize != 0 {
        sdrMaxReadLen := allocationUnitSize;
      }
      return Ok(sdrMaxReadLen);
    }

    /** The whole scan. It succeeds exactly when each of its requests was
        answered and every sensor's record can be scanned, and then lists the
        sensors in chain order; if their records are long enough for the read
        size, each with its true fields. */
    method ScanSdr(ghost h: Host, ghost ks: seq<uint16>, isDeviceSdr: bool) returns (r: Result<seq<SdrInfo>>)
      requires Valid() && ServesHost(layer.answer, h, isDeviceSdr, ks)
      modifies layer
      ensures Valid() && old(layer.log) <= layer.log
      ensures r.Ok? <==>
        && AnsweredSince(layer.answer, layer.log, |old(layer.log)|)
        && AllScannable(h, ks, 0, MaxRead(h, isDeviceSdr))
      ensures r.Ok? ==> r.value == SeenList(h, ks, 0, MaxRead(h, isDeviceSdr))
      ensures r.Ok? && (forall k <- ks :: LongEnough(h, k, MaxRead(h, isDeviceSdr))) ==>
                r.value == TrueList(h, ks, 0)
    {
      ghost var since := |layer.log|;
      if AllScannable(h, ks, 0, MaxRead(h, isDeviceSdr)) && forall k <- ks :: LongEnough(h, k, MaxRead(h, isDeviceSdr)) {
        SeenListIsTrue(h, ks, 0, MaxRead(h, isDeviceSdr));
      }
      var info := GetSdrInfo(isDeviceSdr);
      if info.Err? {
        return Err(info.error);
      }
      ghost var log1 := layer.log;
      var reservationId := ReserveSdr(h, isDeviceSdr);
      AnsweredInSteps(layer.answer, log1, layer.log, since);
      if reservationId.Err? {
        return Err(reservationId.error);
      }
      var sdrMaxReadLen: uint16 := 16;
      if !isDeviceSdr {
        ghost var log2 := layer.log;
        var sdrMaxRead := GetSdrRepositoryAllocationInfo(h);
        AnsweredInSteps(layer.answer, log2, layer.log, since);
        if sdrMaxRead.Err? {
          return Err(sdrMaxRead.error);
        }
        sdrMaxReadLen := sdrMaxRead.value;
      }
      if |reservationId.value| < 2 {
        return Err(ShortReply);  // the first partial read quotes two bytes of it
      }
      ghost var log3 := layer.log;
      r := ScanSdrLoop(h, ks, reservationId.value, 0, sdrMaxReadLen, isDeviceSdr);
      AnsweredInSteps(layer.answer, log3, layer.log, since);
    }

    /** Where the host keeps its sensor records. */
    method GetDeviceId(ghost h: Host) returns (r: Result<bool>)
      requires TellsChoice(layer.answer, h)
      modifies layer
      ensures layer.log == old(layer.log) + [DeviceIdRequest()]
      ensures r.Ok? <==> AnsweredSince(layer.answer, layer.log, |old(layer.log)|) && h.choice.Some?
      ensures r.Ok? ==> Some(r.value) == h.choice
    {
      var reply := Ask(DeviceIdRequest());
      if reply.Err? {
        return Err(reply.error);
      }
      var data := reply.value[1..];
      if |data| < 2 || (Bit(data[1], 7) && |data| < 6) {
        return Err(ShortReply);
      }
      if Bit(data[1], 7) {
        if Bit(data[5], 1) {
          return Ok(false);
        } else if Bit(data[5], 0) {
          return Ok(true);
        } else {
          return Err(NoSdr);
        }
      } else {
        return Ok(false);
      }
    }

    /** Asks every sensor once, in order, reusing one request. */
    method GetSdrData(sdrs: seq<SdrInfo>) returns (r: Result<seq<SensorStatus>>)
      requires Valid() && TellsReadings(layer.answer)
      modifies layer
      ensures Valid() && old(layer.log) <= layer.log
      ensures r.Ok? <==> AnsweredSince(layer.answer, layer.log, |old(layer.log)|)
      ensures r.Ok? ==> |layer.log| == |old(layer.log)| + |sdrs|
      ensures r.Ok? ==> ReadInTurn(r.value, layer.answer, |old(layer.log)|, sdrs)
    {
      hide AnsweredSince, StatusOf, StatusAt, TellsReadings, Answered, Readable;
      AnsweredNothing(layer.answer, layer.log);
      var sensorStatus: seq<SensorStatus> := [];
      var cmd := cmdGetSensorReading.Clone();
      var request := cmd.data;
      for i := 0 to |sdrs|
        invariant Valid() && request.Length == 3 && request[0] == 0x4 && request[1] == 0x2D
        invariant old(layer.log) <= layer.log && |layer.log| == |old(layer.log)| + i
        invariant AnsweredSince(layer.answer, layer.log, |old(layer.log)|)
        invariant ReadInTurn(sensorStatus, layer.answer, |old(layer.log)|, sdrs[..i])
      {
        request[2] := sdrs[i].sensorNumber % 0x100;
        assert request[..] == ReadingRequest(sdrs[i].sensorNumber);
        AnsweredOneMore(layer.answer, layer.log, |old(layer.log)|, request[..]);
        ReadingArrives(layer.answer, |layer.log|, sdrs[i]);
        var reply := layer.ExecRaw(request[..]);
        if reply.None? {
          return Err(ExecFailed);
        }
        if |reply.value| < 1 {
          return Err(NoData);
        }
        var data := reply.value[1..];
        if |data| < 2 {
          return Err(ShortReply);
        }
        var status := DecodeReading(sdrs[i], data);
        sensorStatus := sensorStatus + [status];
        assert sdrs[..i + 1] == sdrs[..i] + [sdrs[i]];
      }
      assert sdrs[..|sdrs|] == sdrs;
      return Ok(sensorStatus);
    }

    /** The rest of its loop body: the status in one reading. */
    method DecodeReading(sdr: SdrInfo, data: seq<byte>) returns (s: SensorStatus)
      requires |data| >= 2 && (Readable(data) ==> |data| >= 3)
      ensures s == StatusOf(sdr, data)
    {
      s := SensorStatus(0, 0, false, 0, 0);
      if Bit(data[1], 5) || !Bit(data[1], 6) {
        s := s.(unavailable := true);
        return;
      }
      var readingType := sdr.readingType;
      var status: uint16 := 0;
      if readingType == 0x6F || (readingType >= 0x02 && readingType <= 0x0C) {
        status := data[2];
        if |data| >= 4 {
          status := LittleEndian(data[2], data[3] % 0x80);
        }
      } else if readingType == 1 {
        status := data[2] % 0x40;
      }
      s := SensorStatus(sdr.sensorNumber, status, false, sdr.sensorType, readingType);
    }

    /** The sensors of host h, scanned or remembered. */
    ghost predicate Remembers(h: Host, ks: seq<uint16>)
      requires h.choice.Some?
      reads this
    {
      sdrInfos.Some? ==>
        AllScannable(h, ks, 0, MaxRead(h, h.choice.value)) && sdrInfos.value == SeenList(h, ks, 0, MaxRead(h, h.choice.value))
    }

    /** Health of every component. A call that succeeds reports on the sensors
        remembered from an earlier call, whichever host that one asked, and else
        on those it scans, as they answer now; the readings are its last requests.
        What is remembered of this host stays true: with one host that does not
        change its records, every call reports on what a new scan would list. */
    method GetComponentHealth(ghost h: Host, ghost ks: seq<uint16>) returns (r: Result<map<string, string>>)
      requires Valid() && TellsChoice(layer.answer, h) && TellsReadings(layer.answer)
      requires h.choice.Some? ==> ServesHost(layer.answer, h, h.choice.value, ks)
      modifies layer, this`sdrInfos
      ensures Valid() && old(layer.log) <= layer.log
      ensures r.Ok? <==>
        && AnsweredSince(layer.answer, layer.log, |old(layer.log)|) && h.choice.Some?
        && (old(sdrInfos).Some? || AllScannable(h, ks, 0, MaxRead(h, h.choice.value)))
      ensures h.choice.Some? && old(Remembers(h, ks)) ==> Remembers(h, ks)
      ensures r.Ok? ==>
        var infos := if old(sdrInfos).Some? then old(sdrInfos).value else SeenList(h, ks, 0, MaxRead(h, h.choice.value));
        && sdrInfos == Some(infos) && |layer.log| >= |old(layer.log)| + |infos|
        && exists ss :: ReadInTurn(ss, layer.answer, |layer.log| - |infos|, infos) && IsHealth(r.value, ss)
    {
      hide AnsweredSince, SeenList, IsHealth, ReadInTurn, ServesHost, TellsChoice, TellsReadings;
      AnsweredNothing(layer.answer, layer.log);
      ghost var since := |layer.log|;
      var ret: map<string, string> := map[];
      var deviceId := GetDeviceId(h);
      if deviceId.Err? {
        return Err(deviceId.error);
      }
      if sdrInfos == None {
        ghost var log1 := layer.log;
        var scan := ScanSdr(h, ks, deviceId.value);
        AnsweredInSteps(layer.answer, log1, layer.log, since);
        sdrInfos := if scan.Ok? then Some(scan.value) else None;
        if scan.Err? {
          return Err(scan.error);
        }
      }
      ghost var log2 := layer.log;
      var sdrStatus := GetSdrData(sdrInfos.value);
      AnsweredInSteps(layer.answer, log2, layer.log, since);
      if sdrStatus.Err? {
        return Err(sdrStatus.error);
      }
      var ss := sdrStatus.value;
      ret := Summarise(ss);
      return Ok(ret);
    }

    /** The loop over the statuses. */
    method Summarise(ss: seq<SensorStatus>) returns (ret: map<string, string>)
      ensures IsHealth(ret, ss)
    {
      ret := map[];
      for i := 0 to |ss|
        invariant IsHealth(ret, ss[..i])
      {
        var s := ss[i];
        HealthOneMore(ret, ss[..i], s);
        assert ss[..i + 1] == ss[..i] + [s];
        if s.unavailable {
          continue;
        }
        var metrics := Component(s.sensorType);
        if s.readingType == 1 {
          ret := ret[metrics := GetSensorInfo(s.status).severity];
        } else {
          ret := MarkUnexpected(ret, metrics, BadStates(s.sensorType, s.readingType), s.status);
        }
      }
      assert ss[..|ss|] == ss;
    }

    /** Its inner loop, over the positions of the list of bad states. */
    method MarkUnexpected(m: map<string, string>, metrics: string, bad: seq<nat>, status: uint16)
      returns (ret: map<string, string>)
      ensures ret == if Flagged(bad, status) then m[metrics := "SEV_UNKNOWN"] else m
    {
      ret := m;
      ghost var hit := -1;
      for state := 0 to |bad|
        invariant hit >= 0 ==> hit < state && Bit(status, hit) && ret == m[metrics := "SEV_UNKNOWN"]
        invariant hit < 0 ==> ret == m && forall j: nat :: j < state ==> !Bit(status, j)
      {
        if Bit(status, state) {
          ret := ret[metrics := "SEV_UNKNOWN"];
          hit := state;
        }
      }
      assert Flagged(bad, status) <==> hit >= 0;
    }
  }
}
