/** `GetInventoryInfo`: finding the product information area of a FRU and
    reading it block by block (section 34.2 of IPMI v2.0, byte access). */
module FruReader {
  import opened Common
  import opened Bmc
  import opened FruText
  import opened FruWalk

  function FruHeaderRequest(): seq<byte> { [0xa, 0x10, 0x0] }

  function FruRead(offset: nat, count: nat): seq<byte> {
    [0xa, 0x11, 0x0, offset % 0x100, offset / 0x100 % 0x100, count % 0x100]
  }

  /** A block: its length, then its bytes. */
  predicate IsBlock(data: seq<byte>, image: seq<byte>, offset: nat, count: nat)
    requires offset + count <= |image|
  {
    && |data| >= 1 + count && data[0] == count
    && forall i :: 1 <= i < 1 + count ==> data[i] == image[offset + i - 1]
  }

  /** A reply with data behind its completion code. */
  predicate HasData(reply: Option<seq<byte>>) { reply.Some? && |reply.value| >= 2 }

  /** A controller with this FRU, read by bytes. It may refuse any request, by an
      error, an empty reply (as the `ipmitool` layers do) or a completion code
      alone, and it has no data outside the FRU. */
  ghost predicate ServesFru(answer: Answer, image: seq<byte>) {
    && |image| < 0x1_0000
    && (forall t: nat :: var a := answer(t, FruHeaderRequest());
          HasData(a) ==> |a.value| >= 4 && LittleEndian(a.value[1], a.value[2]) == |image| && a.value[3] % 2 == 0)
    && (forall t: nat, offset: nat, count: nat :: var a := answer(t, FruRead(offset, count));
          offset < 0x1_0000 && 1 <= count < 0x100 && HasData(a) ==>
            offset + count <= |image| && IsBlock(a.value[1..], image, offset, count))
  }

  ghost predicate Served(answer: Answer, log: seq<seq<byte>>, t: nat) {
    forall i :: t <= i < |log| ==> HasData(answer(i, log[i]))
  }

  /** The reply to the last request. */
  function Last(answer: Answer, log: seq<seq<byte>>): Option<seq<byte>>
    requires log != []
  {
    answer(|log| - 1, log[|log| - 1])
  }

  // Where the product information area is.

  /** `b * 8`, computed in a byte */
  function TimesEight(b: byte): byte { b as int * 8 % 0x100 }

  /** Where the code takes it to be when it reads the common header at offset e. */
  function Start(image: seq<byte>, e: nat): byte
    requires e + 8 <= |image|
  {
    TimesEight(image[e + 4])
  }

  function Length(image: seq<byte>, start: nat): byte
    requires start + 2 <= |image|
  {
    TimesEight(image[start + 1])
  }

  /** The area the FRU header points to is the one the code reads exactly when
      it starts and ends in the first 256 bytes of its range, that is when both
      header bytes are below 32. */
  lemma LocatedIff(image: seq<byte>)
    requires |image| >= 8
    requires var start := 8 * image[4] as int; start + 2 <= |image|
    ensures var start := 8 * image[4] as int;
      var length := 8 * image[start + 1] as int;
      Start(image, 0) == start && Length(image, Start(image, 0)) == length
      <==> image[4] < 32 && image[start + 1] < 32
  {
  }

  // Blocks of sixteen.

  function Blocks(length: nat): nat { (length + 15) / 16 }

  function BlockSize(length: nat, i: nat): nat
    requires 16 * i <= length
  {
    Min(16, length - 16 * i)
  }

  /** The buffer when n blocks have come in. */
  function Assembled(image: seq<byte>, start: nat, length: nat, n: nat): (b: seq<byte>)
    requires start + length <= |image|
    ensures |b| == length
    ensures n >= Blocks(length) ==> b == image[start..start + length]
  {
    seq(length, i requires 0 <= i < length => if i < 16 * n then image[start + i] else 0)
  }

  /** The first n block reads: one after another, without gap or overlap. */
  function BlockReads(start: nat, length: nat, n: nat): (rs: seq<seq<byte>>)
    requires n <= Blocks(length)
    ensures |rs| == n
  {
    seq(n, i requires 0 <= i < n => FruRead(start + 16 * i, BlockSize(length, i)))
  }

  /** An area of forty bytes at 8 takes two full blocks and one of eight bytes. */
  lemma BlocksExample()
    ensures Blocks(40) == 3 && BlockReads(8, 40, 3) == [
      [0x0A, 0x11, 0x00, 8, 0, 16], [0x0A, 0x11, 0x00, 24, 0, 16], [0x0A, 0x11, 0x00, 40, 0, 8]]
  {
  }

  lemma BlockReadsOneMore(start: nat, length: nat, n: nat)
    requires n < Blocks(length)
    ensures BlockReads(start, length, n + 1)
         == BlockReads(start, length, n) + [FruRead(start + 16 * n, BlockSize(length, n))]
  {
  }

  lemma FruFits(answer: Answer, image: seq<byte>)
    requires ServesFru(answer, image)
    ensures |image| < 0x1_0000
  {
  }

  lemma ServedNothing(answer: Answer, log: seq<seq<byte>>)
    ensures Served(answer, log, |log|)
  {
  }

  lemma ServedInSteps(answer: Answer, log: seq<seq<byte>>, log': seq<seq<byte>>, t: nat)
    requires t <= |log| && log <= log'
    ensures Served(answer, log', t) <==> Served(answer, log, t) && Served(answer, log', |log|)
  {
  }

  lemma ServedOneMore(answer: Answer, log: seq<seq<byte>>, t: nat, request: seq<byte>)
    requires t <= |log|
    ensures Served(answer, log + [request], t) <==> Served(answer, log, t) && HasData(answer(|log|, request))
    ensures Last(answer, log + [request]) == answer(|log|, request)
  {
    var longer := log + [request];
    assert longer[|log|] == request;
    if Served(answer, longer, t) {
      forall i | t <= i < |log| ensures HasData(answer(i, log[i])) {
        assert longer[i] == log[i];
      }
    }
  }

  lemma BlockArrives(answer: Answer, image: seq<byte>, t: nat, offset: nat, count: nat)
    requires ServesFru(answer, image) && offset < 0x1_0000 && 1 <= count < 0x100
    requires HasData(answer(t, FruRead(offset, count)))
    ensures offset + count <= |image|
    ensures IsBlock(answer(t, FruRead(offset, count)).value[1..], image, offset, count)
  {
  }

  lemma BlockFits(data: seq<byte>, image: seq<byte>, offset: nat, count: nat)
    requires offset + count <= |image| && IsBlock(data, image, offset, count)
    ensures |data| >= 1 + count && data[0] == count
  {
  }

  lemma NothingAssembled(image: seq<byte>, start: nat, length: nat, b: seq<byte>)
    requires start + length <= |image| && |b| == length && forall i :: 0 <= i < length ==> b[i] == 0
    ensures b == Assembled(image, start, length, 0) && BlockReads(start, length, 0) == []
  {
  }

  lemma BlockByte(data: seq<byte>, image: seq<byte>, offset: nat, count: nat, i: nat)
    requires offset + count <= |image| && IsBlock(data, image, offset, count) && i < count
    ensures |data| > count && data[1 + i] == image[offset + i]
  {
  }

  lemma RequestIs(c: seq<byte>)
    requires |c| == 6 && c[..3] == [0xa, 0x11, 0x0]
    ensures c == FruRead(LittleEndian(c[3], c[4]), c[5])
  {
    hide LittleEndian;
    var offset := LittleEndian(c[3], c[4]);
    assert Lo(offset) == c[3] && Hi(offset) == c[4];
    assert c == c[..3] + [c[3], c[4], c[5]];
  }

  /** Copying block n into the buffer. */
  lemma AssembledOneMore(image: seq<byte>, start: nat, length: nat, n: nat, data: seq<byte>, b: seq<byte>)
    requires start + length <= |image| && n < Blocks(length) && |b| == length
    requires IsBlock(data, image, start + 16 * n, BlockSize(length, n))
    requires forall i :: 0 <= i < length ==>
      b[i] == if 16 * n <= i < 16 * n + data[0] then data[1..][i - 16 * n] else Assembled(image, start, length, n)[i]
    ensures b == Assembled(image, start, length, n + 1)
  {
  }

  /** What the code makes of a product area that it takes to start here when n
      blocks of it come in. */
  function ProductOf(image: seq<byte>, start: nat, n: nat, running: bool): Result<Inventory>
    requires start + 2 <= |image|
  {
    var length := Length(image, start);
    if length == 0 || start + length > |image| then Err(BadProductSize)
    else Ok(FieldsFrom(Assembled(image, start, length, n), 0, running, map[]))
  }

  /** The same when it reads the common header at offset e. */
  function InventoryOf(image: seq<byte>, e: nat, n: nat, running: bool): Result<Inventory>
    requires e + 8 <= |image| && Start(image, e) + 2 <= |image|
  {
    ProductOf(image, Start(image, e), n, running)
  }

  /** Where the last block starts. */
  function LastBlock(length: nat): (offset: nat)
    requires length >= 1
    ensures offset == 16 * (Blocks(length) - 1) && offset < length
    ensures offset == 0 <==> length <= 16
    ensures length % 8 == 0 ==> offset + 8 <= length
  {
    assert 16 * (Blocks(length) - 1) % 8 == 0;
    16 * (Blocks(length) - 1)
  }

  /** The offset the request is left with after a call that reads the common
      header at e and comes to the last block of the product area. */
  function Left(image: seq<byte>, e: nat): nat
    requires e + 8 <= |image| && Start(image, e) + 2 <= |image| && Length(image, Start(image, e)) >= 1
  {
    Start(image, e) + LastBlock(Length(image, Start(image, e)))
  }

  /** The offset the request is left with after n requests of a call: the
      header's until the product area is asked for, then that of the read. */
  function LeftAfter(image: seq<byte>, e: nat, n: nat): nat
    requires n > 2 ==> e + 8 <= |image|
  {
    if n <= 2 then e else Start(image, e) + 16 * (if n <= 4 then 0 else n - 4)
  }

  /** The FRU has a common header at offset e that points into the FRU. */
  predicate Located(image: seq<byte>, e: nat) { e + 8 <= |image| && Start(image, e) + 2 <= |image| }

  lemma BlockInside(length: nat, i: nat)
    requires 16 * i < length
    ensures i < Blocks(length) && BlockSize(length, i) >= 1
    ensures i + 1 < Blocks(length) <==> 16 * (i + 1) < length
  {
  }

  /** offset / areaAccessedLength, which is 1 for bytes and 2 for words */
  function InUnits(offset: uint16, access: uint16): uint16 { if access == 2 then offset / 2 else offset }

  /** A FRU whose header points to a product area that stores these fields. */
  ghost predicate StoresProduct(image: seq<byte>, head: seq<byte>, fs: seq<Field>, rest: seq<byte>) {
    && |image| >= 8 && |head| == 3 && (forall f <- fs :: f.Valid())
    && image[4] < 32 && head[1] < 32
    && var start, area := 8 * image[4] as int, head + EncodeAll(fs) + rest;
      |area| == 8 * head[1] as int && start + |area| <= |image| && image[start..start + |area|] == area
  }

  /** Of such a FRU the first call, if it gets every block, reports the first,
      second and fifth field. */
  lemma InventoryIsProduct(image: seq<byte>, head: seq<byte>, fs: seq<Field>, rest: seq<byte>, running: bool, n: nat)
    requires StoresProduct(image, head, fs, rest) && |fs| >= 5
    requires n >= Blocks(8 * head[1] as int)
    ensures Start(image, 0) + 2 <= |image|
    ensures InventoryOf(image, 0, n, running) == Ok(Named(fs, running))
  {
    hide FieldsFrom, Named, EncodeAll;
    var start, area := 8 * image[4] as int, head + EncodeAll(fs) + rest;
    assert image[start + 1] == image[start..start + |area|][1] == head[1];
    assert Length(image, Start(image, 0)) == |area|;
    assert Assembled(image, start, |area|, n) == area;
    WalkInvertsEncoding(head, fs, rest, running);
  }

  lemma ProductIs(image: seq<byte>, start: nat, n: nat, running: bool)
    requires start + 2 <= |image|
    ensures var length := Length(image, start);
      ProductOf(image, start, n, running) ==
        if length == 0 || start + length > |image| then Err(BadProductSize)
        else Ok(FieldsFrom(Assembled(image, start, length, n), 0, running, map[]))
  {
  }

  /** A controller that answers reads of this FRU. */
  function FruReply(image: seq<byte>, request: seq<byte>): seq<byte>
    requires |image| < 0x1_0000
  {
    if request == [0x0A, 0x10, 0x00] then [0, Lo(|image|), Hi(|image|), 0]
    else if |request| == 6 && request[..3] == [0xa, 0x11, 0x0] then
      var offset, count := LittleEndian(request[3], request[4]) as int, request[5];
      if offset + count <= |image| then [0, count] + image[offset..offset + count] else [0xC9]  // out of range
    else [0xC1]  // invalid command
  }

  lemma OffsetBytes(offset: nat)
    requires offset < 0x1_0000
    ensures LittleEndian(offset % 0x100, offset / 0x100 % 0x100) == offset
  {
    assert offset / 0x100 % 0x100 == offset / 0x100;
  }

  lemma FruReplyToRead(image: seq<byte>, offset: nat, count: nat)
    requires |image| < 0x1_0000 && offset < 0x1_0000 && count < 0x100
    ensures FruReply(image, FruRead(offset, count)) ==
      if offset + count <= |image| then [0, count] + image[offset..offset + count] else [0xC9]
  {
    hide LittleEndian;
    OffsetBytes(offset);
    var request := FruRead(offset, count);
    assert request[..3] == [0xa, 0x11, 0x0] && |request| == 6 && request[5] == count;
    assert |FruHeaderRequest()| == 3;
  }

  lemma SliceIsBlock(image: seq<byte>, offset: nat, count: nat)
    requires offset + count <= |image| && count < 0x100
    ensures IsBlock(([0, count] + image[offset..offset + count])[1..], image, offset, count)
  {
  }

  /** What is assumed of a controller can be met, for every FRU. */
  lemma FruCanBeServed(image: seq<byte>, answer: Answer)
    requires |image| < 0x1_0000
    requires forall t, request :: answer(t, request) == Some(FruReply(image, request))
    ensures ServesFru(answer, image)
  {
    hide FruRead, FruReply, IsBlock;
    forall t: nat, offset: nat, count: nat | offset < 0x1_0000 && 1 <= count < 0x100
      ensures var a := answer(t, FruRead(offset, count));
        HasData(a) ==> offset + count <= |image| && IsBlock(a.value[1..], image, offset, count)
    {
      FruReplyToRead(image, offset, count);
      assert answer(t, FruRead(offset, count)) == Some(FruReply(image, FruRead(offset, count)));
      if offset + count <= |image| {
        SliceIsBlock(image, offset, count);
      }
    }
    FruReplyToHeader(image);
  }

  lemma FruReplyToHeader(image: seq<byte>)
    requires |image| < 0x1_0000
    ensures FruReply(image, FruHeaderRequest()) == [0, Lo(|image|), Hi(|image|), 0]
    ensures LittleEndian(Lo(|image|), Hi(|image|)) == |image|
  {
  }

  class FruParser {
    const layer: Controller
    const cmdFruData: array<byte>

    constructor (layer: Controller)
      ensures this.layer == layer && Valid() && Offset() == 0
    {
      this.layer := layer;
      cmdFruData := new byte[][0xa, 0x11, 0x0, 0x0, 0x0, 0x0];
    }

    ghost predicate Valid()
      reads cmdFruData
    {
      cmdFruData.Length == 6 && cmdFruData[..3] == [0xa, 0x11, 0x0]
    }

    /** The offset left in the shared request. */
    function Offset(): uint16
      requires Valid()
      reads cmdFruData
    {
      LittleEndian(cmdFruData[3], cmdFruData[4])
    }

    method GenerateFruData(offset: uint16, length: uint16)
      requires Valid()
      modifies cmdFruData
      ensures Valid() && cmdFruData[..] == FruRead(offset, length) && Offset() == offset
    {
      cmdFruData[3] := offset % 0x100;
      cmdFruData[4] := offset / 0x100 % 0x100;
      cmdFruData[5] := length % 0x100;
    }

    /** The block loop. It stops after the last block or at the first read that
        fails, and keeps what it has; a reply without data makes it panic. */
    method ReadBlocks(ghost image: seq<byte>, start: uint16, length: uint16, access: uint16)
      returns (area: seq<byte>, panics: bool, ghost sent: nat)
      requires Valid() && ServesFru(layer.answer, image) && access == 1
      requires 1 <= length < 0x100 && start + length <= |image|
      modifies layer, cmdFruData
      ensures Valid() && 1 <= sent <= Blocks(length)
      ensures layer.log == old(layer.log) + BlockReads(start, length, sent)
      ensures Offset() == start + 16 * (sent - 1)
      ensures var last := Last(layer.answer, layer.log);
        && (Served(layer.answer, layer.log, |old(layer.log)|) <==> HasData(last))
        && (HasData(last) ==> sent == Blocks(length))
        && (panics <==> last.Some? && !HasData(last))
        && area == Assembled(image, start, length, if HasData(last) then sent else sent - 1)
    {
      hide Assembled, BlockReads, Served, ServesFru, FruRead, IsBlock, Blocks;
      panics := false;
      var buffer := new byte[length](_ => 0);
      NothingAssembled(image, start, length, buffer[..]);
      BlockInside(length, 0);
      FruFits(layer.answer, image);
      ServedNothing(layer.answer, layer.log);
      var index: uint16 := 0;
      var byteLen: uint16 := if length <= 16 then length else 16;
      while true
        invariant Valid() && !panics && index < Blocks(length)
        invariant 16 * index < length && byteLen == BlockSize(length, index)
        invariant buffer[..] == Assembled(image, start, length, index)
        invariant layer.log == old(layer.log) + BlockReads(start, length, index)
        invariant Served(layer.answer, layer.log, |old(layer.log)|)
        decreases Blocks(length) - index
      {
        BlockInside(length, index);
        GenerateFruData(InUnits(start + index * 16, access), byteLen);
        ServedOneMore(layer.answer, layer.log, |old(layer.log)|, cmdFruData[..]);
        BlockReadsOneMore(start, length, index);
        ghost var t := |layer.log|;
        var reply := layer.ExecRaw(cmdFruData[..]);
        sent := index + 1;
        if reply.None? {
          break;
        }
        if |reply.value| < 2 {
          panics := true;
          break;
        }
        BlockArrives(layer.answer, image, t, start + index * 16, byteLen);
        var data := reply.value[1..];
        BlockFits(data, image, start + index * 16, byteLen);
        CopyBlock(buffer, index * 16, data[0], data[1..]);
        AssembledOneMore(image, start, length, index, data, buffer[..]);
        if (index + 1) * 16 < length {
          byteLen := 16;
          if length - (index + 1) * 16 <= 16 {
            byteLen := length - (index + 1) * 16;
          }
          index := index + 1;
        } else {
          break;
        }
      }
      area := buffer[..];
    }

    /** The FRU part of the inventory, told from the requests made and the last
        reply; all earlier ones had data. The common header is read at whatever
        offset the shared request was left with. If every read is served the
        result is that of the whole product area. If a block read fails the rest
        of the area is zeros; an earlier failure is an error. A reply without
        data makes it panic, but for a completion code at the common header:
        that gives no inventory and no error. */
    method GetInventoryInfo(ghost image: seq<byte>, running: bool) returns (r: Result<Inventory>, ghost n: nat)
      requires Valid() && ServesFru(layer.answer, image)
      modifies layer, cmdFruData
      ensures Valid() && old(layer.log) <= layer.log && n == |layer.log| - |old(layer.log)| >= 1
      ensures n > 2 ==> old(Offset()) + 8 <= |image|
      ensures Offset() == LeftAfter(image, old(Offset()), n)
      ensures Served(layer.answer, layer.log, |old(layer.log)|) <==> HasData(Last(layer.answer, layer.log))
      ensures var e, last := old(Offset()), Last(layer.answer, layer.log);
        if HasData(last) then
          if image == [] then r == Err(BadInventorySize)
          else Located(image, e) && r == InventoryOf(image, e, Blocks(Length(image, Start(image, e))), running)
               && (r.Ok? ==> Length(image, Start(image, e)) >= 1 && Offset() == Left(image, e))
        else if last.Some? then r == Ok(if n == 2 && last.value != [] then Fields(map[]) else Panicked)
        else if n <= 3 then r == Err(ExecFailed)
        else Located(image, e) && n - 3 <= Blocks(Length(image, Start(image, e))) && r == InventoryOf(image, e, n - 4, running)
    {
      hide Assembled, Served, ServesFru, IsBlock, FruRead, ProductOf, Blocks, BlockReads, TimesEight, LittleEndian;
      ghost var e, since := Offset(), |layer.log|;
      n := 1;
      FruFits(layer.answer, image);
      ServedNothing(layer.answer, layer.log);
      var size, access := ReadSize(image, since);
      if size.Err? {
        return if size.error == NoData then Ok(Panicked) else Err(ExecFailed), n;
      }
      if size.value <= 0 {
        return Err(BadInventorySize), n;
      }

      n := 2;
      cmdFruData[5] := 8;
      RequestIs(cmdFruData[..]);
      var header := ReadBlock(image, e, 8, since);
      if header.Err? {
        return if header.error == NoData then Ok(Panicked) else Err(ExecFailed), n;
      }
      if header.value != [] {
        BlockByte(header.value, image, e, 8, 4);
      }
      if |header.value| <= 8 {
        return Ok(Fields(map[])), n;
      }
      var start: uint16 := TimesEight(header.value[5]);
      ghost var before := layer.log;
      r, n := ReadProduct(image, start, access, size.value, running);
      n := n + 2;
      ServedInSteps(layer.answer, before, layer.log, since);
    }

    /** The rest of its body, once it knows where the product area starts. */
    method ReadProduct(ghost image: seq<byte>, start: uint16, access: uint16, size: uint16, running: bool)
      returns (r: Result<Inventory>, ghost n: nat)
      requires Valid() && ServesFru(layer.answer, image) && start < 0x100 && access == 1 && size == |image|
      modifies layer, cmdFruData
      ensures Valid() && old(layer.log) <= layer.log && n == |layer.log| - |old(layer.log)| >= 1
      ensures Offset() == start + 16 * (if n <= 2 then 0 else n - 2)
      ensures Served(layer.answer, layer.log, |old(layer.log)|) <==> HasData(Last(layer.answer, layer.log))
      ensures var last := Last(layer.answer, layer.log);
        if HasData(last) then
          && start + 2 <= |image| && r == ProductOf(image, start, Blocks(Length(image, start)), running)
          && (r.Ok? ==> Length(image, start) >= 1 && Offset() == start + LastBlock(Length(image, start)))
        else if last.Some? then r == Ok(Panicked)
        else if n == 1 then r == Err(ExecFailed)
        else start + 2 <= |image| && n - 1 <= Blocks(Length(image, start)) && r == ProductOf(image, start, n - 2, running)
    {
      hide Assembled, Served, ServesFru, IsBlock, FruRead, ProductOf, FieldsFrom, Blocks, BlockReads, TimesEight, LittleEndian;
      ServedNothing(layer.answer, layer.log);
      FruFits(layer.answer, image);
      n := 1;
      // the product area says how long it is
      GenerateFruData(InUnits(start, access), 2);
      var prefix := ReadBlock(image, start, 2, |layer.log|);
      if prefix.Err? || prefix.value == [] {
        return if prefix == Err(ExecFailed) then Err(ExecFailed) else Ok(Panicked), n;
      }
      BlockByte(prefix.value, image, start, 2, 1);
      var length: uint16 := TimesEight(prefix.value[2]);
      ProductIs(image, start, Blocks(length), running);
      if length == 0 || start + length > size {
        return Err(BadProductSize), n;
      }

      ghost var before, sent := layer.log, 0;
      var area, panics;
      area, panics, sent := ReadBlocks(image, start, length, access);
      n := 1 + sent;
      ServedInSteps(layer.answer, before, layer.log, |old(layer.log)|);
      if panics {
        return Ok(Panicked), n;
      }
      ProductIs(image, start, sent - 1, running);
      var inventory := ReadFields(area, running);
      return Ok(inventory), n;
    }

    /** Sends the shared request as it stands. */
    method ReadBlock(ghost image: seq<byte>, ghost offset: nat, ghost count: nat, ghost since: nat)
      returns (data: Result<seq<byte>>)
      requires Valid() && cmdFruData[..] == FruRead(offset, count) && since <= |layer.log|
      requires ServesFru(layer.answer, image) && offset < 0x1_0000 && 1 <= count < 0x100
      modifies layer
      ensures layer.log == old(layer.log) + [FruRead(offset, count)]
      ensures Served(layer.answer, layer.log, since)
        <==> data.Ok? && data.value != [] && old(Served(layer.answer, layer.log, since))
      ensures data == match Last(layer.answer, layer.log)
                      case None => Err(ExecFailed)
                      case Some(v) => if v == [] then Err(NoData) else Ok(v[1..])
      ensures data.Ok? && data.value != [] ==> offset + count <= |image| && IsBlock(data.value, image, offset, count)
    {
      hide Served, ServesFru, IsBlock, FruRead;
      ServedOneMore(layer.answer, layer.log, since, cmdFruData[..]);
      ghost var t := |layer.log|;
      var reply := layer.ExecRaw(cmdFruData[..]);
      if reply.None? {
        return Err(ExecFailed);
      }
      if reply.value == [] {
        return Err(NoData);
      }
      if |reply.value| >= 2 {
        BlockArrives(layer.answer, image, t, offset, count);
      }
      return Ok(reply.value[1..]);
    }

    /** The inventory area info: size in bytes, and 1 for access by bytes. */
    method ReadSize(ghost image: seq<byte>, ghost since: nat) returns (size: Result<uint16>, access: uint16)
      requires ServesFru(layer.answer, image) && since <= |layer.log|
      modifies layer
      ensures layer.log == old(layer.log) + [FruHeaderRequest()]
      ensures Served(layer.answer, layer.log, since) <==> size.Ok? && old(Served(layer.answer, layer.log, since))
      ensures var last := Last(layer.answer, layer.log);
        if HasData(last) then size == Ok(|image|) && access == 1
        else size == Err(if last.Some? then NoData else ExecFailed)
    {
      hide Served;
      ServedOneMore(layer.answer, layer.log, since, FruHeaderRequest());
      var reply := layer.ExecRaw(FruHeaderRequest());
      if reply.None? {
        return Err(ExecFailed), 1;
      }
      if |reply.value| < 2 {
        return Err(NoData), 1;
      }
      var data := reply.value[1..];
      return Ok(LittleEndian(data[0], data[1])), data[2] % 2 + 1;
    }

    /** `copy(buffer[at:at+n], src)` */
    method CopyBlock(buffer: array<byte>, at: nat, n: nat, src: seq<byte>)
      requires at + n <= buffer.Length
      modifies buffer
      ensures forall i :: 0 <= i < buffer.Length ==>
        buffer[i] == if at <= i < at + n && i - at < |src| then src[i - at] else old(buffer[i])
    {
      for i := 0 to Min(n, |src|)
        invariant forall j :: 0 <= j < buffer.Length ==>
          buffer[j] == if at <= j < at + i then src[j - at] else old(buffer[j])
      {
        buffer[at + i] := src[i];
      }
    }
  }
}
