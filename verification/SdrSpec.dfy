/** What a scan of the SDR repository should find, and what partial reads of
    at most m bytes let it see. */
module SdrSpec {
  import opened Common
  import opened Bmc
  import opened Repository
  import opened SdrPlan

  datatype SdrHeader = SdrHeader(
    nextRecordId: uint16, recordId: uint16, version: uint16, recordType: uint16, recordLength: uint16)

  datatype SdrInfo = SdrInfo(
    header: SdrHeader, sensorNumber: uint16, sensorType: uint16, readingType: uint16)

  /** The buffer of `GetSdrBytes` once it holds n bytes of the record: the id
      of the next record, those n bytes, zeros after that. */
  function Filling(h: Host, k: uint16, total: nat, n: nat): (b: seq<byte>)
    requires h.Stored(k) && n <= total <= |h.records[k]|
    ensures |b| == total + 2
  {
    seq(total + 2, i requires 0 <= i < total + 2 => FillingByte(h, k, n, i))
  }

  function FillingByte(h: Host, k: uint16, n: nat, i: nat): byte
    requires h.Stored(k) && n <= |h.records[k]|
  {
    if i >= 2 then (if i - 2 < n then h.records[k][i - 2] else 0)
    else if n == 0 then 0
    else if i == 0 then Lo(h.next[k]) else Hi(h.next[k])
  }

  /** What `GetSdrBytes` returns: as much of the record as its reads reach. */
  function Buffer(h: Host, k: uint16, total: nat, m: nat): (b: seq<byte>)
    requires h.Stored(k) && total <= |h.records[k]| && m >= 1
  {
    Filling(h, k, total, Reach(total, m))
  }

  /** Buffer b with the next record id of piece sdr in front and its n record
      bytes behind the first `have` ones. */
  function Store(b: seq<byte>, have: nat, n: nat, sdr: seq<byte>): (c: seq<byte>)
    requires 2 + have + n <= |b| && |sdr| >= 2 + n
    ensures |c| == |b|
  {
    seq<byte>(|b|, i requires 0 <= i < |b| =>
      if i < 2 then sdr[i] else if 2 + have <= i < 2 + have + n then sdr[i - have] else b[i])
  }

  /** Storing a piece takes the buffer from one filling to the next. */
  lemma FillingOneMore(h: Host, k: uint16, total: nat, have: nat, n: nat, sdr: seq<byte>)
    requires h.Stored(k) && n >= 1 && have + n <= total <= |h.records[k]|
    requires IsPiece(sdr, h, k, have, n)
    ensures Store(Filling(h, k, total, have), have, n, sdr) == Filling(h, k, total, have + n)
  {
  }

  /** The first k of the requests that read record id. */
  function PartialReads(device: bool, reservation: seq<byte>, id: uint16, total: nat, m: nat, k: nat): (rs: seq<seq<byte>>)
    requires |reservation| >= 2
    ensures |rs| == k
  {
    seq(k, i requires 0 <= i < k => GetSdrRequest(device, reservation, id, Offset(m, i), Count(total, m, i)))
  }

  lemma PartialReadsOneMore(device: bool, reservation: seq<byte>, id: uint16, total: nat, m: nat, k: nat)
    requires |reservation| >= 2
    ensures PartialReads(device, reservation, id, total, m, k + 1)
         == PartialReads(device, reservation, id, total, m, k)
          + [GetSdrRequest(device, reservation, id, Offset(m, k), Count(total, m, k))]
  {
  }

  /** The record as its bytes say. */
  function TrueInfo(h: Host, k: uint16): SdrInfo
    requires h.Stored(k) && h.IsSensor(k) && |h.records[k]| >= 14
  {
    var r := h.records[k];
    SdrInfo(SdrHeader(h.next[k], k, r[2], r[3], r[4]), r[7], r[12], r[13])
  }

  /** The record as far as reads of at most m bytes show it. */
  function SeenInfo(h: Host, k: uint16, m: nat): SdrInfo
    requires h.Stored(k) && h.IsSensor(k) && |h.records[k]| >= 14 && m >= 1
  {
    var reach := Reach(|h.records[k]|, m);
    TrueInfo(h, k).(sensorType := if reach >= 13 then h.records[k][12] else 0,
                    readingType := if reach >= 14 then h.records[k][13] else 0)
  }

  /** The fields `GetSdrHeader` takes out of a buffer. */
  function HeaderOf(b: seq<byte>): SdrHeader
    requires |b| >= 7
  {
    SdrHeader(LittleEndian(b[0], b[1]), LittleEndian(b[2], b[3]), b[4], b[5], b[6])
  }

  lemma WordOf(x: uint16)
    ensures LittleEndian(Lo(x), Hi(x)) == x
  {
  }

  lemma HeaderSeen(h: Host, k: uint16)
    requires h.Stored(k)
    ensures HeaderOf(Buffer(h, k, 5, 16))
         == SdrHeader(h.next[k], k, h.records[k][2], h.records[k][3], h.records[k][4])
  {
  }

  lemma InfoSeen(h: Host, k: uint16, m: nat)
    requires h.Stored(k) && h.IsSensor(k) && |h.records[k]| >= 14 && m >= 1
    ensures var b := Buffer(h, k, |h.records[k]|, m);
      SdrInfo(HeaderOf(b), b[9], b[14], b[15]) == SeenInfo(h, k, m)
  {
    HeaderCovered(|h.records[k]|, m);
    WordOf(h.next[k]);
    WordOf(k);
    var b := Buffer(h, k, |h.records[k]|, m);
    assert b[0] == Lo(h.next[k]) && b[1] == Hi(h.next[k]) && b[2] == Lo(k) && b[3] == Hi(k);
  }

  predicate Wanted(h: Host, k: uint16, recordId: uint16)
    requires h.Stored(k)
  {
    (recordId == 0 || k == recordId) && h.IsSensor(k)
  }

  /** A sensor's record that holds its fields up to the reading type, and whose
      reads fit the one-byte request fields (see RequestsFitIff). */
  predicate Scannable(h: Host, k: uint16, m: nat)
    requires h.Stored(k)
  {
    |h.records[k]| >= 14 && (m < 0x100 || |h.records[k]| < 0x100)
  }

  ghost predicate AllScannable(h: Host, ks: seq<uint16>, recordId: uint16, m: nat) {
    forall k <- ks :: h.Stored(k) && (Wanted(h, k, recordId) ==> Scannable(h, k, m))
  }

  /** The sensors of a chain, in chain order; recordId 0 selects all of them. */
  ghost function TrueList(h: Host, ks: seq<uint16>, recordId: uint16): seq<SdrInfo>
    requires forall k <- ks :: h.Stored(k) && (Wanted(h, k, recordId) ==> |h.records[k]| >= 14)
  {
    if ks == [] then []
    else (if Wanted(h, ks[0], recordId) then [TrueInfo(h, ks[0])] else []) + TrueList(h, ks[1..], recordId)
  }

  ghost function SeenList(h: Host, ks: seq<uint16>, recordId: uint16, m: nat): seq<SdrInfo>
    requires m >= 1 && AllScannable(h, ks, recordId, m)
  {
    if ks == [] then []
    else (if Wanted(h, ks[0], recordId) then [SeenInfo(h, ks[0], m)] else []) + SeenList(h, ks[1..], recordId, m)
  }

  /** The size `ScanSdr` uses for its reads. */
  function MaxRead(h: Host, device: bool): (m: uint16)
    ensures m >= 1
  {
    if device || h.allocationUnit == 0 then 16 else h.allocationUnit
  }

  /** The part of a chain that is still to be walked, from key k on. */
  ghost predicate Walkable(h: Host, k: uint16, rest: seq<uint16>) {
    h.IsChain(k, rest) && forall j <- rest :: h.Stored(j)
  }

  /** One record on: what is collected so far and what is still to come make
      up the same list, as long as every sensor met can be scanned. */
  lemma WalkOn(h: Host, k: uint16, rest: seq<uint16>, recordId: uint16, m: nat, sofar: seq<SdrInfo>)
    requires m >= 1 && Walkable(h, k, rest)
    ensures h.Stored(k)
    ensures AllScannable(h, rest, recordId, m)
      <==> (Wanted(h, k, recordId) ==> Scannable(h, k, m)) && AllScannable(h, rest[1..], recordId, m)
    ensures AllScannable(h, rest, recordId, m) ==>
      sofar + SeenList(h, rest, recordId, m)
        == (if Wanted(h, k, recordId) then sofar + [SeenInfo(h, k, m)] else sofar)
         + SeenList(h, rest[1..], recordId, m)
    ensures if h.next[k] == 0xFFFF then rest[1..] == []
            else Walkable(h, h.Resolve(h.next[k]), rest[1..])
  {
    assert rest == [k] + rest[1..];
  }

  /** A controller whose records form a list ks that a scan can walk. */
  ghost predicate ServesHost(answer: Answer, h: Host, device: bool, ks: seq<uint16>) {
    && Reserves(answer, h, device) && TellsAllocation(answer, h) && ServesRecords(answer, h, device)
    && Walkable(h, h.first, ks)
  }

  /** A condition on record length and read size alone. */
  predicate LongEnough(h: Host, k: uint16, m: nat)
    requires m >= 1 && h.Stored(k)
  {
    h.IsSensor(k) ==> (2 * (13 / m) - 1) * m < |h.records[k]|
  }

  /** Where the condition holds the record is seen as it is; where it fails,
      the same record with another reading type is seen wrongly. */
  lemma SeenIsTrueIff(h: Host, k: uint16, m: nat)
    requires m >= 1 && h.Stored(k) && h.IsSensor(k) && |h.records[k]| >= 14
    ensures LongEnough(h, k, m) ==> SeenInfo(h, k, m) == TrueInfo(h, k)
    ensures !LongEnough(h, k, m) ==>
              var h' := h.(records := h.records[k := h.records[k][13 := 1]]);
              h'.Stored(k) && h'.IsSensor(k) && |h'.records[k]| >= 14 && SeenInfo(h', k, m) != TrueInfo(h', k)
  {
    CoversIff(|h.records[k]|, m, 14);
  }

  /** A record of 26 bytes or more is seen as it is whatever the read size
      (IPMI v2.0 makes sensor records longer than that), and reads of 14
      bytes see every record as it is. */
  lemma LongEnoughCases(h: Host, k: uint16, m: nat)
    requires m >= 1 && h.Stored(k)
    requires |h.records[k]| >= 26 || m >= 14
    ensures LongEnough(h, k, m)
  {
  }

  lemma {:induction false} SeenListIsTrue(h: Host, ks: seq<uint16>, recordId: uint16, m: nat)
    requires m >= 1 && AllScannable(h, ks, recordId, m) && forall k <- ks :: LongEnough(h, k, m)
    ensures SeenList(h, ks, recordId, m) == TrueList(h, ks, recordId)
  {
    if ks != [] {
      assert h.Stored(ks[0]);
      if Wanted(h, ks[0], recordId) {
        SeenIsTrueIff(h, ks[0], m);
      }
      SeenListIsTrue(h, ks[1..], recordId, m);
    }
  }
}
