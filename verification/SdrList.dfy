/** Which sensors a scan lists and with what fields, told from record bytes:
    sections 43.1 and 43.2 of IPMI v2.0. */
module SdrList {
  import opened Common
  import opened Repository
  import opened SdrPlan
  import opened SdrSpec

  /** Record k is a full (01h) or compact (02h) sensor record that was asked for. */
  ghost predicate Selected(h: Host, k: uint16, recordId: uint16)
    requires h.Stored(k)
  {
    (recordId == 0 || k == recordId) && (h.records[k][3] == 0x01 || h.records[k][3] == 0x02)
  }

  /** js are the positions of the selected records of ks from i on, in order. */
  ghost predicate Positions(h: Host, ks: seq<uint16>, i: nat, recordId: uint16, js: seq<nat>)
    requires forall k <- ks :: h.Stored(k)
  {
    && (forall n :: 0 <= n < |js| ==> i <= js[n] < |ks| && Selected(h, ks[js[n]], recordId))
    && (forall n, n' :: 0 <= n < n' < |js| ==> js[n] < js[n'])
    && forall j: nat :: i <= j < |ks| && Selected(h, ks[j], recordId) ==> j in js
  }

  lemma OneMorePosition(h: Host, ks: seq<uint16>, i: nat, recordId: uint16, js: seq<nat>)
    requires i < |ks| && (forall k <- ks :: h.Stored(k)) && Positions(h, ks, i + 1, recordId, js)
    ensures Positions(h, ks, i, recordId, if Selected(h, ks[i], recordId) then [i] + js else js)
  {
    hide Selected;
  }

  /** Every selected record can be scanned with reads of m bytes. */
  ghost predicate SelectedFit(h: Host, ks: seq<uint16>, recordId: uint16, m: nat) {
    forall k <- ks :: h.Stored(k) &&
      (Selected(h, k, recordId) ==> |h.records[k]| >= 14 && (m <= 255 || |h.records[k]| <= 255))
  }

  lemma FitIsScannable(h: Host, ks: seq<uint16>, recordId: uint16, m: nat)
    ensures SelectedFit(h, ks, recordId, m) <==> AllScannable(h, ks, recordId, m)
  {
  }

  /** The entry for record k as the bytes say: id of the next record and its own,
      version (byte 2), type (3), length (4), sensor number (7), sensor type (12)
      and reading type (13). */
  ghost predicate IsEntry(e: SdrInfo, h: Host, k: uint16)
    requires h.Stored(k) && |h.records[k]| >= 14
  {
    var rec := h.records[k];
    e == SdrInfo(SdrHeader(h.next[k], k, rec[2], rec[3], rec[4]), rec[7], rec[12], rec[13])
  }

  /** The same for one of which reads of m bytes reach so many. */
  ghost predicate IsSeenEntry(e: SdrInfo, h: Host, k: uint16, reach: nat)
    requires h.Stored(k) && |h.records[k]| >= 14
  {
    var rec := h.records[k];
    && e.header == SdrHeader(h.next[k], k, rec[2], rec[3], rec[4]) && e.sensorNumber == rec[7]
    && e.sensorType == (if reach >= 13 then rec[12] else 0)
    && e.readingType == (if reach >= 14 then rec[13] else 0)
  }

  /** The true list has exactly the selected records, in the order of the chain. */
  lemma TrueListIs(h: Host, ks: seq<uint16>, recordId: uint16) returns (js: seq<nat>)
    requires SelectedFit(h, ks, recordId, 1)
    ensures forall k <- ks :: h.Stored(k) && (Wanted(h, k, recordId) ==> |h.records[k]| >= 14)
    ensures Positions(h, ks, 0, recordId, js) && |TrueList(h, ks, recordId)| == |js|
    ensures forall n :: 0 <= n < |js| ==> IsEntry(TrueList(h, ks, recordId)[n], h, ks[js[n]])
  {
    FitIsScannable(h, ks, recordId, 1);
    js := TrueListFrom(h, ks, 0, recordId);
    assert ks[0..] == ks;
  }

  lemma {:induction false} TrueListFrom(h: Host, ks: seq<uint16>, i: nat, recordId: uint16) returns (js: seq<nat>)
    requires i <= |ks| && SelectedFit(h, ks, recordId, 1) && AllScannable(h, ks, recordId, 1)
    ensures Positions(h, ks, i, recordId, js) && |TrueList(h, ks[i..], recordId)| == |js|
    ensures forall n :: 0 <= n < |js| ==> IsEntry(TrueList(h, ks[i..], recordId)[n], h, ks[js[n]])
    decreases |ks| - i
  {
    hide Positions, IsEntry;
    if i == |ks| {
      js := [];
      NoPositions(h, ks, recordId);
    } else {
      var rest := TrueListFrom(h, ks, i + 1, recordId);
      OneMorePosition(h, ks, i, recordId, rest);
      js := if Selected(h, ks[i], recordId) then [i] + rest else rest;
      assert ks[i..][0] == ks[i] && ks[i..][1..] == ks[i + 1..];
      EntryOf(h, ks[i], recordId);
    }
  }

  lemma NoPositions(h: Host, ks: seq<uint16>, recordId: uint16)
    requires forall k <- ks :: h.Stored(k)
    ensures Positions(h, ks, |ks|, recordId, [])
  {
  }

  lemma EntryOf(h: Host, k: uint16, recordId: uint16)
    requires h.Stored(k)
    ensures Selected(h, k, recordId) <==> Wanted(h, k, recordId)
    ensures Selected(h, k, recordId) && |h.records[k]| >= 14 ==>
      && IsEntry(TrueInfo(h, k), h, k)
      && forall m: nat | m >= 1 :: IsSeenEntry(SeenInfo(h, k, m), h, k, Reach(|h.records[k]|, m))
  {
    hide Reach;
  }

  /** What partial reads show has the same records in the same order. */
  lemma SeenListIs(h: Host, ks: seq<uint16>, recordId: uint16, m: nat) returns (js: seq<nat>)
    requires m >= 1 && SelectedFit(h, ks, recordId, m)
    ensures AllScannable(h, ks, recordId, m)
    ensures Positions(h, ks, 0, recordId, js) && |SeenList(h, ks, recordId, m)| == |js|
    ensures forall n :: 0 <= n < |js| ==>
      IsSeenEntry(SeenList(h, ks, recordId, m)[n], h, ks[js[n]], Reach(|h.records[ks[js[n]]]|, m))
  {
    FitIsScannable(h, ks, recordId, m);
    js := SeenListFrom(h, ks, 0, recordId, m);
    assert ks[0..] == ks;
  }

  lemma {:induction false} SeenListFrom(h: Host, ks: seq<uint16>, i: nat, recordId: uint16, m: nat) returns (js: seq<nat>)
    requires i <= |ks| && m >= 1 && SelectedFit(h, ks, recordId, m) && AllScannable(h, ks, recordId, m)
    ensures Positions(h, ks, i, recordId, js) && |SeenList(h, ks[i..], recordId, m)| == |js|
    ensures forall n :: 0 <= n < |js| ==>
      IsSeenEntry(SeenList(h, ks[i..], recordId, m)[n], h, ks[js[n]], Reach(|h.records[ks[js[n]]]|, m))
    decreases |ks| - i
  {
    hide Positions, IsSeenEntry, Reach;
    if i == |ks| {
      js := [];
      NoPositions(h, ks, recordId);
    } else {
      var rest := SeenListFrom(h, ks, i + 1, recordId, m);
      OneMorePosition(h, ks, i, recordId, rest);
      js := if Selected(h, ks[i], recordId) then [i] + rest else rest;
      assert ks[i..][0] == ks[i] && ks[i..][1..] == ks[i + 1..];
      EntryOf(h, ks[i], recordId);
    }
  }

  /** Without an allocation unit, and always for a device's own records, reads
      are of 16 bytes, which show every record as it is. */
  lemma DefaultReads(h: Host, k: uint16, device: bool)
    requires h.Stored(k) && (device || h.allocationUnit == 0)
    ensures MaxRead(h, device) == 16 && LongEnough(h, k, 16)
  {
    LongEnoughCases(h, k, 16);
  }

  /** Two sensors, full and compact, with another record between them. */
  function ExampleHost(): Host {
    Host(Some(false),
         map[1 := [1, 0, 0x51, 0x01, 9, 0x20, 0, 0x30, 0, 0, 0, 0, 0x01, 0x01],
             7 := [7, 0, 0x51, 0x12, 0],
             2 := [2, 0, 0x51, 0x02, 9, 0x20, 0, 0x31, 0, 0, 0, 0, 0x04, 0x03]],
         map[1 := 7, 7 := 2, 2 := 0xFFFF],
         1, [0x34, 0x12], 0)
  }

  lemma ChainExample()
    ensures var h := ExampleHost();
      && h.IsChain(h.Resolve(0), [1, 7, 2]) && SelectedFit(h, [1, 7, 2], 0, 16)
      && AllScannable(h, [1, 7, 2], 0, 16)
      && SeenList(h, [1, 7, 2], 0, 16) == [
           SdrInfo(SdrHeader(7, 1, 0x51, 0x01, 9), 0x30, 0x01, 0x01),
           SdrInfo(SdrHeader(0xFFFF, 2, 0x51, 0x02, 9), 0x31, 0x04, 0x03)]
  {
    var h := ExampleHost();
    assert h.Stored(1) && h.Stored(7) && h.Stored(2);
    assert [1, 7, 2][1..] == [7, 2] && [7, 2][1..] == [2] && [2][1..] == [];
    assert Reach(14, 16) == 14;
  }
}
