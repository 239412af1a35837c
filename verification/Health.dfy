/** From sensor readings to component health. */
module Health {
  import opened Common
  import opened Bmc
  import opened Repository
  import opened SdrSpec

  datatype SensorStatus = SensorStatus(
    sensorNumber: uint16, status: uint16, unavailable: bool, sensorType: uint16, readingType: uint16)

  datatype SensorInfo = SensorInfo(errorCode: uint16, description: string, severity: string)

  predicate IsDiscrete(readingType: uint16) { readingType == 0x6F || 0x02 <= readingType <= 0x0C }

  /** What one turn of the loop in `GetSdrData` makes of a reading; a sensor
      that cannot be read leaves the zero value with the flag set. */
  function StatusOf(info: SdrInfo, data: seq<byte>): SensorStatus
    requires |data| >= 2 && (Readable(data) ==> |data| >= 3)
  {
    if !Readable(data) then SensorStatus(0, 0, true, 0, 0)
    else
      var status: uint16 :=
        if IsDiscrete(info.readingType) then LittleEndian(data[2], if |data| >= 4 then data[3] % 0x80 else 0)
        else if info.readingType == 1 then data[2] % 0x40
        else 0;
      SensorStatus(info.sensorNumber, status, false, info.sensorType, info.readingType)
  }

  /** The status of a sensor that answers at time t. */
  ghost function StatusAt(answer: Answer, t: nat, info: SdrInfo): SensorStatus {
    var a := answer(t, ReadingRequest(info.sensorNumber));
    if a.Some? && |a.value| >= 3 && (Readable(a.value[1..]) ==> |a.value| >= 4)
    then StatusOf(info, a.value[1..])
    else SensorStatus(0, 0, true, 0, 0)
  }

  /** ss are the statuses of infos, read one after another from time t on. */
  ghost predicate ReadInTurn(ss: seq<SensorStatus>, answer: Answer, t: nat, infos: seq<SdrInfo>) {
    |ss| == |infos| && forall i :: 0 <= i < |ss| ==> ss[i] == StatusAt(answer, t + i, infos[i])
  }

  lemma ReadingArrives(answer: Answer, t: nat, info: SdrInfo)
    requires TellsReadings(answer)
    ensures var a := answer(t, ReadingRequest(info.sensorNumber));
      && (Answered(ReadingRequest(info.sensorNumber), a) <==> a.Some? && |a.value| >= 3)
      && (a.Some? && |a.value| >= 3 ==>
           && (Readable(a.value[1..]) ==> |a.value| >= 4)
           && StatusAt(answer, t, info) == StatusOf(info, a.value[1..]))
  {
    hide StatusOf, Readable;
  }

  function GetSensorInfo(reading: uint16): SensorInfo {
    if Bit(reading, 5) then SensorInfo(6, "at or above upper non-recoverable threshold", "CRITICAL")
    else if Bit(reading, 4) then SensorInfo(5, "at or above upper critical threshold", "CRITICAL")
    else if Bit(reading, 3) then SensorInfo(4, "at or above upper non-critical threshold", "WARNING")
    else if Bit(reading, 2) then SensorInfo(3, "at or below lower non-recoverable threshold", "CRITICAL")
    else if Bit(reading, 1) then SensorInfo(2, "at or below lower critical threshold", "CRITICAL")
    else if Bit(reading, 0) then SensorInfo(1, "at or below lower non-critical threshold", "WARNING")
    else SensorInfo(0, "", "OK")
  }

  /** `SensorTypeComponentMap`; a type without an entry has the empty name. */
  function Component(sensorType: uint16): string {
    match sensorType
    case 1 => "health/temperature"
    case 2 => "health/voltage"
    case 4 => "health/fan"
    case 7 => "health/processor"
    case 8 => "health/powersupply"
    case 12 => "health/memory"
    case 13 => "health/storage"
    case 41 => "health/battery"
    case _ => ""
  }

  const EVERY_BIT: seq<nat> := [0, 1, 2, 3, 4, 5, 6, 7, 8, 9, 10, 11, 12]

  /** `SensorHealthConfig`: the states of a sensor that are listed as bad. */
  function BadStates(sensorType: uint16, readingType: uint16): seq<nat> {
    match (sensorType, readingType)
    case (1, 1) => EVERY_BIT
    case (1, 3) => [1]
    case (1, 5) => [1]
    case (2, 1) => EVERY_BIT
    case (2, 3) => [1]
    case (4, 1) => EVERY_BIT
    case (4, 3) => [1]
    case (4, 7) => [2, 3, 5]
    case (4, 11) => [1, 5]
    case (7, 1) => EVERY_BIT
    case (7, 3) => [1]
    case (7, 111) => [0, 1, 2, 3, 4, 5, 6, 11]
    case (8, 3) => [1]
    case (8, 7) => [2, 3, 5]
    case (8, 11) => [1, 5]
    case (8, 111) => [1, 2, 3, 4, 5, 6]
    case (12, 1) => EVERY_BIT
    case (12, 111) => [1, 3, 7, 10]
    case (12, 3) => [1]
    case (13, 111) => [1, 2, 5, 6, 8]
    case (13, 3) => [1]
    case (41, 111) => [0, 1]
    case _ => []
  }

  /** Go's one-variable `range` yields positions, so the bits tested are the
      positions of the list, not its entries. */
  predicate Flagged(bad: seq<nat>, status: uint16) {
    exists i :: 0 <= i < |bad| && Bit(status, i)
  }

  /** The test the table is written for. */
  predicate InBadState(bad: seq<nat>, status: uint16) {
    exists b <- bad :: Bit(status, b)
  }

  /** What a sensor writes, and under which name. */
  function Report(s: SensorStatus): Option<(string, string)> {
    if s.unavailable then None
    else if s.readingType == 1 then Some((Component(s.sensorType), GetSensorInfo(s.status).severity))
    else if Flagged(BadStates(s.sensorType, s.readingType), s.status)
    then Some((Component(s.sensorType), "SEV_UNKNOWN"))
    else None
  }

  predicate ReportsOn(s: SensorStatus, key: string) { Report(s).Some? && Report(s).value.0 == key }

  /** The i-th sensor is the last one to report on key. */
  predicate LastReport(ss: seq<SensorStatus>, key: string, i: int) {
    0 <= i < |ss| && ReportsOn(ss[i], key) && forall j :: i < j < |ss| ==> !ReportsOn(ss[j], key)
  }

  /** Every name holds what its last reporting sensor wrote; a name nobody
      reported on is absent. */
  ghost predicate IsHealth(m: map<string, string>, ss: seq<SensorStatus>) {
    && (forall key <- m :: exists i :: LastReport(ss, key, i) && m[key] == Report(ss[i]).value.1)
    && (forall i :: 0 <= i < |ss| && Report(ss[i]).Some? ==> Report(ss[i]).value.0 in m)
  }

  /** That fixes the map. */
  lemma HealthIsUnique(m: map<string, string>, m': map<string, string>, ss: seq<SensorStatus>)
    requires IsHealth(m, ss) && IsHealth(m', ss)
    ensures m == m'
  {
  }

  /** One more sensor: its report, if any, replaces what its name held. */
  lemma HealthOneMore(m: map<string, string>, ss: seq<SensorStatus>, s: SensorStatus)
    requires IsHealth(m, ss)
    ensures var r := Report(s);
      IsHealth(if r.Some? then m[r.value.0 := r.value.1] else m, ss + [s])
  {
    var r := Report(s);
    var m' := if r.Some? then m[r.value.0 := r.value.1] else m;
    forall key | key in m'
      ensures exists i :: LastReport(ss + [s], key, i) && m'[key] == Report((ss + [s])[i]).value.1
    {
      if ReportsOn(s, key) {
        assert LastReport(ss + [s], key, |ss|);
      } else {
        var i :| LastReport(ss, key, i) && m[key] == Report(ss[i]).value.1;
        assert LastReport(ss + [s], key, i);
      }
    }
  }

  // Bits of assembled values.

  lemma {:induction false} BitConcat(a: nat, b: nat, k: nat, i: nat)
    requires a < Pow2(k)
    ensures Bit(a + Pow2(k) * b, i) <==> if i < k then Bit(a, i) else Bit(b, i - k)
  {
    if k > 0 {
      var half := Pow2(k - 1) * b;
      assert Pow2(k) * b == 2 * half by {
        assert Pow2(k) == 2 * Pow2(k - 1);
      }
      assert (a + 2 * half) / 2 == a / 2 + half;
      if i > 0 {
        BitConcat(a / 2, b, k - 1, i - 1);
      }
    }
  }

  lemma BitOfRemainder(x: nat, k: nat, i: nat)
    ensures Bit(x % Pow2(k), i) <==> i < k && Bit(x, i)
  {
    hide Pow2, Bit;
    var q, r := x / Pow2(k), x % Pow2(k);
    assert x == r + Pow2(k) * q;
    BitConcat(r, q, k, i);
    assert r == r + Pow2(k) * 0;
    BitConcat(r, 0, k, i);
    if i >= k {
      NoBits(i - k);
    }
  }

  /** Section 35.14 of IPMI v2.0: a discrete sensor's state i is bit i of the
      first state byte, or bit i - 8 of the second, which holds seven; a
      threshold sensor's comparison i is bit i of the first, which holds six. */
  lemma StatesInReading(info: SdrInfo, data: seq<byte>, i: nat)
    requires |data| >= 3 && Readable(data)
    ensures IsDiscrete(info.readingType) ==>
      (Bit(StatusOf(info, data).status, i) <==>
        if i < 8 then Bit(data[2], i) else i < 15 && |data| >= 4 && Bit(data[3], i - 8))
    ensures info.readingType == 1 ==> (Bit(StatusOf(info, data).status, i) <==> i < 6 && Bit(data[2], i))
    ensures !IsDiscrete(info.readingType) && info.readingType != 1 ==> !Bit(StatusOf(info, data).status, i)
  {
    SmallPowers();
    var second: byte := if |data| >= 4 then data[3] % 0x80 else 0;
    BitConcat(data[2], second, 8, i);
    BitOfRemainder(data[2], 6, i);
    NoBits(i);
    if i >= 8 {
      NoBits(i - 8);
      if |data| >= 4 {
        BitOfRemainder(data[3], 7, i - 8);
      }
    }
  }

  lemma SmallPowers()
    ensures Pow2(6) == 0x40 && Pow2(7) == 0x80 && Pow2(8) == 0x100
  {
  }

  /** One more than the highest of the low n bits that is set; 0 if none is. */
  function HighestBit(x: nat, n: nat): (h: nat)
    ensures h <= n && (h > 0 ==> Bit(x, h - 1))
    ensures forall b: nat :: h <= b < n ==> !Bit(x, b)
  {
    if n == 0 then 0 else if Bit(x, n - 1) then n else HighestBit(x, n - 1)
  }

  /** The error code names the highest of the six threshold bits that is set;
      the two non-critical ones are warnings, the others critical. */
  lemma HighestThreshold(reading: uint16)
    ensures var info := GetSensorInfo(reading);
      && info.errorCode == HighestBit(reading, 6)
      && info.severity == (if info.errorCode == 0 then "OK"
                           else if info.errorCode == 1 || info.errorCode == 4 then "WARNING" else "CRITICAL")
  {
  }

  /** A component is said to be OK exactly when its last reporting sensor is a
      threshold sensor in range, whatever sensors reported before it. */
  lemma OkIffLastInRange(m: map<string, string>, ss: seq<SensorStatus>, key: string)
    requires IsHealth(m, ss)
    ensures key in m && m[key] == "OK"
      <==> exists i :: LastReport(ss, key, i) && ss[i].readingType == 1 && HighestBit(ss[i].status, 6) == 0
  {
    forall i | LastReport(ss, key, i)
      ensures key in m && m[key] == Report(ss[i]).value.1
      ensures m[key] == "OK" <==> ss[i].readingType == 1 && HighestBit(ss[i].status, 6) == 0
    {
      var j :| LastReport(ss, key, j) && m[key] == Report(ss[j]).value.1;
      assert i == j;
      HighestThreshold(ss[i].status);
    }
  }

  // The table against the code.

  lemma {:induction false} Pow2Bit(b: nat, i: nat)
    ensures Bit(Pow2(b), i) <==> i == b
  {
    if i > 0 && b > 0 {
      Pow2Bit(b - 1, i - 1);
    } else if b == 0 {
      NoBits(i);
    }
  }

  lemma {:induction false} NoBits(i: nat)
    ensures !Bit(0, i)
    ensures i > 0 ==> !Bit(1, i)
  {
    if i > 0 {
      NoBits(i - 1);
    }
  }

  /** The code's test is the table's for every status exactly when the listed
      states are 0, 1, ... in some order. */
  lemma FlaggedIsBadStateIff(bad: seq<nat>)
    requires |bad| <= 16 && forall b <- bad :: b < 16
    ensures (forall status: uint16 :: Flagged(bad, status) == InBadState(bad, status))
            <==> (forall b: nat :: b in bad <==> b < |bad|)
  {
    if forall status: uint16 :: Flagged(bad, status) == InBadState(bad, status) {
      forall b: nat ensures b in bad <==> b < |bad| {
        if b < 16 {
          Pow2Within(b);
          var status: uint16 := Pow2(b);
          forall i: nat ensures Bit(status, i) <==> i == b { Pow2Bit(b, i); }
          assert b in bad <==> InBadState(bad, status);
          if b < |bad| {
            assert Bit(status, b);
            assert Flagged(bad, status);
          }
          if Flagged(bad, status) {
            var i :| 0 <= i < |bad| && Bit(status, i);
            assert i == b;
          }
        }
      }
    }
  }

  lemma {:induction false} Pow2Within(b: nat)
    requires b < 16
    ensures Pow2(b) < 0x1_0000
  {
    assert Pow2(15) == 0x8000 by {
      assert Pow2(5) == 32 && Pow2(10) == 32 * Pow2(5);
      assert Pow2(15) == 32 * Pow2(10);
    }
    Pow2Grows(b, 15);
  }

  lemma {:induction false} Pow2Grows(a: nat, b: nat)
    requires a <= b
    ensures Pow2(a) <= Pow2(b)
  {
    if a < b {
      Pow2Grows(a, b - 1);
    }
  }

  /** Of the discrete rows of the table only the battery's is tested as
      written. */
  lemma OnlyBatteryIsTestedAsListed(sensorType: uint16, readingType: uint16)
    requires readingType != 1 && BadStates(sensorType, readingType) != []
    ensures var bad := BadStates(sensorType, readingType);
      (forall status: uint16 :: Flagged(bad, status) == InBadState(bad, status))
      <==> sensorType == 41
  {
    var bad := BadStates(sensorType, readingType);
    FlaggedIsBadStateIff(bad);
    if sensorType == 41 {
      assert bad == [0, 1];
    } else {
      var b: nat := bad[|bad| - 1];
      assert b in bad && b >= |bad|;
    }
  }

  /** A fan (type 4) that reports state 1 of reading type 3, the one its row
      lists, is not flagged; in state 0, which is not listed, it is. */
  lemma FanExample()
    ensures BadStates(4, 3) == [1]
    ensures InBadState(BadStates(4, 3), 2) && !Flagged(BadStates(4, 3), 2)
    ensures !InBadState(BadStates(4, 3), 1) && Flagged(BadStates(4, 3), 1)
  {
    assert 1 in BadStates(4, 3) && Bit(2, 1);
    assert Bit(1, 0) && !Bit(2, 0) && !Bit(1, 1);
  }
}
