/** The health map told from the bytes of the readings, by the numbers that
    sections 35.14, 42.1 and 42.2 of IPMI v2.0 give to bits and codes. */
module HealthBytes {
  import opened Common
  import opened Bmc
  import opened Repository
  import opened SdrSpec
  import opened Health
  import opened HealthTrust

  /** The names of the eight components; every other sensor type has none. */
  const COMPONENTS: map<int, string> := map[
    1 := "health/temperature", 2 := "health/voltage", 4 := "health/fan", 7 := "health/processor",
    8 := "health/powersupply", 12 := "health/memory", 13 := "health/storage", 41 := "health/battery"]

  /** Of what the six comparisons of a threshold sensor give. */
  function Severity(comparisons: nat): string
    requires comparisons < 64
  {
    if comparisons == 0 then "OK"
    else if comparisons == 1 || 8 <= comparisons < 16 then "WARNING"
    else "CRITICAL"
  }

  /** The fifteen states of a discrete sensor; of reading types that are neither
      discrete nor threshold nothing is kept. */
  function States(readingType: nat, data: seq<byte>): nat
    requires |data| >= 3
  {
    if readingType == 0x6F || 0x02 <= readingType <= 0x0C then
      data[2] as int + if |data| >= 4 then 0x100 * (data[3] as int % 0x80) else 0
    else 0
  }

  /** The states tested are those below the power of two: as many as the table
      lists for sensor and reading type. */
  function Tested(sensorType: nat, readingType: nat): nat {
    match readingType
    case 0x03 => if sensorType in {1, 2, 4, 7, 8, 12, 13} then 2 else 1
    case 0x05 => if sensorType == 1 then 2 else 1
    case 0x07 => if sensorType == 4 || sensorType == 8 then 8 else 1
    case 0x0B => if sensorType == 4 || sensorType == 8 then 4 else 1
    case 0x6F => (match sensorType case 7 => 256 case 8 => 64 case 12 => 16 case 13 => 32 case 41 => 4 case _ => 1)
    case _ => 1
  }

  /** The status of a reading: unavailable, or with the sensor's number and types
      and the comparisons or states of the reading. */
  lemma StatusFromBytes(info: SdrInfo, data: seq<byte>)
    requires IsReading(data)
    ensures data[1] / 0x40 % 2 == 0 || data[1] / 0x20 % 2 == 1 ==>
      StatusOf(info, data).unavailable && Report(StatusOf(info, data)) == None
    ensures data[1] / 0x40 % 2 == 1 && data[1] / 0x20 % 2 == 0 ==>
      && |data| >= 3
      && StatusOf(info, data) == SensorStatus(
           info.sensorNumber, if info.readingType == 1 then data[2] % 0x40 else States(info.readingType, data),
           false, info.sensorType, info.readingType)
  {
    hide Readable;
    ReadableIs(data);
  }

  /** Sensors that were read in turn and all answered are decoded from the bytes
      behind the completion codes. */
  lemma ReadInTurnIsDecoded(ss: seq<SensorStatus>, answer: Answer, t: nat, infos: seq<SdrInfo>) returns (ds: seq<seq<byte>>)
    requires TellsReadings(answer) && ReadInTurn(ss, answer, t, infos)
    requires forall i :: 0 <= i < |infos| ==>
      var request := ReadingRequest(infos[i].sensorNumber); Answered(request, answer(t + i, request))
    ensures Decoded(ss, infos, ds)
    ensures forall i :: 0 <= i < |ds| ==>
      var a := answer(t + i, ReadingRequest(infos[i].sensorNumber)); a.Some? && a.value != [] && ds[i] == a.value[1..]
  {
    hide StatusOf, StatusAt, TellsReadings, Answered, Readable;
    forall i | 0 <= i < |infos|
      ensures var a := answer(t + i, ReadingRequest(infos[i].sensorNumber));
        a.Some? && |a.value| >= 3 && IsReading(a.value[1..]) && ss[i] == StatusOf(infos[i], a.value[1..])
    {
      ReadingArrives(answer, t + i, infos[i]);
    }
    ds := seq(|infos|, i requires 0 <= i < |infos| => answer(t + i, ReadingRequest(infos[i].sensorNumber)).value[1..]);
  }

  /** With this reading a sensor writes this value under this name: scanning is
      enabled (bit 6 of the second byte), the reading is not unavailable (bit 5),
      and it is a threshold sensor or in a state that is tested. */
  ghost predicate Writes(info: SdrInfo, data: seq<byte>, key: string, value: string)
    requires IsReading(data)
  {
    && |data| >= 3 && data[1] / 0x40 % 2 == 1 && data[1] / 0x20 % 2 == 0
    && key == (if info.sensorType in COMPONENTS then COMPONENTS[info.sensorType] else "")
    && if info.readingType == 1 then value == Severity(data[2] % 0x40)
       else value == "SEV_UNKNOWN" && States(info.readingType, data) % Tested(info.sensorType, info.readingType) != 0
  }

  /** Each name holds what the last sensor to write under it wrote. */
  lemma HealthFromBytes(infos: seq<SdrInfo>, ds: seq<seq<byte>>, ss: seq<SensorStatus>, m: map<string, string>,
                        key: string, value: string)
    requires Decoded(ss, infos, ds) && IsHealth(m, ss)
    ensures key in m && m[key] == value
      <==> exists i :: 0 <= i < |ds| && Writes(infos[i], ds[i], key, value)
             && forall j, v :: i < j < |ds| ==> !Writes(infos[j], ds[j], key, v)
  {
    hide Report, StatusOf, Writes, IsReading;
    forall i, v | 0 <= i < |ds|
      ensures Report(ss[i]) == Some((key, v)) <==> Writes(infos[i], ds[i], key, v)
    {
      ReportIsWritten(infos[i], ds[i], key, v);
    }
    forall i | 0 <= i < |ds| ensures ReportsOn(ss[i], key) <==> exists v :: Writes(infos[i], ds[i], key, v) {
      if ReportsOn(ss[i], key) {
        assert Report(ss[i]) == Some((key, Report(ss[i]).value.1));
        assert Writes(infos[i], ds[i], key, Report(ss[i]).value.1);
      }
      if v :| Writes(infos[i], ds[i], key, v) {
        assert Report(ss[i]) == Some((key, v));
      }
    }
    forall i | 0 <= i < |ds| && Writes(infos[i], ds[i], key, value)
               && forall j, v :: i < j < |ds| ==> !Writes(infos[j], ds[j], key, v)
      ensures key in m && m[key] == value
    {
      assert Report(ss[i]) == Some((key, value));
      assert LastReport(ss, key, i);
      LastReportHolds(m, ss, key, i);
    }
    if key in m {
      var i :| LastReport(ss, key, i) && m[key] == Report(ss[i]).value.1;
      assert Report(ss[i]) == Some((key, m[key]));
      assert Writes(infos[i], ds[i], key, m[key]);
      forall j, v | i < j < |ds| ensures !Writes(infos[j], ds[j], key, v) {
        assert !ReportsOn(ss[j], key);
      }
    }
  }

  lemma ReportIsWritten(info: SdrInfo, data: seq<byte>, key: string, value: string)
    requires IsReading(data)
    ensures Report(StatusOf(info, data)) == Some((key, value)) <==> Writes(info, data, key, value)
  {
    hide Component, BadStates, GetSensorInfo, Flagged, Tested, Readable, COMPONENTS;
    ReadableIs(data);
    ComponentIs(info.sensorType);
    if Readable(data) {
      if info.readingType == 1 {
        SeverityIs(data[2] % 0x40);
      } else {
        var bad := BadStates(info.sensorType, info.readingType);
        TestedIs(info.sensorType, info.readingType);
        FlaggedIs(bad, StatusOf(info, data).status);
      }
    }
  }

  lemma ReadableIs(data: seq<byte>)
    requires |data| >= 2
    ensures Readable(data) <==> data[1] / 0x40 % 2 == 1 && data[1] / 0x20 % 2 == 0
  {
  }

  lemma ComponentIs(sensorType: uint16)
    ensures Component(sensorType) == if sensorType in COMPONENTS then COMPONENTS[sensorType] else ""
  {
  }

  lemma SeverityIs(comparisons: uint16)
    requires comparisons < 64
    ensures GetSensorInfo(comparisons).severity == Severity(comparisons)
  {
    hide Bit;
    SixBits(comparisons);
  }

  lemma SixBits(x: nat)
    requires x < 64
    ensures Bit(x, 5) <==> x >= 32
    ensures x < 32 ==> (Bit(x, 4) <==> x >= 16)
    ensures x < 16 ==> (Bit(x, 3) <==> x >= 8)
    ensures x < 8 ==> (Bit(x, 2) <==> x >= 4)
    ensures x < 4 ==> (Bit(x, 1) <==> x >= 2)
    ensures x < 2 ==> (Bit(x, 0) <==> x >= 1)
  {
  }

  lemma TestedIs(sensorType: uint16, readingType: uint16)
    requires readingType != 1
    ensures Tested(sensorType, readingType) == Pow2(|BadStates(sensorType, readingType)|)
  {
  }

  /** Some of the low bits is set exactly if the remainder is not zero. */
  lemma FlaggedIs(bad: seq<nat>, status: uint16)
    ensures Flagged(bad, status) <==> status % Pow2(|bad|) != 0
  {
    var low := status % Pow2(|bad|);
    forall i: nat ensures Bit(low, i) <==> i < |bad| && Bit(status, i) { BitOfRemainder(status, |bad|, i); }
    if low != 0 {
      var i := SomeBit(low);
      assert Bit(status, i);
    } else {
      forall i: nat ensures !Bit(low, i) { NoBits(i); }
    }
  }

  lemma {:induction false} SomeBit(x: nat) returns (i: nat)
    requires x > 0
    ensures Bit(x, i)
  {
    if x % 2 == 1 {
      i := 0;
    } else {
      i := SomeBit(x / 2);
      i := i + 1;
    }
  }

  /** The listed states by sensor type, for every reading type that has a row. */
  function Listed(sensorType: nat, readingType: nat): set<nat> {
    match readingType
    case 0x03 => if sensorType in {1, 2, 4, 7, 8, 12, 13} then {1} else {}
    case 0x05 => if sensorType == 1 then {1} else {}
    case 0x07 => if sensorType == 4 || sensorType == 8 then {2, 3, 5} else {}
    case 0x0B => if sensorType == 4 || sensorType == 8 then {1, 5} else {}
    case 0x6F => (match sensorType
                  case 7 => {0, 1, 2, 3, 4, 5, 6, 11}
                  case 8 => {1, 2, 3, 4, 5, 6}
                  case 12 => {1, 3, 7, 10}
                  case 13 => {1, 2, 5, 6, 8}
                  case 41 => {0, 1}
                  case _ => {})
    case _ => {}
  }

  /** The positions tested are as many as the states listed. They miss one in
      every row but the battery's. */
  lemma ListedIs(info: SdrInfo)
    requires info.readingType != 1
    ensures forall b: nat :: b in Listed(info.sensorType, info.readingType)
                        <==> b in BadStates(info.sensorType, info.readingType)
    ensures HasMissedState(info) <==> Listed(info.sensorType, info.readingType) != {} && info.sensorType != 41
  {
    var bad := BadStates(info.sensorType, info.readingType);
    if bad != [] {
      var b: nat := bad[|bad| - 1];
      assert b in bad && (info.sensorType != 41 ==> b >= |bad|);
    }
  }
}
