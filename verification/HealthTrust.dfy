/** When a component that is said to be OK is in a good state. */
module HealthTrust {
  import opened Common
  import opened Repository
  import opened SdrSpec
  import opened Health

  /** A reading in which `GetSdrData` finds all the bytes it looks for. */
  predicate IsReading(data: seq<byte>) { |data| >= 2 && (Readable(data) ==> |data| >= 3) }

  /** ss are the statuses of infos when their readings are ds. */
  ghost predicate Decoded(ss: seq<SensorStatus>, infos: seq<SdrInfo>, ds: seq<seq<byte>>) {
    && |ss| == |infos| == |ds|
    && forall i :: 0 <= i < |ss| ==> IsReading(ds[i]) && ss[i] == StatusOf(infos[i], ds[i])
  }

  /** No sensor wrote anything but OK under this name. */
  ghost predicate OnlyOk(ss: seq<SensorStatus>, key: string) {
    forall i :: 0 <= i < |ss| && ReportsOn(ss[i], key) ==> Report(ss[i]).value.1 == "OK"
  }

  /** Whatever these sensors read, OK under this name means that none of them
      wrote anything else. */
  ghost predicate OkIsUnanimous(infos: seq<SdrInfo>, key: string) {
    forall ds: seq<seq<byte>>, ss: seq<SensorStatus>, m: map<string, string> ::
      Decoded(ss, infos, ds) && IsHealth(m, ss) && key in m && m[key] == "OK" ==> OnlyOk(ss, key)
  }

  predicate WritesOn(info: SdrInfo, key: string) {
    && Component(info.sensorType) == key
    && (info.readingType == 1 || BadStates(info.sensorType, info.readingType) != [])
  }

  /** In the list of sensors a threshold sensor comes after another sensor that
      writes under the same name. */
  ghost predicate Overwrites(infos: seq<SdrInfo>, key: string, i: int, j: int) {
    0 <= i < j < |infos| && WritesOn(infos[i], key) && WritesOn(infos[j], key) && infos[j].readingType == 1
  }

  /** That is so exactly if no threshold sensor of the component comes after
      another sensor of it that ever writes. */
  lemma OkIsUnanimousIff(infos: seq<SdrInfo>, key: string)
    ensures OkIsUnanimous(infos, key) <==> forall i, j :: !Overwrites(infos, key, i, j)
  {
    hide StatusOf, Report, IsReading, Component, BadStates;
    if i, j :| Overwrites(infos, key, i, j) {
      OverwrittenReport(infos, key, i, j);
    } else {
      forall ds: seq<seq<byte>>, ss: seq<SensorStatus>, m: map<string, string> |
        Decoded(ss, infos, ds) && IsHealth(m, ss) && key in m && m[key] == "OK"
        ensures OnlyOk(ss, key)
      {
        OkIffLastInRange(m, ss, key);
        var j :| LastReport(ss, key, j) && ss[j].readingType == 1 && HighestBit(ss[j].status, 6) == 0;
        WhoReports(infos[j], ds[j], key);
        InRange(ss[j]);
        forall i | 0 <= i < |ss| && ReportsOn(ss[i], key) ensures Report(ss[i]).value.1 == "OK" {
          WhoReports(infos[i], ds[i], key);
          assert !Overwrites(infos, key, i, j);
        }
      }
    }
  }

  /** Only sensors that write under a name report on it. */
  lemma WhoReports(info: SdrInfo, data: seq<byte>, key: string)
    requires IsReading(data) && ReportsOn(StatusOf(info, data), key)
    ensures WritesOn(info, key)
    ensures StatusOf(info, data).readingType == info.readingType
  {
  }

  lemma InRange(s: SensorStatus)
    requires Report(s).Some? && s.readingType == 1 && HighestBit(s.status, 6) == 0
    ensures Report(s).value.1 == "OK"
  {
    HighestThreshold(s.status);
  }

  // The other direction: sensor i writes, sensor j is in range, the rest are silent.

  const LOWEST: seq<byte> := [0, 0x40, 1]
  const CLEAR: seq<byte> := [0, 0x40, 0]
  const UNAVAILABLE: seq<byte> := [0, 0]

  lemma Flags()
    ensures Readable(LOWEST) && Readable(CLEAR) && !Readable(UNAVAILABLE)
  {
  }

  lemma SaysNothing(info: SdrInfo)
    ensures IsReading(UNAVAILABLE) && Report(StatusOf(info, UNAVAILABLE)) == None
  {
    Flags();
  }

  lemma SaysClear(info: SdrInfo)
    requires info.readingType == 1
    ensures IsReading(CLEAR) && Report(StatusOf(info, CLEAR)) == Some((Component(info.sensorType), "OK"))
  {
    Flags();
    InRange(StatusOf(info, CLEAR));
  }

  lemma SaysTrouble(info: SdrInfo, key: string)
    requires WritesOn(info, key)
    ensures IsReading(LOWEST)
    ensures var r := Report(StatusOf(info, LOWEST)); r.Some? && r.value.0 == key && r.value.1 != "OK"
  {
    hide BadStates, Component, StatusOf, GetSensorInfo, Flagged, Readable;
    if info.readingType != 1 {
      ListedAreDiscrete(info.sensorType, info.readingType);
    }
    LowestStatus(info);
    LowestBitIsTrouble(BadStates(info.sensorType, info.readingType));
  }

  lemma LowestStatus(info: SdrInfo)
    ensures IsReading(LOWEST)
    ensures IsDiscrete(info.readingType) || info.readingType == 1 ==>
      StatusOf(info, LOWEST) == SensorStatus(info.sensorNumber, 1, false, info.sensorType, info.readingType)
  {
    Flags();
  }

  lemma ListedAreDiscrete(sensorType: uint16, readingType: uint16)
    requires readingType != 1 && BadStates(sensorType, readingType) != []
    ensures IsDiscrete(readingType)
  {
  }

  lemma LowestBitIsTrouble(bad: seq<nat>)
    ensures bad != [] ==> Flagged(bad, 1)
    ensures GetSensorInfo(1).severity == "WARNING"
  {
    assert Bit(1, 0);
  }

  lemma {:induction false} SomeHealth(ss: seq<SensorStatus>) returns (m: map<string, string>)
    ensures IsHealth(m, ss)
  {
    if ss == [] {
      m := map[];
    } else {
      var n := |ss| - 1;
      m := SomeHealth(ss[..n]);
      HealthOneMore(m, ss[..n], ss[n]);
      assert ss == ss[..n] + [ss[n]];
      m := if Report(ss[n]).Some? then m[Report(ss[n]).value.0 := Report(ss[n]).value.1] else m;
    }
  }

  lemma OverwrittenReport(infos: seq<SdrInfo>, key: string, i: int, j: int)
    requires Overwrites(infos, key, i, j)
    ensures !OkIsUnanimous(infos, key)
  {
    hide StatusOf, Report, IsReading, Component, BadStates, IsHealth;
    var ds := seq(|infos|, n => if n == i then LOWEST else if n == j then CLEAR else UNAVAILABLE);
    forall n | 0 <= n < |infos| ensures IsReading(ds[n]) {
      SaysNothing(infos[n]);
      SaysClear(infos[j]);
      SaysTrouble(infos[i], key);
    }
    var ss := seq(|infos|, n requires 0 <= n < |infos| => StatusOf(infos[n], ds[n]));
    assert Decoded(ss, infos, ds);
    SaysTrouble(infos[i], key);
    SaysClear(infos[j]);
    forall n | j < n < |infos| ensures !ReportsOn(ss[n], key) { SaysNothing(infos[n]); }
    assert LastReport(ss, key, j);
    var m := SomeHealth(ss);
    LastReportHolds(m, ss, key, j);
    assert !OnlyOk(ss, key);
  }

  lemma LastReportHolds(m: map<string, string>, ss: seq<SensorStatus>, key: string, i: int)
    requires IsHealth(m, ss) && LastReport(ss, key, i)
    ensures key in m && m[key] == Report(ss[i]).value.1
  {
    var j :| LastReport(ss, key, j) && m[key] == Report(ss[j]).value.1;
    assert i == j;
  }

  // A good state, whether or not the code looks for the bad one.

  /** A sensor that is in trouble: a threshold sensor out of range, or another
      one in a state that its row of the table lists. */
  predicate InTrouble(s: SensorStatus) {
    && !s.unavailable
    && if s.readingType == 1 then HighestBit(s.status, 6) > 0
       else InBadState(BadStates(s.sensorType, s.readingType), s.status)
  }

  ghost predicate InGoodState(ss: seq<SensorStatus>, key: string) {
    forall i :: 0 <= i < |ss| && Component(ss[i].sensorType) == key ==> !InTrouble(ss[i])
  }

  /** Whatever these sensors read, a component that is said to be OK is. */
  ghost predicate OkCanBeTrusted(infos: seq<SdrInfo>, key: string) {
    forall ds: seq<seq<byte>>, ss: seq<SensorStatus>, m: map<string, string> ::
      Decoded(ss, infos, ds) && IsHealth(m, ss) && key in m && m[key] == "OK" ==> InGoodState(ss, key)
  }

  /** A sensor with a listed state that is behind the positions tested. */
  predicate HasMissedState(info: SdrInfo) {
    var bad := BadStates(info.sensorType, info.readingType);
    info.readingType != 1 && exists b <- bad :: b >= |bad|
  }

  /** Threshold sensor j can hide trouble of sensor i: it comes later and
      overwrites what i wrote, or i has trouble of which it writes nothing. */
  ghost predicate Hides(infos: seq<SdrInfo>, key: string, i: int, j: int) {
    && 0 <= i < |infos| && 0 <= j < |infos| && i != j
    && WritesOn(infos[i], key) && WritesOn(infos[j], key) && infos[j].readingType == 1
    && (i < j || HasMissedState(infos[i]))
  }

  /** OK can be trusted exactly if no sensor of the component hides another:
      that can be told from the scanned list, before any reading. */
  lemma OkCanBeTrustedIff(infos: seq<SdrInfo>, key: string)
    ensures OkCanBeTrusted(infos, key) <==> forall i, j :: !Hides(infos, key, i, j)
  {
    hide StatusOf, Report, IsReading, Component, BadStates, InTrouble, HasMissedState;
    if i, j :| Hides(infos, key, i, j) {
      HiddenTrouble(infos, key, i, j);
    } else {
      forall ds: seq<seq<byte>>, ss: seq<SensorStatus>, m: map<string, string> |
        Decoded(ss, infos, ds) && IsHealth(m, ss) && key in m && m[key] == "OK"
        ensures InGoodState(ss, key)
      {
        OkIffLastInRange(m, ss, key);
        var j :| LastReport(ss, key, j) && ss[j].readingType == 1 && HighestBit(ss[j].status, 6) == 0;
        WhoReports(infos[j], ds[j], key);
        forall i | 0 <= i < |ss| && Component(ss[i].sensorType) == key ensures !InTrouble(ss[i]) {
          NotInTrouble(ss[j]);
          TroubleIsWritten(infos[i], ds[i], key);
          assert !Hides(infos, key, i, j);
        }
      }
    }
  }

  lemma NotInTrouble(s: SensorStatus)
    requires s.readingType == 1 && HighestBit(s.status, 6) == 0
    ensures !InTrouble(s)
  {
  }

  /** A sensor in trouble writes, unless it has a state that is missed. */
  lemma TroubleIsWritten(info: SdrInfo, data: seq<byte>, key: string)
    requires IsReading(data)
    ensures var s := StatusOf(info, data);
      InTrouble(s) && Component(s.sensorType) == key ==>
        WritesOn(info, key) && (HasMissedState(info) || ReportsOn(s, key))
  {
    hide BadStates, Component, GetSensorInfo, Bit, HighestBit;
    var s := StatusOf(info, data);
    var bad := BadStates(info.sensorType, info.readingType);
    if InTrouble(s) && info.readingType != 1 {
      var b :| b in bad && Bit(s.status, b);
      assert !HasMissedState(info) ==> Flagged(bad, s.status);
    }
  }

  // The other direction again: sensor i in one state only.

  /** A reading in state b alone. */
  function InState(b: nat): (data: seq<byte>)
    requires b < 15
    ensures |data| == 4
  {
    OneBit(b);
    [0, 0x40, if b < 8 then Pow2(b) else 0, if b < 8 then 0 else Pow2(b - 8)]
  }

  lemma OneBit(b: nat)
    ensures b < 8 ==> Pow2(b) < 0x100
    ensures 8 <= b < 16 ==> Pow2(b - 8) < 0x100
  {
    SmallPowers();
    if b < 8 {
      Pow2Grows(b, 7);
    } else if b < 16 {
      Pow2Grows(b - 8, 7);
    }
  }

  lemma InStateAlone(info: SdrInfo, b: nat, i: nat)
    requires b < 15 && IsDiscrete(info.readingType)
    ensures IsReading(InState(b)) && Readable(InState(b))
    ensures Bit(StatusOf(info, InState(b)).status, i) <==> i == b
  {
    hide Pow2, StatusOf;
    Flags();
    var data := InState(b);
    OneBit(b);
    assert data[1] == 0x40 && LOWEST[1] == 0x40;
    StatesInReading(info, data, i);
    NoBits(i);
    if i >= 8 {
      NoBits(i - 8);
    }
    if b < 8 {
      Pow2Bit(b, i);
    } else if i >= 8 {
      Pow2Bit(b - 8, i - 8);
    }
  }

  lemma ListedStates(sensorType: uint16, readingType: uint16)
    requires readingType != 1
    ensures forall b <- BadStates(sensorType, readingType) :: b < 15
  {
  }

  /** A reading in which sensor i is in trouble; if it has a missed state one of
      which it writes nothing. */
  lemma SomeTrouble(info: SdrInfo, key: string) returns (data: seq<byte>)
    requires WritesOn(info, key)
    ensures IsReading(data) && Component(StatusOf(info, data).sensorType) == key && InTrouble(StatusOf(info, data))
    ensures HasMissedState(info) ==> Report(StatusOf(info, data)) == None
  {
    hide BadStates, Component, GetSensorInfo, Readable;
    if info.readingType == 1 {
      data := LOWEST;
      LowestStatus(info);
      assert Bit(1, 0);
    } else {
      var bad := BadStates(info.sensorType, info.readingType);
      ListedAreDiscrete(info.sensorType, info.readingType);
      ListedStates(info.sensorType, info.readingType);
      var b: nat := bad[0];
      assert b in bad;
      if HasMissedState(info) {
        b :| b in bad && b >= |bad|;
      }
      data := InState(b);
      StateIsListed(info, b);
    }
  }

  /** In a listed state alone a sensor is in trouble, and writes that if the
      state is among the positions tested. */
  lemma StateIsListed(info: SdrInfo, b: nat)
    requires IsDiscrete(info.readingType) && b < 15 && b in BadStates(info.sensorType, info.readingType)
    ensures var s := StatusOf(info, InState(b));
      && IsReading(InState(b)) && s.sensorType == info.sensorType && InTrouble(s)
      && (b >= |BadStates(info.sensorType, info.readingType)| ==> Report(s) == None)
  {
    hide BadStates, Component, GetSensorInfo, Bit, InState, Readable;
    var s := StatusOf(info, InState(b));
    forall i: nat ensures Bit(s.status, i) <==> i == b { InStateAlone(info, b, i); }
    InStateAlone(info, b, b);
    assert s.sensorType == info.sensorType && s.readingType == info.readingType && !s.unavailable;
  }

  lemma HiddenTrouble(infos: seq<SdrInfo>, key: string, i: int, j: int)
    requires Hides(infos, key, i, j)
    ensures !OkCanBeTrusted(infos, key)
  {
    hide StatusOf, Report, Component, BadStates, IsHealth, InTrouble, HasMissedState;
    var trouble := SomeTrouble(infos[i], key);
    SaysClear(infos[j]);
    var ds := seq(|infos|, n => if n == i then trouble else if n == j then CLEAR else UNAVAILABLE);
    forall n | 0 <= n < |infos| ensures IsReading(ds[n]) { SaysNothing(infos[n]); }
    var ss := seq(|infos|, n requires 0 <= n < |infos| => StatusOf(infos[n], ds[n]));
    assert Decoded(ss, infos, ds);
    forall n | j < n < |infos| ensures !ReportsOn(ss[n], key) { SaysNothing(infos[n]); }
    assert LastReport(ss, key, j);
    var m := SomeHealth(ss);
    LastReportHolds(m, ss, key, j);
    assert InTrouble(ss[i]) && !InGoodState(ss, key);
  }

  // Examples of both ways.

  /** Two temperature sensors, the first above its upper critical threshold and
      the second in range: the temperature is said to be OK. */
  lemma OkExample()
    ensures var critical, clear := SensorStatus(1, 0x10, false, 1, 1), SensorStatus(2, 0, false, 1, 1);
      && Report(critical) == Some(("health/temperature", "CRITICAL"))
      && IsHealth(map["health/temperature" := "OK"], [critical, clear])
  {
    var critical, clear := SensorStatus(1, 0x10, false, 1, 1), SensorStatus(2, 0, false, 1, 1);
    assert Bit(0x10, 4) && !Bit(0x10, 5);
    InRange(clear);
    HealthOneMore(map[], [], critical);
    assert [] + [critical] == [critical] && [critical] + [clear] == [critical, clear];
    var m: map<string, string> := map["health/temperature" := "CRITICAL"];
    HealthOneMore(m, [critical], clear);
    assert m["health/temperature" := "OK"] == map["health/temperature" := "OK"];
  }

  /** A fan threshold sensor in range and a fan sensor of reading type 3 in the
      state its row lists: nothing is overwritten, yet the fan is said to be OK. */
  lemma MissedStateExample()
    ensures var clear, bad := SensorStatus(1, 0, false, 4, 1), SensorStatus(2, 2, false, 4, 3);
      && IsHealth(map["health/fan" := "OK"], [clear, bad]) && Component(bad.sensorType) == "health/fan"
      && InTrouble(bad) && OnlyOk([clear, bad], "health/fan")
  {
    var clear, bad := SensorStatus(1, 0, false, 4, 1), SensorStatus(2, 2, false, 4, 3);
    FanExample();
    InRange(clear);
    assert Report(bad) == None;
    HealthOneMore(map[], [], clear);
    assert [] + [clear] == [clear] && [clear] + [bad] == [clear, bad];
    HealthOneMore(map["health/fan" := "OK"], [clear], bad);
  }
}
