/** Response formats: which submetrics a response holds. */
module Formats {
  import opened Common
  import opened Bmc
  import opened Names

  datatype Format =
    | CUPS | CUPSIndex | NodeManager | Temp | PECI | PMBus | PSU | SR | Policy | DCMIPower | SensorReading

  /** `GenericValidator.Validate`; a response that is not valid is let through. */
  predicate Passes(r: IpmiResponse) {
    r.isValid == 1 ==> |r.data| > 0 && r.data[0] == 0
  }

  /** `GetUint16FromByteArray` */
  function Word(data: seq<byte>, offset: nat): uint16
    requires offset + 1 < |data|
  {
    LittleEndian(data[offset], data[offset + 1])
  }

  /** The bytes `Parse` reaches for; on a shorter response Go panics. */
  function Needs(f: Format, r: IpmiResponse): nat {
    match f
    case CUPS => if r.isValid == 1 then 10 else 0
    case CUPSIndex => 6
    case NodeManager => if r.isValid == 1 then 12 else 0
    case Temp => if r.isValid == 1 then 8 else 0
    case PECI => if r.isValid == 1 then 9 else 0
    case PMBus => if r.isValid == 1 && |r.data| >= 14 then 16 else 0
    case PSU => 8
    case SR => 2
    case Policy => 15
    case DCMIPower => if r.isValid == 1 then 10 else 0
    case SensorReading => 2
  }

  predicate Parsable(f: Format, r: IpmiResponse) { |r.data| >= Needs(f, r) }

  /** Sixteen-bit values at fixed offsets; 0xFFFF when the response is not valid. */
  function Words(r: IpmiResponse, offsets: map<string, nat>): map<string, uint16>
    requires r.isValid == 1 ==> forall k <- offsets :: offsets[k] + 1 < |r.data|
  {
    map k | k in offsets :: if r.isValid == 1 then Word(r.data, offsets[k]) else 0xFFFF
  }

  function Dimm(i: nat): string { "memory/dimm/" + Decimal(i) }

  function TempByte(r: IpmiResponse, i: nat): uint16
    requires r.isValid == 1 ==> i < |r.data|
  {
    if r.isValid == 1 then r.data[i] else 0xFFFF
  }

  /** The map of `ParserTemp.Parse` once the loop has come to byte n. */
  function TempUpTo(r: IpmiResponse, n: nat): map<string, uint16>
    requires Parsable(Temp, r) && n <= |r.data|
  {
    if n <= 8 then
      map["cpu/0" := TempByte(r, 4), "cpu/1" := TempByte(r, 5), "cpu/2" := TempByte(r, 6), "cpu/3" := TempByte(r, 7)]
    else TempUpTo(r, n - 1)[Dimm(n - 9) := TempByte(r, n - 1)]
  }

  function Parse(f: Format, r: IpmiResponse): map<string, uint16>
    requires Parsable(f, r)
  {
    match f
    case CUPS => Words(r, map["cpu_bandwith" := 4, "memory_bandwith" := 6, "io_bandwith" := 8])
    case CUPSIndex => map["index" := Word(r.data, 4)]
    case NodeManager => Words(r, map["cur" := 4, "min" := 6, "max" := 8, "avg" := 10])
    case Temp => TempUpTo(r, |r.data|)
    case PECI =>
      if r.isValid == 1 then map["margin_offset" := r.data[6], "" := Word(r.data, 7)]
      else map["margin_offset" := 0xFFFF, "" := 0xFFFF]
    case PMBus =>
      if |r.data| < 14 then
        map["VR0" := 0xFFFE, "VR1" := 0xFFFE, "VR2" := 0xFFFE, "VR3" := 0xFFFE, "VR4" := 0xFFFE, "VR5" := 0xFFFE]
      else Words(r, map["VR0" := 4, "VR1" := 6, "VR2" := 8, "VR3" := 10, "VR4" := 12, "VR5" := 14])
    case PSU => map["0" := Word(r.data, 4), "1" := Word(r.data, 6)]
    case SR => map["" := r.data[1]]
    case Policy => map["power_limit" := Word(r.data, 13)]
    case DCMIPower => Words(r, map["cur" := 2, "min" := 4, "max" := 6, "avg" := 8])
    case SensorReading => map["cur" := r.data[1]]
  }

  function GetMetrics(f: Format): seq<string> {
    match f
    case CUPS => ["cpu_bandwith", "memory_bandwith", "io_bandwith"]
    case CUPSIndex => ["index"]
    case NodeManager => ["cur", "min", "max", "avg"]
    case Temp => ["cpu/0", "cpu/1", "cpu/2", "cpu/3"] + seq(64, i requires 0 <= i < 64 => Dimm(i))
    case PECI => ["", "margin_offset"]
    case PMBus => ["VR0", "VR1", "VR2", "VR3", "VR4", "VR5"]
    case PSU => ["0", "1"]
    case SR => [""]
    case Policy => ["power_limit"]
    case DCMIPower => ["cur", "min", "max", "avg"]
    case SensorReading => ["cur"]
  }

  // Temperatures.

  /** `ParserTemp.Parse` */
  method ParseTemp(r: IpmiResponse) returns (m: map<string, uint16>)
    requires Parsable(Temp, r)
    ensures m == TempUpTo(r, |r.data|)
  {
    m := map["cpu/0" := TempByte(r, 4), "cpu/1" := TempByte(r, 5), "cpu/2" := TempByte(r, 6), "cpu/3" := TempByte(r, 7)];
    if |r.data| > 8 {
      for i := 8 to |r.data|
        invariant m == TempUpTo(r, i)
      {
        m := m[Dimm(i - 8) := TempByte(r, i)];
      }
    }
  }

  lemma DimmInjective(i: nat, j: nat)
    requires Dimm(i) == Dimm(j)
    ensures i == j
  {
    assert Dimm(i)[12..] == Decimal(i) && Dimm(j)[12..] == Decimal(j);
    DecimalInjective(i, j);
  }

  /** The name that stands for byte 4 + i. */
  function TempName(i: nat): string {
    if i < 4 then ["cpu/0", "cpu/1", "cpu/2", "cpu/3"][i] else Dimm(i - 4)
  }

  lemma TempNameInjective(i: nat, j: nat)
    requires TempName(i) == TempName(j)
    ensures i == j
  {
    assert TempName(i)[0] == if i < 4 then 'c' else 'm';
    assert TempName(j)[0] == if j < 4 then 'c' else 'm';
    if i < 4 {
      assert TempName(i)[4] == DIGITS[i] && TempName(j)[4] == DIGITS[j];
    } else {
      DimmInjective(i - 4, j - 4);
    }
  }

  /** Every temperature byte has its own entry and there is no other. */
  lemma {:induction false} TempEntries(r: IpmiResponse, n: nat)
    requires Parsable(Temp, r) && 8 <= n <= |r.data|
    ensures forall i: nat :: i < n - 4 ==> TempName(i) in TempUpTo(r, n) && TempUpTo(r, n)[TempName(i)] == TempByte(r, 4 + i)
    ensures forall k <- TempUpTo(r, n) :: exists i: nat :: i < n - 4 && k == TempName(i)
  {
    if n > 8 {
      TempEntries(r, n - 1);
      assert TempName(n - 5) == Dimm(n - 9);
      forall i: nat | i < n - 4
        ensures TempName(i) in TempUpTo(r, n) && TempUpTo(r, n)[TempName(i)] == TempByte(r, 4 + i)
      {
        if i < n - 5 && TempName(i) == Dimm(n - 9) {
          TempNameInjective(i, n - 5);
        }
      }
    } else {
      forall k <- TempUpTo(r, n) ensures exists i: nat :: i < n - 4 && k == TempName(i) {
        assert k in {TempName(0), TempName(1), TempName(2), TempName(3)};
      }
    }
  }

  lemma TempNames()
    ensures |GetMetrics(Temp)| == 68
    ensures forall i: nat :: i < 68 ==> GetMetrics(Temp)[i] == TempName(i)
  {
  }

  /** For a response of the documented 72 bytes, any values: the i-th of the 68
      advertised names, all different, holds byte 4 + i. */
  lemma TempMetricsAreParsed(r: IpmiResponse)
    requires r.isValid == 1 && |r.data| == 72
    ensures |GetMetrics(Temp)| == 68
    ensures forall i: nat :: i < 68 ==>
      GetMetrics(Temp)[i] in Parse(Temp, r) && Parse(Temp, r)[GetMetrics(Temp)[i]] == r.data[4 + i]
    ensures forall i: nat, j: nat :: i < j < 68 ==> GetMetrics(Temp)[i] != GetMetrics(Temp)[j]
    ensures forall k :: k in Parse(Temp, r) <==> k in GetMetrics(Temp)
  {
    hide GetMetrics, TempName, TempUpTo;
    TempNames();
    TempEntries(r, 72);
    forall i: nat, j: nat | i < j < 68 ensures GetMetrics(Temp)[i] != GetMetrics(Temp)[j] {
      if TempName(i) == TempName(j) {
        TempNameInjective(i, j);
      }
    }
    forall k ensures k in Parse(Temp, r) <==> k in GetMetrics(Temp) { TempKeys(r, k); }
  }

  lemma TempKeys(r: IpmiResponse, k: string)
    requires r.isValid == 1 && |r.data| == 72
    ensures k in Parse(Temp, r) <==> k in GetMetrics(Temp)
  {
    hide GetMetrics, TempName, TempUpTo;
    TempNames();
    TempEntries(r, 72);
    if k in Parse(Temp, r) {
      var i: nat :| i < 68 && k == TempName(i);
      assert GetMetrics(Temp)[i] == k;
    }
  }
}
