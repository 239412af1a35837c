/** Responses as the firmware encodes them, against what is parsed from them. */
module FormatBytes {
  import opened Common
  import opened Bmc
  import opened Formats

  /** A sixteen-bit value as it is sent, low byte first. */
  function Sent(x: uint16): (b: seq<byte>)
    ensures |b| == 2
  {
    [x % 0x100, x / 0x100]
  }

  lemma SentIsRead(data: seq<byte>, offset: nat, x: uint16)
    requires offset + 2 <= |data| && data[offset..offset + 2] == Sent(x)
    ensures Word(data, offset) == x
  {
    assert data[offset] == data[offset..offset + 2][0] && data[offset + 1] == data[offset..offset + 2][1];
  }

  function SentAll(xs: seq<uint16>): seq<byte> { if xs == [] then [] else Sent(xs[0]) + SentAll(xs[1..]) }

  /** Values sent one after another are read at every other offset. */
  lemma {:induction false} AllAreRead(head: seq<byte>, xs: seq<uint16>, rest: seq<byte>, i: nat)
    requires i < |xs|
    ensures var data := head + SentAll(xs) + rest;
      |head| + 2 * i + 2 <= |data| && Word(data, |head| + 2 * i) == xs[i]
    decreases xs
  {
    var data := head + SentAll(xs) + rest;
    assert data == head + Sent(xs[0]) + (SentAll(xs[1..]) + rest);
    if i == 0 {
      SentIsRead(data, |head|, xs[0]);
    } else {
      AllAreRead(head + Sent(xs[0]), xs[1..], rest, i - 1);
      assert data == (head + Sent(xs[0])) + SentAll(xs[1..]) + rest;
    }
  }

  /** Node manager statistics: completion code and manufacturer id, then current,
      minimum, maximum and average value. */
  lemma NodeManagerIsParsed(head: seq<byte>, cur: uint16, min: uint16, max: uint16, avg: uint16, rest: seq<byte>)
    requires |head| == 4
    ensures var r := IpmiResponse(head + SentAll([cur, min, max, avg]) + rest, 1);
      Parsable(NodeManager, r) && Parse(NodeManager, r) == map["cur" := cur, "min" := min, "max" := max, "avg" := avg]
  {
    hide SentAll, Word;
    FourAreRead(head, cur, min, max, avg, rest);
  }

  lemma FourAreRead(head: seq<byte>, a: uint16, b: uint16, c: uint16, d: uint16, rest: seq<byte>)
    ensures var (data, n) := (head + SentAll([a, b, c, d]) + rest, |head|);
      && |data| >= n + 8
      && Word(data, n) == a && Word(data, n + 2) == b && Word(data, n + 4) == c && Word(data, n + 6) == d
  {
    hide SentAll, Word;
    AllAreRead(head, [a, b, c, d], rest, 0);
    AllAreRead(head, [a, b, c, d], rest, 1);
    AllAreRead(head, [a, b, c, d], rest, 2);
    AllAreRead(head, [a, b, c, d], rest, 3);
  }

  /** DCMI power readings: the same behind completion code and group id. */
  lemma DCMIPowerIsParsed(head: seq<byte>, cur: uint16, min: uint16, max: uint16, avg: uint16, rest: seq<byte>)
    requires |head| == 2
    ensures var r := IpmiResponse(head + SentAll([cur, min, max, avg]) + rest, 1);
      Parsable(DCMIPower, r) && Parse(DCMIPower, r) == map["cur" := cur, "min" := min, "max" := max, "avg" := avg]
  {
    hide SentAll, Word;
    FourAreRead(head, cur, min, max, avg, rest);
  }

  /** CUPS load factors of processor, memory and I/O. */
  lemma CUPSIsParsed(head: seq<byte>, cpu: uint16, memory: uint16, io: uint16, rest: seq<byte>)
    requires |head| == 4
    ensures var r := IpmiResponse(head + SentAll([cpu, memory, io]) + rest, 1);
      && Parsable(CUPS, r)
      && Parse(CUPS, r) == map["cpu_bandwith" := cpu, "memory_bandwith" := memory, "io_bandwith" := io]
  {
    hide SentAll, Word;
    AllAreRead(head, [cpu, memory, io], rest, 0);
    AllAreRead(head, [cpu, memory, io], rest, 1);
    AllAreRead(head, [cpu, memory, io], rest, 2);
  }

  /** Six voltage regulators. */
  lemma PMBusIsParsed(head: seq<byte>, v: seq<uint16>, rest: seq<byte>)
    requires |head| == 4 && |v| == 6
    ensures var r := IpmiResponse(head + SentAll(v) + rest, 1);
      && Parsable(PMBus, r)
      && Parse(PMBus, r) == map["VR0" := v[0], "VR1" := v[1], "VR2" := v[2], "VR3" := v[3], "VR4" := v[4], "VR5" := v[5]]
  {
    hide SentAll, Word;
    AllAreRead(head, v, rest, 0);
    AllAreRead(head, v, rest, 1);
    AllAreRead(head, v, rest, 2);
    AllAreRead(head, v, rest, 3);
    AllAreRead(head, v, rest, 4);
    AllAreRead(head, v, rest, 5);
  }

  /** Margin offset in one byte and TJ max in two. */
  lemma PECIIsParsed(head: seq<byte>, offset: byte, tjMax: uint16, rest: seq<byte>)
    requires |head| == 6
    ensures var r := IpmiResponse(head + [offset] + SentAll([tjMax]) + rest, 1);
      Parsable(PECI, r) && Parse(PECI, r) == map["margin_offset" := offset, "" := tjMax]
  {
    hide SentAll, Word;
    AllAreRead(head + [offset], [tjMax], rest, 0);
  }

  // These do not ask whether the response is valid.

  lemma CUPSIndexIsParsed(head: seq<byte>, index: uint16, rest: seq<byte>, isValid: nat)
    requires |head| == 4
    ensures var r := IpmiResponse(head + SentAll([index]) + rest, isValid);
      Parsable(CUPSIndex, r) && Parse(CUPSIndex, r) == map["index" := index]
  {
    hide SentAll, Word;
    AllAreRead(head, [index], rest, 0);
  }

  lemma PSUIsParsed(head: seq<byte>, first: uint16, second: uint16, rest: seq<byte>, isValid: nat)
    requires |head| == 4
    ensures var r := IpmiResponse(head + SentAll([first, second]) + rest, isValid);
      Parsable(PSU, r) && Parse(PSU, r) == map["0" := first, "1" := second]
  {
    hide SentAll, Word;
    AllAreRead(head, [first, second], rest, 0);
    AllAreRead(head, [first, second], rest, 1);
  }

  lemma PolicyIsParsed(head: seq<byte>, limit: uint16, rest: seq<byte>, isValid: nat)
    requires |head| == 13
    ensures var r := IpmiResponse(head + SentAll([limit]) + rest, isValid);
      Parsable(Policy, r) && Parse(Policy, r) == map["power_limit" := limit]
  {
    hide SentAll, Word;
    AllAreRead(head, [limit], rest, 0);
  }

  /** A sensor reading is the byte behind the completion code. */
  lemma ReadingIsParsed(code: byte, reading: byte, rest: seq<byte>, isValid: nat)
    ensures var r := IpmiResponse([code, reading] + rest, isValid);
      && Parsable(SR, r) && Parse(SR, r) == map["" := reading]
      && Parsable(SensorReading, r) && Parse(SensorReading, r) == map["cur" := reading]
  {
  }

  /** The other formats give 0xFFFF for everything when the response is not
      valid, whatever it holds; voltage regulators that are missing (a response
      of fewer than fourteen bytes) are 0xFFFE. */
  lemma InvalidIsParsed(f: Format, r: IpmiResponse)
    requires r.isValid != 1 && f in {CUPS, NodeManager, Temp, PECI, PMBus, DCMIPower}
    ensures Parsable(f, r)
    ensures forall k <- Parse(f, r) :: Parse(f, r)[k] == if f == PMBus && |r.data| < 14 then 0xFFFE else 0xFFFF
  {
    if f == Temp {
      InvalidTemp(r, |r.data|);
    }
  }

  lemma {:induction false} InvalidTemp(r: IpmiResponse, n: nat)
    requires r.isValid != 1 && n <= |r.data|
    ensures forall k <- TempUpTo(r, n) :: TempUpTo(r, n)[k] == 0xFFFF
  {
    if n > 8 {
      InvalidTemp(r, n - 1);
    }
  }

  lemma MissingRegulators(r: IpmiResponse)
    requires |r.data| < 14
    ensures Parsable(PMBus, r)
    ensures forall k <- Parse(PMBus, r) :: Parse(PMBus, r)[k] == 0xFFFE
  {
  }

  /** What is advertised for a format is what is parsed from its responses; of
      temperatures, from one of 72 bytes. */
  lemma AdvertisedIffParsed(f: Format, r: IpmiResponse, k: string)
    requires Parsable(f, r) && (f == Temp ==> r.isValid == 1 && |r.data| == 72)
    ensures k in GetMetrics(f) <==> k in Parse(f, r)
  {
    if f == Temp {
      TempKeys(r, k);
    }
  }

  /** A valid response is let through exactly if it starts with completion code
      0; one that is not valid always is. */
  lemma PassesIff(r: IpmiResponse)
    ensures Passes(r) <==> r.isValid != 1 || exists rest: seq<byte> :: r.data == [0] + rest
  {
    if r.data != [] && r.data[0] == 0 {
      assert r.data == [0] + r.data[1..];
    }
  }
}
