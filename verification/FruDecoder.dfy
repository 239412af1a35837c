/** `GetFruAreaString`: decoding a type/length field. */
module FruDecoder {
  import opened Common
  import opened FruText

  /** What the shift register holds: chars[3] is its low byte. */
  function Register(chars: seq<byte>): nat
    requires |chars| == 4
  {
    chars[3] + 0x100 * (chars[2] + 0x100 * (chars[1] + 0x100 * chars[0] as int))
  }

  /** The byte operations of a shift, and the arithmetic they stand for. */
  lemma ShiftIsDivision(c: bv8, above: bv8)
    ensures (c >> 6) | ((above & 0x3f) << 2) == c / 64 + (above % 64) * 4
    ensures (c & 0x3f) + 0x20 == c % 64 + 0x20
  {
  }

  /** Byte i after a shift: its own high bits, and the low bits of the next higher byte. */
  function ShiftedByte(c: seq<byte>, i: nat): byte
    requires |c| == 4 && i < 4
  {
    if i == 0 then c[0] / 64 else ShiftIn(c[i], c[i - 1])
  }

  function ShiftIn(c: byte, above: byte): byte { c / 64 + above % 64 * 4 }

  lemma ShiftedRegister(c: seq<byte>, d: seq<byte>)
    requires |c| == 4 && |d| == 4
    requires forall i: nat :: i < 4 ==> d[i] == ShiftedByte(c, i)
    ensures Register(d) == Register(c) / 64
  {
  }

  /** The register shifts right by six bits, byte by byte from the low end. */
  method Shift(chars: array<byte>)
    requires chars.Length == 4
    modifies chars
    ensures Register(chars[..]) == old(Register(chars[..])) / 64
  {
    hide Register, ShiftIn;
    var m := 3;
    ghost var c := chars[..];
    while m > 0
      invariant 0 <= m <= 3
      invariant forall i :: 0 <= i <= m ==> chars[i] == c[i]
      invariant forall i :: m < i < 4 ==> chars[i] == ShiftedByte(c, i)
    {
      chars[m] := ShiftIn(chars[m], chars[m - 1]);
      m := m - 1;
    }
    chars[m] := chars[m] / 64;
    ShiftedRegister(c, chars[..]);
  }

  /** The register after k shifts, and the character it then yields. */
  function Shifted(v: nat, k: nat): nat { if k == 0 then v else Shifted(v, k - 1) / 64 }

  lemma ShiftedIsQuad(v: nat)
    ensures forall k: nat :: k < 4 ==> Quad(v)[k] == Shifted(v, k) % 64 + 0x20
    ensures v < 0x100_0000 ==> Shifted(v, 4) == 0
  {
    assert Shifted(v, 1) == v / 64;
    assert Shifted(v, 2) == v / 64 / 64;
    assert Shifted(v, 3) == v / 64 / 64 / 64;
    assert Shifted(v, 4) == v / 64 / 64 / 64 / 64;
  }

  /** Shifts four characters out of the register into the buffer from base on;
      false stands for Go's index-out-of-range panic. */
  method EmitQuad(chars: array<byte>, buf: array<byte>, base: nat) returns (ok: bool)
    requires chars.Length == 4 && chars != buf
    modifies chars, buf
    ensures ok <==> base + 4 <= buf.Length
    ensures ok && old(Register(chars[..])) < 0x100_0000 ==> chars[0] == 0
    ensures ok ==> forall i :: 0 <= i < buf.Length ==>
      buf[i] == if base <= i < base + 4 then Quad(old(Register(chars[..])))[i - base] else old(buf[i])
  {
    ghost var v := Register(chars[..]);
    ShiftedIsQuad(v);
    for k := 0 to 4
      invariant base + k <= buf.Length || (k == 0 && base >= buf.Length)
      invariant Register(chars[..]) == Shifted(v, k)
      invariant forall i :: 0 <= i < buf.Length ==>
        buf[i] == if base <= i < base + k then Quad(v)[i - base] else old(buf[i])
    {
      if base + k >= buf.Length {
        return false;
      }
      LowBits(chars[..]);
      buf[base + k] := chars[3] % 64 + 0x20;
      Shift(chars);
    }
    return true;
  }

  lemma LowBits(chars: seq<byte>)
    requires |chars| == 4
    ensures chars[3] % 64 == Register(chars) % 64
  {
  }

  /** Puts up to three bytes from data[i] on in the register. */
  method LoadTriple(chars: array<byte>, data: seq<byte>, i: nat, ghost t: nat)
    requires chars.Length == 4 && chars[0] == 0 && i == 3 * t && i < |data|
    modifies chars
    ensures chars[0] == 0 && Register(chars[..]) == TripleAt(data, t)
  {
    var k := if |data| - i < 3 then |data| - i else 3;
    chars[3] := data[i];
    chars[2] := if k > 1 then data[i + 1] else 0;
    chars[1] := if k > 2 then data[i + 2] else 0;
  }

  lemma Third(x: nat, q: nat, r: nat)
    requires x == 3 * q + r && r < 3
    ensures x / 3 == q
  {
  }

  lemma BufferSize(length: nat)
    ensures (length + 2) * 4 / 3 / 4 * 4 == (length + 2) / 3 * 4
  {
    var q, r := (length + 2) / 3, (length + 2) % 3;
    assert length + 2 == 3 * q + r;
    Third((length + 2) * 4, 4 * q + r, r);
    assert (4 * q + r) / 4 == q;
  }

  /** The six-bit branch. As written the index is set back for every triple and
      each quad goes to bytes 1 to 4; with a running index it is put behind the
      one before. */
  method UnpackSixBit(data: seq<byte>, running: bool) returns (text: Text)
    requires data != []
    ensures text == SixBitText(data, running)
  {
    hide Quad, TripleAt, Trim, Unpack, UnpackedAt, Overwritten, Register;
    BufferSize(|data|);
    var chars := new byte[4](_ => 0);
    var buf := new byte[(|data| + 2) * 4 / 3 / 4 * 4](_ => 0);
    var i, next := 0, 0;
    ghost var t := 0;
    while i < |data|
      invariant i == 3 * t && next == 4 * t && t <= (|data| + 2) / 3 && chars[0] == 0
      invariant if running then Emitted(buf[..], data, next) else EmittedAtOne(buf[..], data, t)
      decreases |data| - i
    {
      LoadTriple(chars, data, i, t);
      UnpackedInQuad(data, t);
      var ok := EmitQuad(chars, buf, if running then next else 1);
      if !ok {
        return Panic;
      }
      i, next, t := i + 3, next + 4, t + 1;
    }
    BufferIsText(buf[..], data);
    return Text(Trim(buf[..]));
  }

  ghost predicate Emitted(buf: seq<byte>, data: seq<byte>, n: nat) {
    n <= |buf| && forall j :: 0 <= j < n ==> buf[j] == UnpackedAt(data, j)
  }

  ghost predicate EmittedAtOne(buf: seq<byte>, data: seq<byte>, t: nat) {
    && (t > 0 ==> |buf| >= 5)
    && forall j :: 0 <= j < |buf| ==> buf[j] == if t > 0 && 1 <= j < 5 then Quad(TripleAt(data, t - 1))[j - 1] else 0
  }

  lemma BufferIsText(buf: seq<byte>, data: seq<byte>)
    requires data != [] && |buf| == (|data| + 2) / 3 * 4
    ensures Emitted(buf, data, |buf|) ==> buf == Unpack(data)
    ensures EmittedAtOne(buf, data, (|data| + 2) / 3) ==> |data| >= 4 && buf == Overwritten(data)
  {
    hide Quad, TripleAt, UnpackedAt;
  }

  /** The text of the field at the front of data. */
  method GetFruAreaString(data: seq<byte>, running: bool) returns (text: Text)
    ensures text == AreaText(data, running)
  {
    hide Trim, SixBitText, BcdText, Visible;
    if |data| == 0 {
      return Text([]);
    }
    var offset := 1;
    var typeCode := data[0] / 0x40;
    var length := data[0] % 0x40;
    if offset + length - 1 >= |data| {
      return Text([]);
    }
    // only what is in front of a mark counts
    ghost var payload := data[1..1 + length];
    var index := 0;
    while index < length && data[offset + index] != 0 && data[offset + index] != 0xFF
      invariant index <= length
      invariant forall i :: 0 <= i < index ==> !IsMark(payload[i])
    {
      assert payload[index] == data[offset + index];
      index := index + 1;
    }
    assert index < length ==> payload[index] == data[offset + index];
    VisibleEnds(payload, index);
    length := index;
    if length == 0 {
      return Text([]);
    }
    var visible := data[offset..offset + length];
    assert visible == payload[..index];
    match typeCode {
      case 3 =>
        var buf := CopyText(visible);
        text := Text(Trim(buf));
      case 2 =>
        text := UnpackSixBit(visible, running);
      case 1 =>
        var buf := DecodeBcd(visible);
        text := Text(Trim(buf));
      case _ =>
        text := Text([]);  // case 0 does not fall through to case 3
    }
  }

  method CopyText(d: seq<byte>) returns (text: seq<byte>)
    ensures text == d
  {
    var buf := new byte[|d|](_ => 0);
    for i := 0 to |d|
      invariant buf[..i] == d[..i]
    {
      buf[i] := d[i];
    }
    text := buf[..];
  }

  method DecodeBcd(d: seq<byte>) returns (text: seq<byte>)
    ensures text == BcdText(d)
  {
    var buf := new byte[|d|](_ => 0);
    for i := 0 to |d|
      invariant buf[..i] == BcdText(d)[..i]
    {
      buf[i] := BCD[d[i] % 16];
    }
    text := buf[..];
  }
}
