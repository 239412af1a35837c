/** Type/length fields of a FRU information area: section 13 of the Platform
    Management FRU Information Storage Definition v1.0. */
module FruText {
  import opened Common

  /** What decoding a field gives: text, or a Go panic. */
  datatype Text = Text(bytes: seq<byte>) | Panic

  predicate IsMark(b: byte) { b == 0 || b == 0xFF }

  /** The field up to its first 0x00 or 0xFF. */
  function Visible(payload: seq<byte>): (v: seq<byte>)
    ensures v <= payload
  {
    if payload == [] || IsMark(payload[0]) then [] else [payload[0]] + Visible(payload[1..])
  }

  /** Where the visible part ends: no mark before, a mark or the end there. */
  lemma {:induction false} VisibleEnds(payload: seq<byte>, n: nat)
    requires n <= |payload| && (n < |payload| ==> IsMark(payload[n]))
    requires forall i :: 0 <= i < n ==> !IsMark(payload[i])
    ensures Visible(payload) == payload[..n]
  {
    if n > 0 {
      VisibleEnds(payload[1..], n - 1);
    }
  }

  predicate IsSpace(b: byte) { b == 0x20 || 0x09 <= b <= 0x0D }

  function TrimLeft(s: seq<byte>): seq<byte> {
    if s != [] && IsSpace(s[0]) then TrimLeft(s[1..]) else s
  }

  function TrimRight(s: seq<byte>): seq<byte> {
    if s != [] && IsSpace(s[|s| - 1]) then TrimRight(s[..|s| - 1]) else s
  }

  /** `strings.TrimSpace` on ASCII text. */
  function Trim(s: seq<byte>): seq<byte> { TrimRight(TrimLeft(s)) }

  // Six-bit ASCII: four characters 0x20..0x5F in three bytes, low bits first.

  /** The four characters in a little-endian 24-bit value. */
  function Quad(v: nat): (q: seq<byte>)
    ensures |q| == 4
  {
    [v % 64 + 0x20, v / 64 % 64 + 0x20, v / 64 / 64 % 64 + 0x20, v / 64 / 64 / 64 % 64 + 0x20]
  }

  function ByteOr0(d: seq<byte>, i: nat): byte { if i < |d| then d[i] else 0 }

  function Word24(a: byte, b: byte, c: byte): (v: nat)
    ensures v < 0x100_0000
  {
    a + 0x100 * (b + 0x100 * c as int)
  }

  /** The value of the i-th triple of bytes; bytes that are missing count 0. */
  function TripleAt(d: seq<byte>, i: nat): (v: nat)
    ensures v < 0x100_0000
  {
    Word24(ByteOr0(d, 3 * i), ByteOr0(d, 3 * i + 1), ByteOr0(d, 3 * i + 2))
  }

  /** The text in d: a quad for every triple, the last one perhaps incomplete. */
  function Unpack(d: seq<byte>): (s: seq<byte>)
    ensures |s| == (|d| + 2) / 3 * 4
  {
    seq((|d| + 2) / 3 * 4, i requires 0 <= i < (|d| + 2) / 3 * 4 => UnpackedAt(d, i))
  }

  function UnpackedAt(d: seq<byte>, i: nat): byte { Quad(TripleAt(d, i / 4))[i % 4] }

  predicate IsSixBit(c: byte) { 0x20 <= c <= 0x5F }

  predicate SixBit(s: seq<byte>) { forall i :: 0 <= i < |s| ==> IsSixBit(s[i]) }

  /** The value of four characters. */
  function QuadValue(w: byte, x: byte, y: byte, z: byte): (v: nat)
    requires IsSixBit(w) && IsSixBit(x) && IsSixBit(y) && IsSixBit(z)
    ensures v < 0x100_0000
  {
    var (a: int, b: int, c: int, d: int) := (w - 0x20, x - 0x20, y - 0x20, z - 0x20);
    a + 64 * (b + 64 * (c + 64 * d))
  }

  /** Its three bytes, low byte first. */
  function BytesOf(v: nat): (d: seq<byte>)
    requires v < 0x100_0000
    ensures |d| == 3
  {
    [v % 0x100, v / 0x100 % 0x100, v / 0x100 / 0x100]
  }

  /** The bytes the definition puts four characters, or a text, in. */
  function PackQuad(q: seq<byte>): (d: seq<byte>)
    requires |q| == 4 && SixBit(q)
    ensures |d| == 3
  {
    BytesOf(QuadValue(q[0], q[1], q[2], q[3]))
  }

  function Pack(s: seq<byte>): (d: seq<byte>)
    requires |s| % 4 == 0 && SixBit(s)
    ensures |d| == |s| / 4 * 3
  {
    seq(|s| / 4 * 3, i requires 0 <= i < |s| / 4 * 3 => PackedAt(s, i))
  }

  function PackedAt(s: seq<byte>, i: nat): byte
    requires SixBit(s) && i / 3 * 4 + 4 <= |s|
  {
    PackQuad(s[i / 3 * 4..i / 3 * 4 + 4])[i % 3]
  }

  lemma Digit(a: nat, rest: nat)
    requires a < 64
    ensures (a + 64 * rest) % 64 == a && (a + 64 * rest) / 64 == rest
  {
  }

  lemma QuadOfValue(w: byte, x: byte, y: byte, z: byte)
    requires IsSixBit(w) && IsSixBit(x) && IsSixBit(y) && IsSixBit(z)
    ensures Quad(QuadValue(w, x, y, z)) == [w, x, y, z]
  {
    var (a: int, b: int, c: int, d: int) := (w - 0x20, x - 0x20, y - 0x20, z - 0x20);
    Digit(a, b + 64 * (c + 64 * d));
    Digit(b, c + 64 * d);
    Digit(c, d);
  }

  lemma LowByte(a: byte, high: nat)
    ensures (a + 0x100 * high) % 0x100 == a && (a + 0x100 * high) / 0x100 == high
  {
  }

  lemma BytesOfWord(a: byte, b: byte, c: byte)
    ensures BytesOf(Word24(a, b, c)) == [a, b, c]
  {
    LowByte(a, b + 0x100 * c as int);
    LowByte(b, c);
  }

  lemma WordOfBytes(v: nat)
    requires v < 0x100_0000
    ensures TripleAt(BytesOf(v), 0) == v
  {
  }

  /** Four characters in three bytes and back. */
  lemma QuadRoundTrip(q: seq<byte>)
    requires |q| == 4 && SixBit(q)
    ensures Quad(TripleAt(PackQuad(q), 0)) == q
  {
    WordOfBytes(QuadValue(q[0], q[1], q[2], q[3]));
    QuadOfValue(q[0], q[1], q[2], q[3]);
  }

  lemma TripleOfPack(s: seq<byte>, j: nat)
    requires |s| % 4 == 0 && SixBit(s) && 4 * j < |s|
    ensures TripleAt(Pack(s), j) == TripleAt(PackQuad(s[4 * j..4 * j + 4]), 0)
  {
    hide PackQuad, Word24;
    var d := PackQuad(s[4 * j..4 * j + 4]);
    assert 3 * j / 3 == j && (3 * j + 1) / 3 == j && (3 * j + 2) / 3 == j;
    assert PackedAt(s, 3 * j) == d[0] && PackedAt(s, 3 * j + 1) == d[1] && PackedAt(s, 3 * j + 2) == d[2];
  }

  /** Unpacking what was packed gives the text back. */
  lemma UnpackPack(s: seq<byte>)
    requires |s| % 4 == 0 && SixBit(s)
    ensures Unpack(Pack(s)) == s
  {
    hide PackQuad, Quad, TripleAt, PackedAt;
    forall i | 0 <= i < |s| ensures UnpackedAt(Pack(s), i) == s[i] {
      var j := i / 4;
      TripleOfPack(s, j);
      QuadRoundTrip(s[4 * j..4 * j + 4]);
    }
  }

  lemma QuadBack(v: nat)
    requires v < 0x100_0000
    ensures SixBit(Quad(v)) && PackQuad(Quad(v)) == BytesOf(v)
  {
    hide BytesOf;
    var q, b, c, d := Quad(v), v / 64, v / 64 / 64, v / 64 / 64 / 64;
    assert v == v % 64 + 64 * b && b == b % 64 + 64 * c && c == c % 64 + 64 * d && d % 64 == d;
    assert QuadValue(q[0], q[1], q[2], q[3]) == v;
  }

  lemma QuadAt(d: seq<byte>, j: nat)
    requires j < (|d| + 2) / 3
    ensures Unpack(d)[4 * j..4 * j + 4] == Quad(TripleAt(d, j))
  {
    hide Quad, TripleAt;
    UnpackedInQuad(d, j);
  }

  lemma UnpackedInQuad(d: seq<byte>, j: nat)
    ensures forall i :: 4 * j <= i < 4 * j + 4 ==> UnpackedAt(d, i) == Quad(TripleAt(d, j))[i - 4 * j]
  {
    hide Quad, TripleAt;
  }

  lemma UnpackedIsSixBit(d: seq<byte>)
    ensures SixBit(Unpack(d)) && |Unpack(d)| % 4 == 0
  {
  }

  /** And packing what was unpacked gives the bytes back. */
  lemma PackUnpack(d: seq<byte>)
    requires |d| % 3 == 0
    ensures |Unpack(d)| % 4 == 0 && SixBit(Unpack(d)) && Pack(Unpack(d)) == d
  {
    hide Quad, PackQuad, Unpack, BytesOf, Word24;
    UnpackedIsSixBit(d);
    assert |Unpack(d)| == (|d| + 2) / 3 * 4;
    forall i | 0 <= i < |d| ensures PackedAt(Unpack(d), i) == d[i] {
      var j := i / 3;
      QuadAt(d, j);
      QuadBack(TripleAt(d, j));
      BytesOfWord(d[3 * j], d[3 * j + 1], d[3 * j + 2]);
    }
  }

  // Fields.

  const BCD: seq<byte> :=  // 0..9, space, - . : , _
    [0x30, 0x31, 0x32, 0x33, 0x34, 0x35, 0x36, 0x37, 0x38, 0x39, 0x20, 0x2D, 0x2E, 0x3A, 0x2C, 0x5F]

  /** The code takes one character from a byte, its low half. */
  function BcdText(d: seq<byte>): seq<byte> { seq(|d|, i requires 0 <= i < |d| => BCD[d[i] % 16]) }

  /** What the six-bit branch puts in its buffer as written: the index starts
      over with every triple, so all quads land on bytes 1 to 4. */
  function Overwritten(d: seq<byte>): seq<byte>
    requires |d| >= 4
  {
    var n := (|d| + 2) / 3;
    [0] + Quad(TripleAt(d, n - 1)) + Zeros(4 * n - 5)
  }

  /** The six-bit branch on a field that is visible at all; `running` is the
      index the buffer was sized for, running on from triple to triple. */
  function SixBitText(d: seq<byte>, running: bool): Text {
    if running then Text(Trim(Unpack(d)))
    else if |d| <= 3 then Panic
    else Text(Trim(Overwritten(d)))
  }

  /** The text of a field with this type code and these visible bytes. */
  function FieldText(typeCode: nat, visible: seq<byte>, running: bool): Text {
    if visible == [] then Text([])
    else match typeCode
      case 1 => Text(Trim(BcdText(visible)))
      case 2 => SixBitText(visible, running)
      case 3 => Text(Trim(visible))
      case _ => Text([])
  }

  /** `GetFruAreaString` on the rest of an area. */
  function AreaText(data: seq<byte>, running: bool): Text {
    if data == [] || data[0] % 0x40 >= |data| then Text([])
    else FieldText(data[0] / 0x40, Visible(data[1..1 + data[0] % 0x40]), running)
  }

  /** A field as it is stored. */
  datatype Field = Field(typeCode: nat, payload: seq<byte>) {
    predicate Valid() { typeCode < 4 && |payload| < 0x40 }

    function Encode(): (b: seq<byte>)
      requires Valid()
      ensures |b| == 1 + |payload| && b[0] % 0x40 == |payload|
    {
      [typeCode * 0x40 + |payload|] + payload
    }
  }

  /** The text of a field of its own. */
  function TextOf(f: Field, running: bool): Text { FieldText(f.typeCode, Visible(f.payload), running) }

  /** Whatever follows a field, its text depends on its own bytes only. */
  lemma FieldIsLocal(f: Field, rest: seq<byte>, running: bool)
    requires f.Valid()
    ensures AreaText(f.Encode() + rest, running) == TextOf(f, running)
  {
  }

  lemma {:induction false} TrimKeeps(s: seq<byte>)
    requires s != [] && !IsSpace(s[0])
    ensures Trim(s) != [] && Trim(s)[0] == s[0]
  {
    TrimRightKeeps(s);
  }

  lemma {:induction false} TrimRightKeeps(s: seq<byte>)
    requires s != [] && !IsSpace(s[0])
    ensures TrimRight(s) != [] && TrimRight(s)[0] == s[0]
  {
    if IsSpace(s[|s| - 1]) {
      TrimRightKeeps(s[..|s| - 1]);
    }
  }

  lemma {:induction false} TrimTakes(s: seq<byte>)
    ensures forall b <- Trim(s) :: b in s
  {
    TrimLeftTakes(s);
    TrimRightTakes(TrimLeft(s));
  }

  lemma {:induction false} TrimLeftTakes(s: seq<byte>)
    ensures forall b <- TrimLeft(s) :: b in s
  {
    if s != [] && IsSpace(s[0]) {
      TrimLeftTakes(s[1..]);
    }
  }

  lemma {:induction false} TrimRightTakes(s: seq<byte>)
    ensures forall b <- TrimRight(s) :: b in s
  {
    if s != [] && IsSpace(s[|s| - 1]) {
      TrimRightTakes(s[..|s| - 1]);
    }
  }

  /** As written, the six-bit branch agrees with a running index exactly when
      it is not entered: otherwise it panics, for up to three visible bytes, or
      its text starts with a zero byte. */
  lemma SixBitAsWrittenIff(visible: seq<byte>)
    ensures FieldText(2, visible, false) == FieldText(2, visible, true) <==> visible == []
    ensures var text := FieldText(2, visible, false);
      if visible == [] then text == Text([])
      else if |visible| <= 3 then text == Panic
      else text.Text? && text.bytes != [] && text.bytes[0] == 0
  {
    if |visible| > 3 {
      hide Quad, TripleAt, Trim, Unpack;
      var text, buffer := Unpack(visible), Overwritten(visible);
      TrimKeeps(buffer);
      assert Trim(buffer)[0] == 0;
      UnpackedIsSixBit(visible);
      TrimTakes(text);
      assert Trim(text) != [] ==> Trim(text)[0] in text;
    }
  }
}
