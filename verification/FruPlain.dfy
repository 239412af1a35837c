/** Plain fields (type 3), and the characters of the packed ones, by their codes. */
module FruPlain {
  import opened Common
  import opened FruText
  import opened FruExact
  import opened FruBcd

  /** Space, tab, line feed, vertical tab, form feed, carriage return. */
  const WHITE: set<byte> := {0x20, 0x09, 0x0A, 0x0B, 0x0C, 0x0D}

  /** A plain field gives its bytes from i to j: it is cut off at the first 0x00
      or 0xFF, which is byte n, and white space is dropped at both ends. */
  ghost predicate Between(p: seq<byte>, i: nat, j: nat, n: nat) {
    && i <= j <= n <= |p|
    && (forall k :: 0 <= k < n ==> p[k] != 0x00 && p[k] != 0xFF)
    && (n < |p| ==> p[n] == 0x00 || p[n] == 0xFF)
    && (forall k :: 0 <= k < i || j <= k < n ==> p[k] in WHITE)
    && (i < j ==> p[i] !in WHITE && p[j - 1] !in WHITE)
  }

  lemma PlainTextIs(p: seq<byte>, rest: seq<byte>, running: bool) returns (i: nat, j: nat, n: nat)
    requires |p| < 0x40
    ensures Between(p, i, j, n) && AreaText(Field(3, p).Encode() + rest, running) == Text(p[i..j])
  {
    hide AreaText, Field.Encode, TextOf, Trim, Visible, Between, Remains;
    FieldIsLocal(Field(3, p), rest, running);
    PlainField(p, running);
    n := VisibleIs(p);
    i, j := TrimRemains(p[..n]);
    RemainsIsBetween(p, i, j, n);
  }

  lemma RemainsIsBetween(p: seq<byte>, i: nat, j: nat, n: nat)
    requires n <= |p| && Remains(p[..n], i, j)
    requires forall k :: 0 <= k < n ==> p[k] != 0x00 && p[k] != 0xFF
    requires n < |p| ==> p[n] == 0x00 || p[n] == 0xFF
    ensures Between(p, i, j, n) && p[..n][i..j] == p[i..j]
  {
    hide IsSpace;
    forall b: byte ensures IsSpace(b) <==> b in WHITE { WhiteIsSpace(b); }
    assert forall k :: 0 <= k < n ==> p[..n][k] == p[k];
  }

  lemma WhiteIsSpace(b: byte)
    ensures IsSpace(b) <==> b in WHITE
  {
  }

  lemma PlainField(p: seq<byte>, running: bool)
    requires |p| < 0x40
    ensures TextOf(Field(3, p), running) == Text(Trim(Visible(p)))
  {
    hide Visible, SixBitText, BcdText;
    assert Trim([]) == [];
  }

  lemma {:induction false} VisibleIs(p: seq<byte>) returns (n: nat)
    ensures n <= |p| && Visible(p) == p[..n]
    ensures forall k :: 0 <= k < n ==> p[k] != 0x00 && p[k] != 0xFF
    ensures n < |p| ==> p[n] == 0x00 || p[n] == 0xFF
  {
    if p == [] || p[0] == 0x00 || p[0] == 0xFF {
      n := 0;
    } else {
      var n' := VisibleIs(p[1..]);
      n := n' + 1;
      assert forall k :: 0 < k < |p| ==> p[k] == p[1..][k - 1];
    }
  }

  /** There is only one such part. */
  lemma OnlyBetween(p: seq<byte>, i: nat, j: nat, n: nat, i': nat, j': nat, n': nat)
    requires Between(p, i, j, n) && Between(p, i', j', n')
    ensures p[i..j] == p[i'..j']
  {
    assert n == n';
    if i < j {
      assert i == i' && j == j';
    }
  }

  /** A plain field comes back as it is exactly if it has no 0x00 or 0xFF and no
      white space at either end. */
  lemma PlainSurvivesIff(p: seq<byte>, rest: seq<byte>, running: bool)
    requires |p| < 0x40
    ensures AreaText(Field(3, p).Encode() + rest, running) == Text(p)
      <==> (forall b <- p :: b != 0x00 && b != 0xFF) && (p != [] ==> p[0] !in WHITE && p[|p| - 1] !in WHITE)
  {
    hide AreaText, Field.Encode;
    var i, j, n := PlainTextIs(p, rest, running);
    if p[i..j] == p {
      assert i == 0 && j == n == |p|;
    } else if n < |p| {
      assert p[n] in p;
    }
  }

  /** A binary field (type 0) gives no text. */
  lemma BinaryIsEmpty(p: seq<byte>, rest: seq<byte>, running: bool)
    requires |p| < 0x40
    ensures AreaText(Field(0, p).Encode() + rest, running) == Text([])
  {
    hide AreaText, Field.Encode;
    FieldIsLocal(Field(0, p), rest, running);
  }

  /** A field that is cut off by the end of the area gives no text. */
  lemma CutOffIsEmpty(f: Field, n: nat, running: bool)
    requires f.Valid() && n < |f.Encode()|
    ensures AreaText(f.Encode()[..n], running) == Text([])
  {
  }

  /** The characters of BCD plus: the digits, then space - . : , _ */
  lemma BcdCharacters(n: nat)
    requires n < 16
    ensures BCD[n] == if n < 10 then 0x30 + n else [0x20, 0x2D, 0x2E, 0x3A, 0x2C, 0x5F][n - 10]
  {
  }

  /** The example of the definition: "IPMI" is packed as 29h DCh A6h. */
  lemma PackedExample()
    ensures SixBit([0x49, 0x50, 0x4D, 0x49]) && Pack([0x49, 0x50, 0x4D, 0x49]) == [0x29, 0xDC, 0xA6]
  {
    assert PackQuad([0x49, 0x50, 0x4D, 0x49]) == [0x29, 0xDC, 0xA6];
    var s: seq<byte> := [0x49, 0x50, 0x4D, 0x49];
    assert s[0..4] == s;
    assert PackedAt(s, 0) == 0x29 && PackedAt(s, 1) == 0xDC && PackedAt(s, 2) == 0xA6;
  }
}
