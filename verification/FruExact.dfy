/** Exactly which six-bit texts survive: the visible part of a field ends at its
    first 0x00 or 0xFF, and packed text may hold such bytes. */
module FruExact {
  import opened Common
  import opened FruText

  // Trimming, by position.

  /** s[i..j] is what remains of s. */
  ghost predicate Remains(s: seq<byte>, i: nat, j: nat) {
    && i <= j <= |s|
    && (forall k :: 0 <= k < i ==> IsSpace(s[k]))
    && (forall k :: j <= k < |s| ==> IsSpace(s[k]))
    && (i < j ==> !IsSpace(s[i]) && !IsSpace(s[j - 1]))
    && (i == j ==> j == |s|)
  }

  lemma {:induction false} TrimLeftRemains(s: seq<byte>) returns (i: nat)
    ensures i <= |s| && TrimLeft(s) == s[i..]
    ensures (forall k :: 0 <= k < i ==> IsSpace(s[k])) && (i < |s| ==> !IsSpace(s[i]))
  {
    if s != [] && IsSpace(s[0]) {
      var i' := TrimLeftRemains(s[1..]);
      i := i' + 1;
      forall k | 0 <= k < i ensures IsSpace(s[k]) {
        if k > 0 {
          assert s[k] == s[1..][k - 1];
        }
      }
    } else {
      i := 0;
    }
  }

  lemma {:induction false} TrimRightRemains(s: seq<byte>) returns (j: nat)
    ensures j <= |s| && TrimRight(s) == s[..j]
    ensures (forall k :: j <= k < |s| ==> IsSpace(s[k])) && (j > 0 ==> !IsSpace(s[j - 1]))
  {
    if s != [] && IsSpace(s[|s| - 1]) {
      j := TrimRightRemains(s[..|s| - 1]);
      assert s[..|s| - 1][..j] == s[..j];
    } else {
      j := |s|;
      assert s[..j] == s;
    }
  }

  lemma TrimRemains(s: seq<byte>) returns (i: nat, j: nat)
    ensures Remains(s, i, j) && Trim(s) == s[i..j]
  {
    i := TrimLeftRemains(s);
    var n := TrimRightRemains(s[i..]);
    assert i < |s| ==> s[i..][0] == s[i];
    if n == 0 {
      j := |s|;
    } else {
      j := i + n;
      assert s[i..][n - 1] == s[j - 1] && s[i..][0] == s[i];
      forall k | j <= k < |s| ensures IsSpace(s[k]) {
        assert s[k] == s[i..][k - i];
      }
    }
    assert s[i..][..n] == s[i..i + n];
  }

  /** b has a character wherever a has one. Two such texts of one length are
      trimmed alike only if they are equal. */
  lemma TrimTellsApart(a: seq<byte>, b: seq<byte>)
    requires |a| == |b| && SixBit(a) && SixBit(b)
    requires forall k :: 0 <= k < |a| && !IsSpace(a[k]) ==> !IsSpace(b[k])
    requires Trim(a) == Trim(b)
    ensures a == b
  {
    var i, j := TrimRemains(a);
    var i', j' := TrimRemains(b);
    assert j - i == j' - i';
    forall k | 0 <= k < |a| ensures a[k] == b[k] {
      assert IsSixBit(a[k]) && IsSixBit(b[k]);
      if i <= k < j {
        assert a[k] == a[i..j][k - i] == b[i'..j'][k - i];
      }
    }
  }

  /** Spaces at the end are trimmed away. */
  lemma {:induction false} TrimDropsPadding(s: seq<byte>, n: nat)
    ensures Trim(s + seq(n, _ => 0x20)) == Trim(s)
  {
    var pad: seq<byte> := seq(n, _ => 0x20);
    var t := s + pad;
    var i, j := TrimRemains(s);
    var i', j' := TrimRemains(t);
    if i < j {
      assert t[i] == s[i] && t[j - 1] == s[j - 1];
      assert forall k :: 0 <= k < |s| ==> t[k] == s[k];
      assert forall k :: |s| <= k < |t| ==> t[k] == 0x20;
      assert t[i..j] == s[i..j];
    } else {
      forall k | 0 <= k < |t| ensures IsSpace(t[k]) {
        assert k < |s| ==> t[k] == s[k];
      }
    }
  }

  // Cutting a packed text short.

  /** d cut off after n bytes, as far as unpacking goes. */
  function Cut(d: seq<byte>, n: nat): (c: seq<byte>)
    requires n <= |d|
    ensures |c| == |d|
  {
    d[..n] + Zeros(|d| - n)
  }

  /** The characters in three bytes, from the digits of the bytes. */
  lemma QuadFromDigits(x1: nat, x0: nat, y1: nat, y0: nat, z1: nat, z0: nat)
    requires x1 < 4 && x0 < 64 && y1 < 16 && y0 < 16 && z1 < 64 && z0 < 4
    ensures Quad(Word24(64 * x1 + x0, 16 * y1 + y0, 4 * z1 + z0))
         == [x0 + 0x20, x1 + 4 * y0 + 0x20, y1 + 16 * z0 + 0x20, z1 + 0x20]
  {
    Digit(x0, x1 + 4 * y0 + 64 * (y1 + 16 * z0 + 64 * z1));
    Digit(x1 + 4 * y0, y1 + 16 * z0 + 64 * z1);
    Digit(y1 + 16 * z0, z1);
    assert Word24(64 * x1 + x0, 16 * y1 + y0, 4 * z1 + z0)
        == x0 + 64 * (x1 + 4 * y0 + 64 * (y1 + 16 * z0 + 64 * z1));
  }

  /** Zeroing high bytes leaves no character that was not there before. */
  lemma CutQuad(a: byte, b: byte, c: byte)
    ensures forall i :: 0 <= i < 4 ==>
      && (Quad(Word24(a, b, 0))[i] != 0x20 ==> Quad(Word24(a, b, c))[i] != 0x20)
      && (Quad(Word24(a, 0, 0))[i] != 0x20 ==> Quad(Word24(a, b, c))[i] != 0x20)
      && Quad(Word24(0, 0, 0))[i] == 0x20
  {
    hide Quad, Word24;
    var x1: nat, x0: nat := a / 64, a % 64;
    var y1: nat, y0: nat := b / 16, b % 16;
    var z1: nat, z0: nat := c / 4, c % 4;
    QuadFromDigits(x1, x0, y1, y0, z1, z0);
    QuadFromDigits(x1, x0, y1, y0, 0, 0);
    QuadFromDigits(x1, x0, 0, 0, 0, 0);
    QuadFromDigits(0, 0, 0, 0, 0, 0);
  }

  lemma CutTriple(d: seq<byte>, n: nat, j: nat)
    requires n <= |d| && 3 * j + 3 <= |d|
    ensures forall i :: 0 <= i < 4 ==>
      Quad(TripleAt(Cut(d, n), j))[i] != 0x20 ==> Quad(TripleAt(d, j))[i] != 0x20
  {
    hide Quad, Word24;
    CutQuad(d[3 * j], d[3 * j + 1], d[3 * j + 2]);
  }

  lemma CutHasFewer(d: seq<byte>, n: nat)
    requires n <= |d| && |d| % 3 == 0
    ensures forall k :: 0 <= k < |Unpack(d)| ==>
      !IsSpace(Unpack(Cut(d, n))[k]) ==> !IsSpace(Unpack(d)[k])
  {
    hide Quad, TripleAt, Cut;
    UnpackedIsSixBit(d);
    UnpackedIsSixBit(Cut(d, n));
    forall k | 0 <= k < |Unpack(d)|
      ensures !IsSpace(Unpack(Cut(d, n))[k]) ==> !IsSpace(Unpack(d)[k])
    {
      CutTriple(d, n, k / 4);
      assert IsSixBit(Unpack(d)[k]) && IsSixBit(Unpack(Cut(d, n))[k]);
    }
  }

  lemma CutTriples(d: seq<byte>, n: nat, j: nat)
    requires n <= |d|
    ensures TripleAt(d[..n], j) == TripleAt(Cut(d, n), j)
    ensures 3 * j >= n ==> TripleAt(d[..n], j) == Word24(0, 0, 0)
  {
  }

  /** The visible part unpacks to the cut text, without spaces at its end. */
  lemma CutIsPadding(d: seq<byte>, n: nat)
    requires n <= |d| && |d| % 3 == 0
    ensures Trim(Unpack(d[..n])) == Trim(Unpack(Cut(d, n)))
  {
    hide Quad, TripleAt, Word24, Trim, Cut;
    var v, z := d[..n], Cut(d, n);
    var pad: seq<byte> := seq(|Unpack(z)| - |Unpack(v)|, _ => 0x20);
    forall k | 0 <= k < |Unpack(z)| ensures Unpack(z)[k] == (Unpack(v) + pad)[k] {
      CutTriples(d, n, k / 4);
      if k >= |Unpack(v)| {
        CutQuad(0, 0, 0);
      }
    }
    assert Unpack(z) == Unpack(v) + pad;
    TrimDropsPadding(Unpack(v), |pad|);
  }

  /** With a running index, a six-bit text comes back (trimmed) exactly when
      from the first 0x00 or 0xFF among its packed bytes on all of them are 0. */
  lemma SixBitSurvivesIff(s: seq<byte>, rest: seq<byte>)
    requires |s| % 4 == 0 && SixBit(s) && |s| <= 0x54
    ensures Field(2, Pack(s)).Valid()
    ensures AreaText(Field(2, Pack(s)).Encode() + rest, true) == Text(Trim(s))
      <==> forall b <- Pack(s)[|Visible(Pack(s))|..] :: b == 0
  {
    hide Pack, Unpack, AreaText, Field.Encode, Cut;
    var d := Pack(s);
    FieldIsLocal(Field(2, d), rest, true);
    var n := |Visible(d)|;
    CutIsPadding(d, n);
    if n == 0 {
      NoText(d[..0]);
    }
    UnpackPack(s);
    CutIs(d, n);
    assert d[..n] == Visible(d);
    assert AreaText(Field(2, d).Encode() + rest, true) == Text(Trim(Unpack(Cut(d, n))));
    if Trim(Unpack(Cut(d, n))) == Trim(s) {
      CutHasFewer(d, n);
      UnpackedIsSixBit(Cut(d, n));
      UnpackedIsSixBit(d);
      TrimTellsApart(Unpack(Cut(d, n)), s);
      PackUnpack(d);
      PackUnpack(Cut(d, n));
      assert Cut(d, n) == d;
    }
  }

  /** As written the text is a zero byte, the last four characters and zeros. */
  lemma AsWrittenText(visible: seq<byte>)
    requires |visible| >= 4
    ensures var (s, n) := (Unpack(visible), |Unpack(visible)|);
      n >= 8 && FieldText(2, visible, false) == Text([0] + s[n - 4..] + Zeros(n - 5))
  {
    hide Quad, TripleAt, Trim, Unpack;
    var s, n := Unpack(visible), |Unpack(visible)|;
    var j := (|visible| + 2) / 3 - 1;
    QuadAt(visible, j);
    assert s[4 * j..4 * j + 4] == s[n - 4..];
    var text := Overwritten(visible);
    assert text == [0] + s[n - 4..] + Zeros(n - 5);
    var a, b := TrimRemains(text);
    assert text[0] == 0 && text[|text| - 1] == 0;
    assert text[a..b] == text;
  }

  /** As written only texts of spaces survive. */
  lemma AsWrittenSurvivesIff(s: seq<byte>, rest: seq<byte>)
    requires |s| % 4 == 0 && SixBit(s) && |s| <= 0x54
    ensures Field(2, Pack(s)).Valid()
    ensures AreaText(Field(2, Pack(s)).Encode() + rest, false) == Text(Trim(s))
      <==> forall c <- s :: c == 0x20
  {
    hide Pack, AreaText, Field.Encode, Trim, Visible, FieldText;
    var visible := Visible(Pack(s));
    FieldIsLocal(Field(2, Pack(s)), rest, false);
    SixBitAsWrittenIff(visible);
    TrimTakes(s);
    assert Trim(s) != [] ==> Trim(s)[0] in s;
    TrimmedAwayIff(s);
    if forall c <- s :: c == 0x20 {
      PackedSpaces(s);
    }
  }

  lemma TrimmedAwayIff(s: seq<byte>)
    requires SixBit(s)
    ensures Trim(s) == [] <==> forall c <- s :: c == 0x20
  {
    var i, j := TrimRemains(s);
    if i < j {
      assert s[i] in s;
    }
  }

  lemma PackedSpaces(s: seq<byte>)
    requires |s| % 4 == 0 && SixBit(s) && forall c <- s :: c == 0x20
    ensures Visible(Pack(s)) == []
  {
    hide PackQuad;
    if s != [] {
      assert s[0] in s && s[1] in s && s[2] in s && s[3] in s;
      assert s[0..4] == [0x20, 0x20, 0x20, 0x20];
      PackedQuadOfSpaces();
      assert PackedAt(s, 0) == 0;
    }
  }

  lemma PackedQuadOfSpaces()
    ensures PackQuad([0x20, 0x20, 0x20, 0x20]) == [0, 0, 0]
  {
  }

  /** A text that is lost although the branch is not entered: " $AB" is packed
      with a zero byte in front. */
  lemma LostTextExample()
    ensures Pack([0x20, 0x24, 0x41, 0x42])[0] == 0 && Visible(Pack([0x20, 0x24, 0x41, 0x42])) == []
    ensures Trim([0x20, 0x24, 0x41, 0x42]) == [0x24, 0x41, 0x42]
  {
    assert PackedAt([0x20, 0x24, 0x41, 0x42], 0) == 0;
  }

  lemma NoText(d: seq<byte>)
    requires d == []
    ensures Trim(Unpack(d)) == []
  {
  }

  lemma CutIs(d: seq<byte>, n: nat)
    requires n <= |d|
    ensures Cut(d, n) == d <==> forall b <- d[n..] :: b == 0
  {
    if Cut(d, n) == d {
      forall b <- d[n..] ensures b == 0 {
        var i :| 0 <= i < |d[n..]| && d[n..][i] == b;
        assert Cut(d, n)[n + i] == 0;
      }
    }
    if forall b <- d[n..] :: b == 0 {
      forall i | n <= i < |d| ensures d[i] == 0 {
        assert d[n..][i - n] == d[i] && d[n..][i - n] in d[n..];
      }
    }
  }
}
