/** BCD plus as the code decodes it, and as the definition has it: section 13 of
    the Platform Management FRU Information Storage Definition v1.0. */
module FruBcd {
  import opened Common
  import opened FruText
  import opened FruExact

  /** The text of the definition: two characters in a byte, high half first. */
  function BcdPlus(d: seq<byte>): (s: seq<byte>)
    ensures |s| == 2 * |d|
  {
    if d == [] then [] else [BCD[d[0] / 16], BCD[d[0] % 16]] + BcdPlus(d[1..])
  }

  lemma {:induction false} BcdPlusAt(d: seq<byte>, k: nat)
    requires k < |d|
    ensures BcdPlus(d)[2 * k] == BCD[d[k] / 16] && BcdPlus(d)[2 * k + 1] == BCD[d[k] % 16]
  {
    if k > 0 {
      BcdPlusAt(d[1..], k - 1);
    }
  }

  lemma BcdSpace(n: nat)
    requires n < 16
    ensures IsSpace(BCD[n]) <==> n == 0xA
  {
  }

  /** How many characters are not spaces. */
  function Solid(s: seq<byte>): nat {
    if s == [] then 0 else (if IsSpace(s[0]) then 0 else 1) + Solid(s[1..])
  }

  lemma {:induction false} SolidConcat(a: seq<byte>, b: seq<byte>)
    ensures Solid(a + b) == Solid(a) + Solid(b)
  {
    if a == [] {
      assert a + b == b;
    } else {
      assert (a + b)[1..] == a[1..] + b;
      SolidConcat(a[1..], b);
    }
  }

  lemma {:induction false} SolidSpaces(s: seq<byte>)
    requires forall k :: 0 <= k < |s| ==> IsSpace(s[k])
    ensures Solid(s) == 0
  {
    if s != [] {
      SolidSpaces(s[1..]);
    }
  }

  /** Trimming takes spaces only. */
  lemma SolidTrim(s: seq<byte>)
    ensures Solid(Trim(s)) == Solid(s)
  {
    var i, j := TrimRemains(s);
    SolidSpaces(s[..i]);
    SolidSpaces(s[j..]);
    SolidConcat(s[..i], s[i..j]);
    SolidConcat(s[..j], s[j..]);
    assert s[..j] == s[..i] + s[i..j] && s == s[..j] + s[j..];
  }

  predicate HighSpaces(d: seq<byte>) { forall b <- d :: b / 16 == 0xA }

  /** The code shows no more of the visible bytes than the definition of the
      whole field, and as much only if the field is visible in full and every
      high half is a space. */
  lemma {:induction false} SolidBcd(d: seq<byte>)
    ensures Solid(BcdText(Visible(d))) <= Solid(BcdPlus(d))
    ensures Solid(BcdText(Visible(d))) == Solid(BcdPlus(d)) ==> HighSpaces(d)
  {
    if d != [] {
      var v, c := Visible(d), BcdText(Visible(d));
      SolidBcd(d[1..]);
      BcdSpace(d[0] / 16);
      BcdSpace(d[0] % 16);
      SolidPair(BCD[d[0] / 16], BCD[d[0] % 16], BcdPlus(d[1..]));
      if v != [] {
        assert c[1..] == BcdText(Visible(d[1..]));
        assert c[0] == BCD[d[0] % 16];
      }
      assert d == [d[0]] + d[1..];
    }
  }

  lemma SolidPair(a: byte, b: byte, rest: seq<byte>)
    ensures Solid([a, b] + rest) == (if IsSpace(a) then 0 else 1) + (if IsSpace(b) then 0 else 1) + Solid(rest)
  {
    assert ([a, b] + rest)[1..] == [b] + rest && ([b] + rest)[1..] == rest;
  }

  lemma {:induction false} HighSpacesAreVisible(d: seq<byte>)
    requires HighSpaces(d)
    ensures Visible(d) == d
  {
    if d != [] {
      assert d == [d[0]] + d[1..] && d[0] in d;
      forall b <- d[1..] ensures b in d {}
      HighSpacesAreVisible(d[1..]);
    }
  }

  /** No two bytes have a character. */
  predicate OneCharacter(d: seq<byte>) {
    forall i, j :: 0 <= i < j < |d| ==> d[i] == 0xAA || d[j] == 0xAA
  }

  /** t is s with a space in front of every character. */
  ghost predicate Spaced(s: seq<byte>, t: seq<byte>) {
    |t| == 2 * |s| && forall k :: 0 <= k < |s| ==> t[2 * k] == 0x20 && t[2 * k + 1] == s[k]
  }

  lemma SpacedAt(s: seq<byte>, t: seq<byte>, n: nat)
    requires Spaced(s, t) && n < |t|
    ensures n / 2 < |s| && t[n] == if n % 2 == 0 then 0x20 else s[n / 2]
  {
    var k := n / 2;
    assert n == if n % 2 == 0 then 2 * k else 2 * k + 1;
    assert t[2 * k] == 0x20 && t[2 * k + 1] == s[k];
  }

  lemma SpacedRemains(s: seq<byte>, t: seq<byte>, i: nat, j: nat)
    requires Spaced(s, t) && Remains(s, i, j) && i < j
    ensures Trim(t) == t[2 * i + 1..2 * j]
  {
    var i', j' := TrimRemains(t);
    assert t[2 * i + 1] == s[i] && t[2 * (j - 1) + 1] == s[j - 1];
    SpacedAt(s, t, i');
    SpacedAt(s, t, j' - 1);
    assert i' == 2 * i + 1 && j' == 2 * j;
  }

  lemma SpacedBlank(s: seq<byte>, t: seq<byte>)
    requires Spaced(s, t) && forall k :: 0 <= k < |s| ==> IsSpace(s[k])
    ensures Trim(s) == [] == Trim(t)
  {
    var i, j := TrimRemains(s);
    var i', j' := TrimRemains(t);
    if i' < j' {
      SpacedAt(s, t, i');
    }
  }

  /** The two are trimmed alike if there is at most one character: two would
      have a space between them. */
  lemma SpacedApart(s: seq<byte>, t: seq<byte>)
    requires Spaced(s, t)
    ensures Trim(s) == Trim(t) <==> forall a, b :: 0 <= a < b < |s| ==> IsSpace(s[a]) || IsSpace(s[b])
  {
    hide Spaced;
    var i, j := TrimRemains(s);
    if i < j {
      SpacedRemains(s, t, i, j);
      assert |t| == 2 * |s| && t[2 * i + 1] == s[i] by { SpacedOne(s, t, i); }
      assert |Trim(t)| == 2 * (j - i) - 1;
      if j == i + 1 {
        assert Trim(s) == [s[i]] == Trim(t);
      }
    } else {
      SpacedBlank(s, t);
    }
  }

  lemma SpacedOne(s: seq<byte>, t: seq<byte>, k: nat)
    requires Spaced(s, t) && k < |s|
    ensures |t| == 2 * |s| && t[2 * k + 1] == s[k]
  {
  }

  /** With a space in every high half the definition has a space in front of
      each of the code's characters. */
  lemma HighSpacesSpaced(d: seq<byte>)
    requires HighSpaces(d)
    ensures Spaced(BcdText(d), BcdPlus(d))
    ensures forall k :: 0 <= k < |d| ==> (IsSpace(BcdText(d)[k]) <==> d[k] == 0xAA)
  {
    hide BcdPlus, IsSpace;
    forall k | 0 <= k < |d|
      ensures BcdPlus(d)[2 * k] == 0x20 && BcdPlus(d)[2 * k + 1] == BcdText(d)[k]
      ensures IsSpace(BcdText(d)[k]) <==> d[k] == 0xAA
    {
      BcdPlusAt(d, k);
      assert d[k] in d;
      HighSpaceByte(d[k]);
    }
  }

  lemma HighSpaceByte(b: byte)
    requires b / 16 == 0xA
    ensures BCD[b / 16] == 0x20
    ensures IsSpace(BCD[b % 16]) <==> b == 0xAA
  {
    BcdSpace(b % 16);
  }

  /** A BCD plus field comes back (trimmed) exactly if every high half is a space
      and at most one byte holds another character. */
  lemma BcdSurvivesIff(d: seq<byte>, rest: seq<byte>, running: bool)
    requires |d| < 0x40
    ensures AreaText(Field(1, d).Encode() + rest, running) == Text(Trim(BcdPlus(d)))
      <==> HighSpaces(d) && OneCharacter(d)
  {
    hide BcdPlus, Trim, AreaText, Field.Encode, Spaced;
    FieldIsLocal(Field(1, d), rest, running);
    BcdFieldText(d, running);
    var v := Visible(d);
    if Trim(BcdText(v)) == Trim(BcdPlus(d)) {
      SolidTrim(BcdText(v));
      SolidTrim(BcdPlus(d));
      SolidBcd(d);
    }
    if HighSpaces(d) {
      HighSpacesAreVisible(d);
      HighSpacesSpaced(d);
      SpacedApart(BcdText(d), BcdPlus(d));
    }
  }

  lemma BcdFieldText(d: seq<byte>, running: bool)
    requires |d| < 0x40
    ensures TextOf(Field(1, d), running) == Text(Trim(BcdText(Visible(d))))
  {
  }

  /** The digits 1 and 2 in a byte come back as 2. */
  lemma BcdExample()
    ensures BcdPlus([0x12]) == [0x31, 0x32] && BcdText([0x12]) == [0x32]
  {
  }
}
