/** The arithmetic of the partial reads in `GetSdrBytes`.

    The loop compares `bytesRead` with a `bytesLeftToRead` that its own body
    shrinks, so it may stop before the record is complete. Here is how far it
    gets, for a record of `total` bytes read at most `m` at a time. */
module SdrPlan {
  import opened Common

  /** How many partial reads the loop makes. */
  function Reads(total: nat, m: nat): nat
    requires m >= 1
  {
    if total == 0 then 0 else (total + 3 * m - 1) / (2 * m)
  }

  /** How many bytes of the record those reads bring in. */
  function Reach(total: nat, m: nat): nat
    requires m >= 1
  {
    Min(total, Reads(total, m) * m)
  }

  /** The reads made: k pieces one after another, each of m bytes except a
      last piece that ends with the record. */
  function Offset(m: nat, i: nat): nat { i * m }

  function Count(total: nat, m: nat, i: nat): nat {
    if i * m >= total then 0 else Min(m, total - i * m)
  }

  /** The loop makes k reads for the least k >= 1 with (2k-1)m >= total. */
  lemma ReadsIsLeast(total: nat, m: nat, k: nat)
    requires m >= 1 && total >= 1
    ensures k >= Reads(total, m) <==> (2 * k - 1) * m >= total
    ensures Reads(total, m) >= 1
  {
    var d := 2 * m;
    var r := Reads(total, m);
    var rest := (total + 3 * m - 1) % d;
    assert d * r + rest == total + 3 * m - 1;
    assert (2 * k - 1) * m == k * d - m;
    if k >= r {
      assert k * d >= r * d by { Monotone(d, r, k); }
    } else {
      assert (r - 1) * d >= k * d by { Monotone(d, k, r - 1); }
      assert (r - 1) * d == d * r - d;
    }
  }

  lemma Monotone(d: nat, a: int, b: int)
    requires a <= b
    ensures a * d <= b * d
  {
  }

  /** The loop's variables after i reads: bytesLeft is what was left before
      the last of them. */
  ghost predicate AtPiece(total: nat, m: nat, i: nat, bytesRead: nat, bytesLeft: nat)
    requires m >= 1
  {
    && i <= Reads(total, m) && bytesRead == Min(total, i * m)
    && if i == 0 then bytesLeft == total
       else (i - 1) * m < total && bytesLeft == total - (i - 1) * m
  }

  /** A turn of the loop: as long as the guard holds another piece is due, it
      is the i-th one, and its request fits if the read or the record is short. */
  lemma NextPiece(total: nat, m: nat, i: nat, bytesRead: nat, bytesLeft: nat)
    requires m >= 1 && 1 <= total <= 260
    requires AtPiece(total, m, i, bytesRead, bytesLeft) && bytesRead < bytesLeft
    ensures var current := if total - bytesRead > m then m else total - bytesRead;
      && i < Reads(total, m) && bytesRead == Offset(m, i) && current == Count(total, m, i)
      && current >= 1 && bytesRead + current <= total
      && AtPiece(total, m, i + 1, bytesRead + current, total - bytesRead)
      && (m < 0x100 || total < 0x100 ==> bytesRead < 0x100 && current < 0x100)
  {
    ReadsIsLeast(total, m, 1);
    if i > 0 {
      GuardMeansMoreReads(total, m, i);
    }
    assert (i + 1) * m == i * m + m;
    assert i * m >= 0 by { Monotone(m, 0, i); }
    if m < 0x100 || total < 0x100 {
      RequestFits(total, m, i);
    }
  }

  /** When the guard fails, all pieces have been read. */
  lemma LastPiece(total: nat, m: nat, i: nat, bytesRead: nat, bytesLeft: nat)
    requires m >= 1 && total >= 1
    requires AtPiece(total, m, i, bytesRead, bytesLeft) && bytesRead >= bytesLeft
    ensures i == Reads(total, m) && bytesRead == Reach(total, m)
  {
    if i > 0 {
      GuardMeansMoreReads(total, m, i);
    }
  }

  /** The guard as the loop evaluates it after k >= 1 reads. */
  lemma GuardMeansMoreReads(total: nat, m: nat, k: nat)
    requires m >= 1 && total >= 1 && k >= 1 && (k - 1) * m < total
    ensures Min(total, k * m) < total - (k - 1) * m <==> k < Reads(total, m)
    ensures Min(total, k * m) < total - (k - 1) * m ==> k * m < total
    ensures Min(total, k * m) == (k - 1) * m + Count(total, m, k - 1)
  {
    ReadsIsLeast(total, m, k);
    assert k * m == (k - 1) * m + m;
    assert (2 * k - 1) * m == k * m + (k - 1) * m;
    assert (k - 1) * m >= 0 by { Monotone(m, 0, k - 1); }
  }

  /** Every read starts inside the record. */
  lemma ReadsStartInside(total: nat, m: nat, i: nat)
    requires m >= 1 && i < Reads(total, m)
    ensures Offset(m, i) < total && Count(total, m, i) >= 1
  {
    if i > 0 {
      ReadsIsLeast(total, m, i);
      assert (2 * i - 1) * m == i * m + (i - 1) * m;
      assert (i - 1) * m >= 0 by { Monotone(m, 0, i - 1); }
    }
  }

  /** The record comes in complete exactly when two reads could hold it. */
  lemma CompleteIff(total: nat, m: nat)
    requires m >= 1 && total >= 1
    ensures Reach(total, m) == total <==> total <= 2 * m
  {
    var k := Reads(total, m);
    ReadsIsLeast(total, m, 1);
    ReadsIsLeast(total, m, 2);
    if k >= 3 {
      ReadsIsLeast(total, m, k - 1);
      assert (2 * (k - 1) - 1) * m == k * m + (k - 3) * m;
      assert (k - 3) * m >= 0 by { Monotone(m, 0, k - 3); }
    }
  }

  lemma DivBounds(x: nat, m: nat)
    requires m >= 1
    ensures x / m * m <= x < (x / m + 1) * m
  {
  }

  lemma ReachIff(total: nat, m: nat, need: nat)
    requires m >= 1 && need >= 1
    ensures Reach(total, m) >= need <==> total >= need && Reads(total, m) > (need - 1) / m
  {
    var j := (need - 1) / m;
    var k := Reads(total, m);
    DivBounds(need - 1, m);
    if k > j {
      Monotone(m, j + 1, k);
    } else {
      Monotone(m, k, j);
    }
  }

  /** Record bytes 0..need-1 come in exactly when the record has that many and
      the loop does not stop at the last multiple of m below need. */
  lemma CoversIff(total: nat, m: nat, need: nat)
    requires m >= 1 && need >= 1
    ensures Reach(total, m) >= need <==>
            total >= need && (2 * ((need - 1) / m) - 1) * m < total
  {
    ReachIff(total, m, need);
    if total >= need {
      ReadsIsLeast(total, m, (need - 1) / m);
    }
  }

  lemma SensorFieldsReached(total: nat, m: nat)
    requires m >= 1 && (total >= 26 || (total >= 14 && m >= 14))
    ensures Reach(total, m) >= 14
  {
  }

  /** The three sensor fields end at record byte 13. Read one byte at a time
      the loop still reaches them in records of 26 bytes, and in no shorter
      ones; with 14 bytes at a time it always does. */
  lemma SensorFieldsCovered(total: nat)
    ensures (forall m: nat | m >= 1 :: Reach(total, m) >= 14) <==> total >= 26
    ensures total >= 14 ==> forall m: nat | m >= 14 :: Reach(total, m) >= 14
  {
    CoversIff(total, 1, 14);
    assert total < 26 ==> Reach(total, 1) < 14;
    forall m: nat | m >= 1 && (total >= 26 || (total >= 14 && m >= 14))
      ensures Reach(total, m) >= 14
    {
      SensorFieldsReached(total, m);
    }
  }

  /** The record header and the sensor number are always reached. */
  lemma HeaderCovered(total: nat, m: nat)
    requires m >= 1 && total >= 14
    ensures Reach(total, m) >= 8
  {
  }

  lemma RequestFits(total: nat, m: nat, i: nat)
    requires m >= 1 && total <= 260 && i < Reads(total, m)
    requires m < 0x100 || total < 0x100
    ensures Offset(m, i) < 0x100 && Count(total, m, i) < 0x100
  {
    ReadsStartInside(total, m, i);
    if i >= 2 {
      ReadsIsLeast(total, m, i);
      assert (2 * i - 1) * m == 2 * (i * m) - m;
      assert 2 * m <= i * m by { Monotone(m, 2, i); }
    }
  }

  /** All offsets and counts fit the one-byte request fields exactly when the
      record or the read size is at most 255. */
  lemma RequestsFitIff(total: nat, m: nat)
    requires m >= 1 && 1 <= total <= 260
    ensures (forall i: nat | i < Reads(total, m) ::
               Offset(m, i) < 0x100 && Count(total, m, i) < 0x100)
            <==> m < 0x100 || total < 0x100
  {
    if m < 0x100 || total < 0x100 {
      forall i: nat | i < Reads(total, m)
        ensures Offset(m, i) < 0x100 && Count(total, m, i) < 0x100
      {
        RequestFits(total, m, i);
      }
    } else {
      ReadsIsLeast(total, m, 0);
      assert Count(total, m, 0) >= 0x100;
    }
  }
}
