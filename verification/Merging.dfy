/** Filling one map from several, one after another, later ones overwriting. */
module Merging {

  /** The maps of xs in order; where they share a key the last one counts. */
  function Merge<T, V>(xs: seq<T>, c: T -> map<string, V>): map<string, V> {
    if xs == [] then map[] else Merge(xs[..|xs| - 1], c) + c(xs[|xs| - 1])
  }

  /** Element i is the last with this key. */
  ghost predicate LastWith<T, V>(xs: seq<T>, c: T -> map<string, V>, key: string, i: int) {
    0 <= i < |xs| && key in c(xs[i]) && forall j :: i < j < |xs| ==> key !in c(xs[j])
  }

  /** What a merged map holds. */
  lemma {:induction false} MergeHolds<T, V>(xs: seq<T>, c: T -> map<string, V>, key: string)
    ensures key in Merge(xs, c) <==> exists x <- xs :: key in c(x)
    ensures key in Merge(xs, c) ==> exists i :: LastWith(xs, c, key, i) && Merge(xs, c)[key] == c(xs[i])[key]
  {
    if xs != [] {
      var n := |xs| - 1;
      var front := xs[..n];
      MergeHolds(front, c, key);
      assert xs == front + [xs[n]];
      if key in c(xs[n]) {
        assert LastWith(xs, c, key, n);
      } else if key in Merge(front, c) {
        var i :| LastWith(front, c, key, i) && Merge(front, c)[key] == c(front[i])[key];
        assert LastWith(xs, c, key, i);
      }
    }
  }

  /** No two of them disagree. */
  ghost predicate Compatible<T, V>(xs: seq<T>, c: T -> map<string, V>) {
    forall x <- xs, y <- xs :: Agree(c(x), c(y))
  }

  ghost predicate Agree<V>(m: map<string, V>, m': map<string, V>) {
    forall key <- m :: key in m' ==> m[key] == m'[key]
  }

  ghost predicate SameBag<T>(xs: seq<T>, ys: seq<T>) { multiset(xs) == multiset(ys) }

  lemma SameMembers<T>(xs: seq<T>, ys: seq<T>, x: T)
    requires SameBag(xs, ys)
    ensures x in xs <==> x in ys
  {
    assert x in multiset(xs) <==> x in multiset(ys);
  }

  lemma CompatibleIsOrderFree<T, V>(xs: seq<T>, ys: seq<T>, c: T -> map<string, V>)
    requires Compatible(xs, c) && SameBag(xs, ys)
    ensures Merge(ys, c) == Merge(xs, c)
  {
    forall key
      ensures key in Merge(xs, c) <==> key in Merge(ys, c)
      ensures key in Merge(xs, c) ==> Merge(xs, c)[key] == Merge(ys, c)[key]
    {
      MergeHolds(xs, c, key);
      MergeHolds(ys, c, key);
      forall x ensures x in xs <==> x in ys { SameMembers(xs, ys, x); }
      if key in Merge(xs, c) {
        var i :| LastWith(xs, c, key, i) && Merge(xs, c)[key] == c(xs[i])[key];
        var j :| LastWith(ys, c, key, j) && Merge(ys, c)[key] == c(ys[j])[key];
        assert ys[j] in ys;
        assert Agree(c(xs[i]), c(ys[j]));
      }
    }
  }

  /** The same elements with the i-th one moved to the end. */
  function LastBecomes<T>(xs: seq<T>, i: nat): seq<T>
    requires i < |xs|
  {
    xs[..i] + xs[i + 1..] + [xs[i]]
  }

  lemma MovedIsSameBag<T>(xs: seq<T>, i: nat)
    requires i < |xs|
    ensures SameBag(xs, LastBecomes(xs, i))
  {
    assert xs == xs[..i] + [xs[i]] + xs[i + 1..];
  }

  lemma LastOneCounts<T, V>(xs: seq<T>, c: T -> map<string, V>, i: nat)
    requires i < |xs|
    ensures SameBag(xs, LastBecomes(xs, i))
    ensures forall key <- c(xs[i]) ::
      key in Merge(LastBecomes(xs, i), c) && Merge(LastBecomes(xs, i), c)[key] == c(xs[i])[key]
  {
    MovedIsSameBag(xs, i);
  }

  /** The merged map is the same for every order of the elements exactly when no
      two elements disagree on a key. */
  lemma OrderFreeIff<T, V>(xs: seq<T>, c: T -> map<string, V>)
    ensures (forall ys :: SameBag(xs, ys) ==> Merge(ys, c) == Merge(xs, c)) <==> Compatible(xs, c)
  {
    if Compatible(xs, c) {
      forall ys | SameBag(xs, ys) ensures Merge(ys, c) == Merge(xs, c) {
        CompatibleIsOrderFree(xs, ys, c);
      }
    }
    if forall ys :: SameBag(xs, ys) ==> Merge(ys, c) == Merge(xs, c) {
      forall x <- xs, y <- xs ensures Agree(c(x), c(y)) {
        var i :| 0 <= i < |xs| && xs[i] == x;
        var j :| 0 <= j < |xs| && xs[j] == y;
        LastOneCounts(xs, c, i);
        LastOneCounts(xs, c, j);
        assert Merge(LastBecomes(xs, i), c) == Merge(xs, c) == Merge(LastBecomes(xs, j), c);
      }
    }
  }
}
