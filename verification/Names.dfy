/** Metric names: paths, namespaces and the numbers printed in them. */
module Names {
  // strings.Split and strings.Join on "/"

  function Split(s: string): (parts: seq<string>)
    ensures parts != []
  {
    if s == "" then [""]
    else
      var rest := Split(s[1..]);
      if s[0] == '/' then [""] + rest else [[s[0]] + rest[0]] + rest[1..]
  }

  function Join(parts: seq<string>): string {
    if parts == [] then ""
    else if |parts| == 1 then parts[0]
    else parts[0] + "/" + Join(parts[1..])
  }

  const NAMESPACE_PREFIX: seq<string> := ["intel", "dcm"]

  function MakeName(metric: string): seq<string> { NAMESPACE_PREFIX + Split(metric) }

  function ParseName(ns: seq<string>): string
    requires |ns| >= 2
  {
    Join(ns[2..])
  }

  lemma PrependJoin(p: string, parts: seq<string>)
    requires parts != []
    ensures Join([p + parts[0]] + parts[1..]) == p + Join(parts)
  {
  }

  lemma {:induction false} JoinSplit(s: string)
    ensures Join(Split(s)) == s
  {
    if s != "" {
      var rest := Split(s[1..]);
      JoinSplit(s[1..]);
      assert s == [s[0]] + s[1..];
      if s[0] == '/' {
        assert ([""] + rest)[1..] == rest;
      } else {
        PrependJoin([s[0]], rest);
      }
    }
  }

  lemma {:induction false} SplitPart(p: string)
    requires '/' !in p
    ensures Split(p) == [p]
  {
    if p != "" {
      SplitPart(p[1..]);
      assert p == [p[0]] + p[1..];
    }
  }

  lemma {:induction false} SplitAtSlash(p: string, s: string)
    requires '/' !in p
    ensures Split(p + "/" + s) == [p] + Split(s)
  {
    var t := p + "/" + s;
    if p == "" {
      assert t[1..] == s;
    } else {
      SplitAtSlash(p[1..], s);
      assert t[1..] == p[1..] + "/" + s;
      assert p == [p[0]] + p[1..];
    }
  }

  lemma {:induction false} SplitJoin(parts: seq<string>)
    requires parts != [] && forall p <- parts :: '/' !in p
    ensures Split(Join(parts)) == parts
  {
    if |parts| == 1 {
      SplitPart(parts[0]);
    } else {
      SplitJoin(parts[1..]);
      SplitAtSlash(parts[0], Join(parts[1..]));
    }
  }

  /** Names round-trip, for every metric and for every namespace that has the
      prefix and parts without a slash. */
  lemma NameRoundTrip(metric: string)
    ensures |MakeName(metric)| > 2 && MakeName(metric)[..2] == ["intel", "dcm"]
    ensures ParseName(MakeName(metric)) == metric
  {
    assert MakeName(metric)[2..] == Split(metric);
    JoinSplit(metric);
  }

  lemma NamespaceRoundTrip(ns: seq<string>)
    requires |ns| > 2 && ns[..2] == ["intel", "dcm"] && forall p <- ns[2..] :: '/' !in p
    ensures MakeName(ParseName(ns)) == ns
  {
    SplitJoin(ns[2..]);
    assert ns == ns[..2] + ns[2..];
  }

  // Paths.

  function ExtendPath(path: string, ext: string): string {
    if ext == "" then path else path + "/" + ext
  }

  /** Extending a path puts the parts of the extension behind its own; the empty
      extension has none. */
  lemma ExtendPathParts(path: string, ext: string)
    ensures Split(ExtendPath(path, ext)) == Split(path) + if ext == "" then [] else Split(ext)
  {
    if ext != "" {
      SplitConcat(path, ext);
    }
  }

  /** Split with one more character in front. */
  function Front(c: char, parts: seq<string>): seq<string>
    requires parts != []
  {
    if c == '/' then [""] + parts else [[c] + parts[0]] + parts[1..]
  }

  lemma SplitFront(s: string)
    requires s != ""
    ensures Split(s) == Front(s[0], Split(s[1..]))
  {
  }

  lemma FrontConcat(c: char, a: seq<string>, b: seq<string>)
    requires a != []
    ensures Front(c, a + b) == Front(c, a) + b
  {
    assert (a + b)[1..] == a[1..] + b;
  }

  lemma {:induction false} SplitConcat(p: string, s: string)
    ensures Split(p + "/" + s) == Split(p) + Split(s)
    decreases |p|
  {
    var t := p + "/" + s;
    if p == "" {
      assert t[1..] == s;
    } else {
      hide Split, Front;
      SplitConcat(p[1..], s);
      assert t[1..] == p[1..] + "/" + s;
      SplitFront(t);
      SplitFront(p);
      FrontConcat(p[0], Split(p[1..]), Split(s));
    }
  }

  lemma ExtendPathInjective(path: string, a: string, b: string)
    requires ExtendPath(path, a) == ExtendPath(path, b)
    ensures a == b
  {
    var p, q := ExtendPath(path, a), ExtendPath(path, b);
    if a != "" && b != "" {
      assert p[|path| + 1..] == a && q[|path| + 1..] == b;
    } else {
      assert |p| == |q|;
    }
  }

  /** `strings.Contains` */
  predicate Contains(s: string, part: string) {
    part <= s || (s != "" && Contains(s[1..], part))
  }

  /** A string contains a part exactly if the part stands somewhere in it. */
  lemma {:induction false} ContainsIff(s: string, part: string)
    ensures Contains(s, part) <==> exists front: string, back: string :: s == front + part + back
  {
    if part <= s {
      assert s == "" + part + s[|part|..];
    } else {
      if s != "" && Contains(s[1..], part) {
        ContainsIff(s[1..], part);
        var front: string, back: string :| s[1..] == front + part + back;
        assert s == ([s[0]] + front) + part + back;
      }
      forall front: string, back: string | s == front + part + back ensures Contains(s, part) {
        assert front != "" by {
          assert "" + part + back == part + back;
        }
        assert s[1..] == front[1..] + part + back;
        ContainsIff(s[1..], part);
      }
    }
  }

  /** b comes right after a. */
  predicate Adjacent(s: string, a: char, b: char) { exists i :: 0 <= i < |s| - 1 && s[i] == a && s[i + 1] == b }

  lemma {:induction false} ContainsAdjacent(s: string, part: string, i: nat)
    requires Contains(s, part) && i + 1 < |part|
    ensures Adjacent(s, part[i], part[i + 1])
  {
    if part <= s {
      assert s[i] == part[i] && s[i + 1] == part[i + 1];
    } else {
      ContainsAdjacent(s[1..], part, i);
      var j :| 0 <= j < |s[1..]| - 1 && s[1..][j] == part[i] && s[1..][j + 1] == part[i + 1];
      assert s[j + 1] == part[i] && s[j + 2] == part[i + 1];
    }
  }

  // Numbers, as `%d` prints them.

  const DIGITS: string := "0123456789"

  function Decimal(n: nat): (s: string)
    ensures s != ""
  {
    if n < 10 then [DIGITS[n]] else Decimal(n / 10) + [DIGITS[n % 10]]
  }

  /** The number that digits stand for. */
  function Value(s: string): int {
    if s == "" then 0 else 10 * Value(s[..|s| - 1]) + (s[|s| - 1] as int - '0' as int)
  }

  /** What is printed are digits, without a zero in front, that stand for the number. */
  lemma {:induction false} DecimalIsNumber(n: nat)
    ensures Value(Decimal(n)) == n && forall c <- Decimal(n) :: '0' <= c <= '9'
    ensures n > 0 ==> Decimal(n)[0] != '0'
  {
    var s := Decimal(n);
    assert s[|s| - 1] as int == '0' as int + n % 10;
    if n >= 10 {
      DecimalIsNumber(n / 10);
      assert s[..|s| - 1] == Decimal(n / 10);
      assert forall c <- s :: c in Decimal(n / 10) || c == s[|s| - 1];
    }
  }

  lemma {:induction false} DecimalInjective(a: nat, b: nat)
    requires Decimal(a) == Decimal(b)
    ensures a == b
  {
    var s := Decimal(a);
    assert s[|s| - 1] == DIGITS[a % 10] == DIGITS[b % 10];
    DigitInjective(a % 10, b % 10);
    if a >= 10 && b >= 10 {
      assert s[..|s| - 1] == Decimal(a / 10) == Decimal(b / 10);
      DecimalInjective(a / 10, b / 10);
    }
  }

  lemma DigitInjective(a: nat, b: nat)
    requires a < 10 && b < 10 && DIGITS[a] == DIGITS[b]
    ensures a == b
  {
  }
}
