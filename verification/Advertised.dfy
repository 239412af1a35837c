/** Advertised metrics: every one is published with its own parsed value. */
module Advertised {
  import opened Bmc
  import opened Names
  import opened Formats
  import opened Merging
  import opened Collector
  import opened Vendors

  /** Every submetric a format advertises is parsed from a long enough response. */
  lemma MetricsAreParsed(f: Format, r: IpmiResponse, k: string)
    requires Parsable(f, r) && (f == Temp ==> |r.data| >= 72) && k in GetMetrics(f)
    ensures k in Parse(f, r)
  {
    hide TempUpTo, Dimm;
    if f == Temp {
      TempIsParsed(r, k);
    }
  }

  lemma TempIsParsed(r: IpmiResponse, k: string)
    requires Parsable(Temp, r) && |r.data| >= 72 && k in GetMetrics(Temp)
    ensures k in Parse(Temp, r)
  {
    hide Parse, GetMetrics, TempName, TempUpTo;
    TempNames();
    TempEntries(r, |r.data|);
    var i :| 0 <= i < |GetMetrics(Temp)| && GetMetrics(Temp)[i] == k;
    TempParse(r);
  }

  lemma TempParse(r: IpmiResponse)
    requires Parsable(Temp, r)
    ensures Parse(Temp, r) == TempUpTo(r, |r.data|)
  {
  }

  /** A metric that was advertised for a description is published with the value
      parsed from the response to its request. */
  lemma AdvertisedIsPublished(src: Sources, host: string, descs: seq<Desc>, responses: seq<IpmiResponse>, i: nat, k: string)
    requires |responses| <= |descs| && i < |responses| && Compatible(Readings(descs, responses), Yield)
    requires host in src.index && src.index[host] == Merge(Readings(descs, responses), Yield)
    requires Parsable(descs[i].format, responses[i]) && k in GetMetrics(descs[i].format)
    requires descs[i].format == Temp ==> |responses[i].data| >= 72
    requires var path := ExtendPath(descs[i].root, k); !Contains(path, "inventory/") && !Contains(path, "health/")
    ensures k in Parse(descs[i].format, responses[i])
    ensures src.Published(host, ParseName(MakeName(ExtendPath(descs[i].root, k))))
         == Number(Parse(descs[i].format, responses[i])[k])
  {
    hide Parse, GetMetrics, Contains, MakeName, ParseName, Needs;
    var path := ExtendPath(descs[i].root, k);
    var rs := Readings(descs, responses);
    NameRoundTrip(path);
    MetricsAreParsed(descs[i].format, responses[i], k);
    assert rs[i] in rs && path in Yield(rs[i]);
    MergeHolds(rs, Yield, path);
    var j :| LastWith(rs, Yield, path, j) && Merge(rs, Yield)[path] == Yield(rs[j])[path];
    assert rs[j] in rs;
    assert Agree(Yield(rs[i]), Yield(rs[j]));
  }

  /** From position i on, "nv" and "ea" do not occur. */
  predicate Plain(s: string, i: nat)
    decreases |s| - i
  {
    i + 1 >= |s|
    || (!(s[i] == 'n' && s[i + 1] == 'v') && !(s[i] == 'e' && s[i + 1] == 'a') && Plain(s, i + 1))
  }

  lemma {:induction false} PlainPairs(s: string, i: nat)
    ensures Plain(s, i) <==>
      forall j :: i <= j < |s| - 1 ==> !(s[j] == 'n' && s[j + 1] == 'v') && !(s[j] == 'e' && s[j + 1] == 'a')
    decreases |s| - i
  {
    if i + 1 < |s| {
      PlainPairs(s, i + 1);
    }
  }

  /** A path without these pairs is neither an inventory nor a health metric. */
  lemma PlainIsNeither(p: string)
    requires Plain(p, 0)
    ensures !Contains(p, "inventory/") && !Contains(p, "health/")
  {
    PlainPairs(p, 0);
    if Contains(p, "inventory/") {
      ContainsAdjacent(p, "inventory/", 1);
    }
    if Contains(p, "health/") {
      ContainsAdjacent(p, "health/", 1);
    }
  }

  lemma PlainConcat(a: string, b: string)
    requires Plain(a, 0) && Plain(b, 0) && (a != [] ==> a[|a| - 1] == '/')
    ensures Plain(a + b, 0)
  {
    PlainPairs(a, 0);
    PlainPairs(b, 0);
    PlainPairs(a + b, 0);
  }

  lemma PlainSlash(a: string)
    requires Plain(a, 0)
    ensures Plain(a + "/", 0)
  {
    PlainPairs(a, 0);
    PlainPairs(a + "/", 0);
  }

  lemma {:induction false} PlainDecimal(n: nat)
    ensures Plain(Decimal(n), 0) && forall c <- Decimal(n) :: c in DIGITS
  {
    if n >= 10 {
      PlainDecimal(n / 10);
      var s := Decimal(n);
      forall j | 0 <= j < |s| ensures s[j] in DIGITS {
        if j < |s| - 1 {
          assert s[j] == Decimal(n / 10)[j];
        }
      }
    }
    PlainPairs(Decimal(n), 0);
  }

  lemma PlainMetric(f: Format, k: string)
    requires k in GetMetrics(f)
    ensures Plain(k, 0)
  {
    if f == Temp {
      PlainTemp(k);
    }
  }

  lemma PlainTemp(k: string)
    requires k in GetMetrics(Temp)
    ensures Plain(k, 0)
  {
    hide Plain;
    var i :| 0 <= i < |GetMetrics(Temp)| && GetMetrics(Temp)[i] == k;
    PlainPrefixes();
    if i >= 4 {
      assert k == Dimm(i - 4);
      PlainDecimal(i - 4);
      PlainConcat("memory/dimm/", Decimal(i - 4));
    }
  }

  lemma PlainPrefixes()
    ensures Plain("memory/dimm/", 0)
    ensures Plain("cpu/0", 0) && Plain("cpu/1", 0) && Plain("cpu/2", 0) && Plain("cpu/3", 0)
  {
  }

  lemma PlainRoot(i: nat)
    requires i < |GENERIC|
    ensures Plain(GENERIC[i].root, 0)
  {
    hide Plain;
    PlainPower();
    PlainThermal();
    PlainOthers();
  }

  lemma PlainPower()
    ensures Plain("power/system", 0) && Plain("power/cpu", 0) && Plain("power/memory", 0) && Plain("power/policy", 0)
  {
  }

  lemma PlainThermal()
    ensures Plain("thermal/inlet", 0) && Plain("thermal/outlet", 0) && Plain("thermal", 0) && Plain("thermal/chipset", 0)
  {
  }

  lemma PlainOthers()
    ensures Plain("cups", 0) && Plain("airflow", 0) && Plain("margin/cpu/tj", 0)
  {
  }

  lemma PlainPath(root: string, k: string)
    requires Plain(root, 0) && Plain(k, 0)
    ensures Plain(ExtendPath(root, k), 0)
  {
    PlainSlash(root);
    PlainConcat(root + "/", k);
  }

  /** Of the shipped table every advertised metric of every request found on a
      host is published with the value parsed from the response to that request,
      whatever the host answers, as long as the responses are long enough. */
  lemma GenericIsPublished(src: Sources, host: string, found: seq<Desc>, resp: Desc -> IpmiResponse,
                           responses: seq<IpmiResponse>, i: nat, k: string)
    requires forall d <- found :: d in GENERIC
    requires |responses| == |found| && forall j :: 0 <= j < |found| ==> responses[j] == resp(found[j])
    requires host in src.index && src.index[host] == Merge(Readings(found, responses), Yield)
    requires i < |found| && Parsable(found[i].format, responses[i]) && k in GetMetrics(found[i].format)
    requires found[i].format == Temp ==> |responses[i].data| >= 72
    ensures k in Parse(found[i].format, responses[i])
    ensures src.Published(host, ParseName(MakeName(ExtendPath(found[i].root, k))))
         == Number(Parse(found[i].format, responses[i])[k])
  {
    hide Parse, GetMetrics, Contains, MakeName, ParseName, Needs, Plain, ExtendPath, Merge, Yield, Sources.Published;
    GenericAgrees(found, resp, responses);
    assert found[i] in found;
    var n :| 0 <= n < |GENERIC| && GENERIC[n] == found[i];
    PlainRoot(n);
    PlainMetric(found[i].format, k);
    PlainPath(found[i].root, k);
    PlainIsNeither(ExtendPath(found[i].root, k));
    AdvertisedIsPublished(src, host, found, responses, i, k);
  }

  lemma GenericAgrees(found: seq<Desc>, resp: Desc -> IpmiResponse, responses: seq<IpmiResponse>)
    requires forall d <- found :: d in GENERIC
    requires |responses| == |found| && forall j :: 0 <= j < |found| ==> responses[j] == resp(found[j])
    ensures Compatible(Readings(found, responses), Yield)
  {
    hide Yield;
    var rs := Readings(found, responses);
    forall x <- rs, y <- rs ensures Agree(Yield(x), Yield(y)) {
      var a :| 0 <= a < |rs| && rs[a] == x;
      var b :| 0 <= b < |rs| && rs[b] == y;
      assert x.desc == found[a] && y.desc == found[b] && found[a] in GENERIC && found[b] in GENERIC;
      var i :| 0 <= i < |GENERIC| && GENERIC[i] == x.desc;
      var j :| 0 <= j < |GENERIC| && GENERIC[j] == y.desc;
      forall path <- Yield(x) ensures path in Yield(y) ==> Yield(x)[path] == Yield(y)[path] {
        if path in Yield(y) {
          EntriesAgree(i, j, x.response, y.response, path);
        }
      }
    }
  }
}
