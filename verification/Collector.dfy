/** The collector: from responses to published metrics. */
module Collector {
  import opened Common
  import opened Bmc
  import opened Names
  import opened Formats
  import opened Merging

  /** `RequestDescription` */
  datatype Desc = Desc(request: seq<byte>, root: string, format: Format)

  /** A request description with the response to it. */
  datatype Reading = Reading(desc: Desc, response: IpmiResponse)

  /** Submetrics under a root. */
  function Under(root: string, m: map<string, uint16>): (paths: map<string, uint16>)
    ensures forall k <- m :: ExtendPath(root, k) in paths && paths[ExtendPath(root, k)] == m[k]
    ensures forall p <- paths :: exists k <- m :: p == ExtendPath(root, k)
  {
    assert forall a <- m, b <- m :: ExtendPath(root, a) == ExtendPath(root, b) ==> a == b by {
      forall a <- m, b <- m | ExtendPath(root, a) == ExtendPath(root, b) ensures a == b {
        ExtendPathInjective(root, a, b);
      }
    }
    map k | k in m :: ExtendPath(root, k) := m[k]
  }

  /** The paths a reading yields. */
  function Yield(r: Reading): map<string, uint16> {
    if Parsable(r.desc.format, r.response) then Under(r.desc.root, Parse(r.desc.format, r.response)) else map[]
  }

  function Readings(descs: seq<Desc>, responses: seq<IpmiResponse>): (rs: seq<Reading>)
    requires |responses| <= |descs|
    ensures |rs| == |responses|
  {
    seq(|responses|, i requires 0 <= i < |responses| => Reading(descs[i], responses[i]))
  }

  /** Go leaves the order in which a map is ranged over open; the result does
      not depend on it. */
  method AddSubmetrics(cached: map<string, uint16>, root: string, submetrics: map<string, uint16>)
    returns (m: map<string, uint16>)
    ensures m == cached + Under(root, submetrics)
  {
    hide ExtendPath;
    m := cached;
    var keys := submetrics.Keys;
    while keys != {}
      invariant keys <= submetrics.Keys
      invariant forall p :: p in m <==> p in cached || exists k <- submetrics :: k !in keys && p == ExtendPath(root, k)
      invariant forall p <- cached :: (forall k <- submetrics | k !in keys :: p != ExtendPath(root, k)) ==> m[p] == cached[p]
      invariant forall k <- submetrics | k !in keys :: m[ExtendPath(root, k)] == submetrics[k]
    {
      var k :| k in keys;
      forall j <- submetrics | j != k ensures ExtendPath(root, j) != ExtendPath(root, k) {
        if ExtendPath(root, j) == ExtendPath(root, k) {
          ExtendPathInjective(root, j, k);
        }
      }
      m := m[ExtendPath(root, k) := submetrics[k]];
      keys := keys - {k};
    }
  }

  /** A response that is let through and long enough to be parsed. */
  predicate IsGood(d: Desc, r: IpmiResponse) { Passes(r) && Parsable(d.format, r) }

  ghost predicate AllGood(descs: seq<Desc>, responses: seq<IpmiResponse>)
    requires |responses| <= |descs|
  {
    forall i :: 0 <= i < |responses| ==> IsGood(descs[i], responses[i])
  }

  /** Response i is the first that is not good: it is refused, or let through
      and then too short, which makes the parser panic. */
  ghost predicate StopsAt(descs: seq<Desc>, responses: seq<IpmiResponse>, i: int, error: Error) {
    && 0 <= i < |responses| <= |descs| && AllGood(descs, responses[..i]) && !IsGood(descs[i], responses[i])
    && error == if Passes(responses[i]) then ShortReply else BadResponse
  }

  /** It is an error exactly if that response claims to be valid and is empty or
      has a completion code that is not 0, and else a panic. */
  lemma StopIs(descs: seq<Desc>, responses: seq<IpmiResponse>, i: int, error: Error)
    requires StopsAt(descs, responses, i, error)
    ensures var r := responses[i];
      && (error == BadResponse <==> r.isValid == 1 && (r.data == [] || r.data[0] != 0))
      && (error == ShortReply <==> r.isValid != 1 || (r.data != [] && r.data[0] == 0))
  {
  }

  /** The index of one host: every response validated, parsed and added in turn. */
  method IndexHost(descs: seq<Desc>, responses: seq<IpmiResponse>) returns (r: Result<map<string, uint16>>)
    requires |responses| <= |descs|
    ensures r.Ok? <==> AllGood(descs, responses)
    ensures r.Err? ==> exists i :: StopsAt(descs, responses, i, r.error)
    ensures r.Ok? ==> r.value == Merge(Readings(descs, responses), Yield)
  {
    var cached: map<string, uint16> := map[];
    for i := 0 to |responses|
      invariant AllGood(descs, responses[..i])
      invariant cached == Merge(Readings(descs, responses)[..i], Yield)
    {
      if !Passes(responses[i]) {
        assert StopsAt(descs, responses, i, BadResponse);
        return Err(BadResponse);
      }
      var format := descs[i].format;
      if !Parsable(format, responses[i]) {
        assert StopsAt(descs, responses, i, ShortReply);
        return Err(ShortReply);
      }
      cached := AddSubmetrics(cached, descs[i].root, Parse(format, responses[i]));
      assert Readings(descs, responses)[..i + 1][..i] == Readings(descs, responses)[..i];
    }
    assert Readings(descs, responses)[..|responses|] == Readings(descs, responses) && responses[..|responses|] == responses;
    return Ok(cached);
  }

  // What the index holds, told without building it.

  /** Submetric k of this response is found at the path. */
  predicate IsAt(d: Desc, r: IpmiResponse, k: string, path: string) {
    Parsable(d.format, r) && k in Parse(d.format, r) && ExtendPath(d.root, k) == path
  }

  /** Request j is the last one of the host to yield the path, as submetric k. */
  ghost predicate LastToYield(descs: seq<Desc>, responses: seq<IpmiResponse>, path: string, j: int, k: string) {
    && 0 <= j < |responses| <= |descs| && IsAt(descs[j], responses[j], k, path)
    && forall i, l :: j < i < |responses| ==> !IsAt(descs[i], responses[i], l, path)
  }

  /** v is parsed from the last request that yields the path; 0 if none does. */
  ghost predicate IsParsedValue(v: uint16, descs: seq<Desc>, responses: seq<IpmiResponse>, path: string)
    requires |responses| <= |descs|
  {
    || (v == 0 && forall i, l :: 0 <= i < |responses| ==> !IsAt(descs[i], responses[i], l, path))
    || exists j, k :: LastToYield(descs, responses, path, j, k) && v == Parse(descs[j].format, responses[j])[k]
  }

  lemma IndexHolds(descs: seq<Desc>, responses: seq<IpmiResponse>, path: string)
    requires |responses| <= |descs|
    ensures var m := Merge(Readings(descs, responses), Yield);
      IsParsedValue(if path in m then m[path] else 0, descs, responses, path)
  {
    hide Parse, ExtendPath, Parsable, Merge;
    var rs, m := Readings(descs, responses), Merge(Readings(descs, responses), Yield);
    MergeHolds(rs, Yield, path);
    forall i, l | 0 <= i < |responses| && IsAt(descs[i], responses[i], l, path)
      ensures rs[i] in rs && path in Yield(rs[i])
    {
    }
    if path in m {
      var j :| LastWith(rs, Yield, path, j) && m[path] == Yield(rs[j])[path];
      var k := YieldIsAt(descs[j], responses[j], path);
      assert LastToYield(descs, responses, path, j, k);
    }
  }

  lemma YieldIsAt(d: Desc, r: IpmiResponse, path: string) returns (k: string)
    requires path in Yield(Reading(d, r))
    ensures IsAt(d, r, k, path) && Yield(Reading(d, r))[path] == Parse(d.format, r)[k]
  {
    hide Parse, ExtendPath, Parsable;
    k :| k in Parse(d.format, r) && path == ExtendPath(d.root, k);
  }

  // Publishing.

  datatype Value = Number(n: uint16) | Text(s: string)

  datatype Metric = Metric(ns: seq<string>, source: string, data: Value)

  type Tables = map<string, map<string, string>>

  type Index = map<string, map<string, uint16>>

  /** A lookup in a map of maps; what is missing reads as the zero value. */
  function TextAt(t: Tables, host: string, key: string): string {
    if host in t && key in t[host] then t[host][key] else ""
  }

  function NumberAt(t: Index, host: string, key: string): uint16 {
    if host in t && key in t[host] then t[host][key] else 0
  }

  /** Where published values come from: inventory and health metrics by name,
      all others from the responses. */
  datatype Sources = Sources(index: Index, inventory: Tables, health: Tables) {

    function Published(host: string, key: string): Value {
      if Contains(key, "inventory/") then Text(TextAt(inventory, host, key))
      else if Contains(key, "health/") then Text(TextAt(health, host, key))
      else Number(NumberAt(index, host, key))
    }

    function Row(mts: seq<seq<string>>, host: string): (row: seq<Metric>)
      requires forall mt <- mts :: |mt| >= 2
      ensures |row| == |mts|
    {
      seq(|mts|, i requires 0 <= i < |mts| => Metric(mts[i], host, Published(host, ParseName(mts[i]))))
    }

    /** The metrics of the first host, then those of the next one, ... */
    function HostMajor(mts: seq<seq<string>>, hosts: seq<string>): seq<Metric>
      requires forall mt <- mts :: |mt| >= 2
    {
      if hosts == [] then []
      else HostMajor(mts, hosts[..|hosts| - 1]) + Row(mts, hosts[|hosts| - 1])
    }

    lemma OneMoreMetric(mts: seq<seq<string>>, host: string, i: nat)
      requires i < |mts| && forall mt <- mts :: |mt| >= 2
      ensures Row(mts, host)[..i + 1]
           == Row(mts, host)[..i] + [Metric(mts[i], host, Published(host, ParseName(mts[i])))]
      ensures Row(mts, host)[..|mts|] == Row(mts, host)
    {
    }

    lemma NoHost(mts: seq<seq<string>>, hosts: seq<string>)
      requires forall mt <- mts :: |mt| >= 2
      ensures HostMajor(mts, hosts[..0]) == []
    {
    }

    lemma OneMoreHost(mts: seq<seq<string>>, hosts: seq<string>, h: nat)
      requires h < |hosts| && forall mt <- mts :: |mt| >= 2
      ensures HostMajor(mts, hosts[..h + 1]) == HostMajor(mts, hosts[..h]) + Row(mts, hosts[h])
      ensures hosts[..|hosts|] == hosts
    {
      assert hosts[..h + 1][..h] == hosts[..h];
    }

    /** Where metric i of host h is put. */
    static function Position(mts: seq<seq<string>>, h: nat, i: nat): nat { h * |mts| + i }

    lemma {:induction false} HostMajorAt(mts: seq<seq<string>>, hosts: seq<string>, h: nat, i: nat)
      requires h < |hosts| && i < |mts| && forall mt <- mts :: |mt| >= 2
      ensures |HostMajor(mts, hosts)| == |hosts| * |mts| && Position(mts, h, i) < |hosts| * |mts|
      ensures HostMajor(mts, hosts)[Position(mts, h, i)] == Metric(mts[i], hosts[h], Published(hosts[h], ParseName(mts[i])))
    {
      HostMajorSize(mts, hosts);
      HostMajorSize(mts, hosts[..|hosts| - 1]);
      var n := |hosts| - 1;
      assert |hosts| * |mts| == n * |mts| + |mts|;
      if h < n {
        HostMajorAt(mts, hosts[..n], h, i);
      }
    }

    lemma {:induction false} HostMajorSize(mts: seq<seq<string>>, hosts: seq<string>)
      requires forall mt <- mts :: |mt| >= 2
      ensures |HostMajor(mts, hosts)| == |hosts| * |mts|
    {
      if hosts != [] {
        HostMajorSize(mts, hosts[..|hosts| - 1]);
        assert |hosts| * |mts| == (|hosts| - 1) * |mts| + |mts|;
      }
    }
  }

  class IpmiCollector {
    var hosts: seq<string>
    var vendor: map<string, seq<Desc>>
    var inventory: Tables
    var componentHealth: Tables

    function Descs(host: string): seq<Desc>
      reads this`vendor
    {
      if host in vendor then vendor[host] else []
    }

    /** What the batch of every host came back with: one response per request,
        or nothing if it failed. */
    ghost predicate Answers(response: map<string, seq<IpmiResponse>>)
      reads this`hosts, this`vendor
    {
      && (forall h :: h in response <==> h in hosts)
      && forall h <- response :: |response[h]| <= |Descs(h)|
    }

    ghost predicate EveryGood(response: map<string, seq<IpmiResponse>>)
      requires Answers(response)
      reads this`hosts, this`vendor
    {
      forall h <- response :: AllGood(Descs(h), response[h])
    }

    /** Some host's responses stop the collection with this error. */
    ghost predicate SomeStops(response: map<string, seq<IpmiResponse>>, error: Error)
      reads this`vendor
    {
      exists h <- response :: exists i :: StopsAt(Descs(h), response[h], i, error)
    }

    /** Direct parsing: each host's paths, from its own responses; where several
        yield a path, from the last of them (see MergeHolds). */
    function IndexOf(response: map<string, seq<IpmiResponse>>): Index
      requires forall h <- response :: |response[h]| <= |Descs(h)|
      reads this`vendor
    {
      map h | h in response :: Merge(Readings(Descs(h), response[h]), Yield)
    }

    /** Entry h * m + i of a collection of m metrics is metric i of host h. Its
        value, if it is neither inventory nor health, is parsed from the last of
        the host's own responses that yields its path, or 0. */
    lemma EntryIsParsed(response: map<string, seq<IpmiResponse>>, health: Tables, mts: seq<seq<string>>, h: nat, i: nat)
      requires Answers(response) && h < |hosts| && i < |mts| && forall mt <- mts :: |mt| >= 2
      requires !Contains(ParseName(mts[i]), "inventory/") && !Contains(ParseName(mts[i]), "health/")
      ensures var out := Sources(IndexOf(response), inventory, health).HostMajor(mts, hosts);
        && |out| == |hosts| * |mts| && Sources.Position(mts, h, i) < |out|
        && var entry := out[Sources.Position(mts, h, i)];
           && entry.ns == mts[i] && entry.source == hosts[h] && entry.data.Number?
           && IsParsedValue(entry.data.n, Descs(hosts[h]), response[hosts[h]], ParseName(mts[i]))
    {
      hide Merge, IsParsedValue, Contains, ParseName, Sources.Position;
      Sources(IndexOf(response), inventory, health).HostMajorAt(mts, hosts, h, i);
      IndexHolds(Descs(hosts[h]), response[hosts[h]], ParseName(mts[i]));
    }

    /** `for nmResponseIdx, hostResponses := range response`, in any order. */
    method IndexResponses(response: map<string, seq<IpmiResponse>>) returns (r: Result<Index>)
      requires Answers(response)
      ensures r.Ok? <==> EveryGood(response)
      ensures r.Err? ==> SomeStops(response, r.error)
      ensures r.Ok? ==> r.value == IndexOf(response)
    {
      hide Merge, Readings, AllGood, StopsAt;
      var cache: Index := map[];
      var left := response.Keys;
      while left != {}
        invariant left <= response.Keys && cache.Keys == response.Keys - left
        invariant forall h <- cache :: cache[h] == Merge(Readings(Descs(h), response[h]), Yield)
        invariant forall h <- cache :: AllGood(Descs(h), response[h])
      {
        var h :| h in left;
        var cached := IndexHost(Descs(h), response[h]);
        if cached.Err? {
          return Err(cached.error);
        }
        cache := cache[h := cached.value];
        left := left - {h};
      }
      return Ok(cache);
    }

    /** Collects the metrics mts of every host. `health` is what
        `GetComponentHealth` gives for the hosts. It fails exactly when some
        response is not good, whatever host is looked at first; if some hosts
        have responses that are refused and others have some that are too short,
        which of the two it fails with depends on the order. */
    method CollectMetrics(mts: seq<seq<string>>, response: map<string, seq<IpmiResponse>>, health: Tables)
      returns (r: Result<seq<Metric>>)
      requires Answers(response) && forall mt <- mts :: |mt| >= 2
      modifies this`componentHealth
      ensures r.Ok? <==> EveryGood(response)
      ensures r.Err? ==> SomeStops(response, r.error)
      ensures r.Ok? ==> r.value == Sources(IndexOf(response), inventory, health).HostMajor(mts, hosts)
      ensures componentHealth == old(componentHealth) || componentHealth == health
    {
      hide Sources.HostMajor, Sources.Row, Merge, AllGood, StopsAt;
      var cache := IndexResponses(response);
      if cache.Err? {
        return Err(cache.error);
      }
      ghost var src := Sources(IndexOf(response), inventory, health);
      src.NoHost(mts, hosts);
      var out: seq<Metric> := [];
      for h := 0 to |hosts|
        invariant out == src.HostMajor(mts, hosts[..h])
        invariant componentHealth == old(componentHealth) || componentHealth == health
      {
        src.OneMoreHost(mts, hosts, h);
        var row := CollectRow(mts, cache.value, health, hosts[h], src);
        out := out + row;
      }
      assert hosts[..|hosts|] == hosts;
      return Ok(out);
    }

    /** The metrics of one host. */
    method CollectRow(mts: seq<seq<string>>, index: Index, health: Tables, host: string, ghost src: Sources)
      returns (row: seq<Metric>)
      requires src == Sources(index, inventory, health) && forall mt <- mts :: |mt| >= 2
      modifies this`componentHealth
      ensures row == src.Row(mts, host)
      ensures componentHealth == old(componentHealth) || componentHealth == health
    {
      hide Contains, ParseName, Sources.Row, TextAt, NumberAt;
      row := [];
      for i := 0 to |mts|
        invariant row == src.Row(mts, host)[..i]
        invariant componentHealth == old(componentHealth) || componentHealth == health
      {
        src.OneMoreMetric(mts, host, i);
        var key := ParseName(mts[i]);
        var data: Value;
        if Contains(key, "inventory/") {
          data := Text(TextAt(inventory, host, key));
        } else if Contains(key, "health/") {
          componentHealth := health;
          data := Text(TextAt(componentHealth, host, key));
        } else {
          data := Number(NumberAt(index, host, key));
        }
        row := row + [Metric(mts[i], host, data)];
      }
      assert src.Row(mts, host)[..|mts|] == src.Row(mts, host);
    }
  }
}
