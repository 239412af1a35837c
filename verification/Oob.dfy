/** The out-of-band layer: one goroutine per request, all behind one lock, in
    whatever order they get it. */
module Oob {
  import opened Common
  import opened Bmc
  import opened Merging
  import opened Collector

  /** Different moments from t0 on and before t1, one for each request. */
  ghost predicate Moments(when: seq<nat>, t0: nat, t1: nat) {
    && (forall i :: 0 <= i < |when| ==> t0 <= when[i] < t1)
    && forall i, j :: 0 <= i < j < |when| ==> when[i] != when[j]
  }

  /** The same for those requests that are no longer waiting for the lock. */
  ghost predicate Ran(when: seq<nat>, waiting: set<nat>, t0: nat, t1: nat) {
    && (forall i: nat :: i < |when| && i !in waiting ==> t0 <= when[i] < t1)
    && forall i: nat, j: nat :: i < j < |when| && i !in waiting && j !in waiting ==> when[i] != when[j]
  }

  lemma NobodyRan(when: seq<nat>, t: nat)
    ensures Ran(when, Ids(|when|), t, t)
  {
  }

  lemma RanOneMore(when: seq<nat>, waiting: set<nat>, t0: nat, t: nat, i: nat)
    requires Ran(when, waiting, t0, t) && i in waiting && i < |when| && t0 <= t
    ensures Ran(when[i := t], waiting - {i}, t0, t + 1)
  {
  }

  lemma AllHaveRan(when: seq<nat>, t0: nat, t1: nat)
    requires Ran(when, {}, t0, t1)
    ensures Moments(when, t0, t1)
  {
  }

  class LinuxOutOfBand {
    /** What ipmitool gets at a time for a request to a host, bridged or not;
        empty if it fails. Time counts the calls of ipmitool. */
    const reply: (nat, seq<byte>, string, bool) -> seq<byte>
    const protocol: string
    var time: nat

    constructor (reply: (nat, seq<byte>, string, bool) -> seq<byte>, protocol: string)
      ensures this.reply == reply && this.protocol == protocol
    {
      this.reply, this.protocol, time := reply, protocol, 0;
    }

    /** `fillStruct` */
    method FillStruct(request: seq<byte>, host: string, bridged: bool) returns (r: IpmiResponse)
      modifies this`time
      ensures time == old(time) + 1
      ensures r == IpmiResponse(reply(old(time), request, host, bridged), 1)
    {
      r := IpmiResponse(reply(time, request, host, bridged), 1);
      time := time + 1;
    }

    /** Every request's own response, in the order of the requests, whatever
        order the goroutines ran in; `when` is that order. */
    method BatchExecRaw(requests: seq<seq<byte>>, host: string) returns (r: seq<IpmiResponse>, ghost when: seq<nat>)
      modifies this`time
      ensures time == old(time) + |requests| && |r| == |requests| == |when|
      ensures Moments(when, old(time), time)
      ensures forall i :: 0 <= i < |r| ==> r[i] == IpmiResponse(reply(when[i], requests[i], host, true), 1)
    {
      hide Ran, Moments;
      var empty := IpmiResponse([], 0);
      var results := new IpmiResponse[|requests|](_ => empty);
      var waiting := Ids(|requests|);
      when := seq(|requests|, _ => 0);
      NobodyRan(when, time);
      while waiting != {}
        invariant |when| == |requests| && old(time) <= time == old(time) + |requests| - |waiting|
        invariant forall i <- waiting :: 0 <= i < |requests|
        invariant Ran(when, waiting, old(time), time)
        invariant forall i :: 0 <= i < |requests| && i !in waiting ==>
                    results[i] == IpmiResponse(reply(when[i], requests[i], host, true), 1)
      {
        var i :| i in waiting;  // the goroutine that gets the lock
        RanOneMore(when, waiting, old(time), time, i);
        when := when[i := time];
        var response := FillStruct(requests[i], host, true);
        results[i] := response;
        waiting := waiting - {i};
      }
      AllHaveRan(when, old(time), time);
      r := results[..];
    }

    /** A capability counts when its reply is not all zeros. */
    predicate Supports(d: Desc, host: string, t: nat) {
      var a := reply(t, d.request, host, protocol == "node_manager");
      exists i :: 0 <= i < |a| && a[i] != 0
    }

    /** Probing is bridged for the node manager protocol only; a command that
        failed, or replied zeros only, is no capability. */
    lemma SupportsIff(d: Desc, host: string, t: nat)
      ensures var a := reply(t, d.request, host, if protocol == "node_manager" then true else false);
        Supports(d, host, t) <==> exists b <- a :: b != 0
    {
      var a := reply(t, d.request, host, protocol == "node_manager");
      if i :| 0 <= i < |a| && a[i] != 0 {
        assert a[i] in a;
      }
    }

    /** How often d is found by those of the first n requests that have run. */
    ghost function Found(requests: seq<Desc>, n: nat, waiting: set<nat>, host: string, when: seq<nat>, d: Desc): nat
      requires n <= |requests| == |when|
    {
      if n == 0 then 0
      else
        var found := n - 1 !in waiting && requests[n - 1] == d && Supports(d, host, when[n - 1]);
        Found(requests, n - 1, waiting, host, when, d) + if found then 1 else 0
    }

    /** The goroutine of request i ran at time t. */
    lemma {:induction false} OneMoreRan(requests: seq<Desc>, n: nat, waiting: set<nat>, host: string, when: seq<nat>,
                                        i: nat, t: nat, d: Desc)
      requires n <= |requests| == |when| && i in waiting && i < |requests|
      ensures Found(requests, n, waiting - {i}, host, when[i := t], d)
           == Found(requests, n, waiting, host, when, d)
            + if i < n && requests[i] == d && Supports(d, host, t) then 1 else 0
    {
      hide Supports;
      if n > 0 {
        OneMoreRan(requests, n - 1, waiting, host, when, i, t, d);
      }
    }

    lemma {:induction false} NoneRan(requests: seq<Desc>, n: nat, host: string, when: seq<nat>, d: Desc)
      requires n <= |requests| == |when|
      ensures Found(requests, n, Ids(|requests|), host, when, d) == 0
    {
      hide Supports;
      if n > 0 {
        NoneRan(requests, n - 1, host, when, d);
      }
    }

    lemma CountWithLast(front: seq<Desc>, last: Desc, d: Desc)
      ensures multiset(front + [last])[d] == multiset(front)[d] + if last == d then 1 else 0
      ensures front + [] == front
    {
    }

    /** The requests that were supported when they were tried, in the order of
        the table. */
    ghost function Supported(requests: seq<Desc>, host: string, when: seq<nat>): seq<Desc>
      requires |when| == |requests|
    {
      if requests == [] then []
      else
        var n := |requests| - 1;
        Supported(requests[..n], host, when[..n]) + (if Supports(requests[n], host, when[n]) then [requests[n]] else [])
    }

    lemma SupportedOneMore(requests: seq<Desc>, n: nat, host: string, when: seq<nat>)
      requires n < |requests| == |when|
      ensures Supported(requests[..n + 1], host, when[..n + 1])
           == Supported(requests[..n], host, when[..n])
            + (if Supports(requests[n], host, when[n]) then [requests[n]] else [])
    {
      hide Supports;
      assert requests[..n + 1][..n] == requests[..n] && when[..n + 1][..n] == when[..n];
    }

    lemma {:induction false} AllRan(requests: seq<Desc>, n: nat, host: string, when: seq<nat>, d: Desc)
      requires n <= |requests| == |when|
      ensures Found(requests, n, {}, host, when, d) == multiset(Supported(requests[..n], host, when[..n]))[d]
    {
      hide Supports;
      if n > 0 {
        AllRan(requests, n - 1, host, when, d);
        SupportedOneMore(requests, n - 1, host, when);
        CountWithLast(Supported(requests[..n - 1], host, when[..n - 1]), requests[n - 1], d);
      }
    }

    /** What a discovery found on a host: the requests supported, in any order,
        each tried once between t0 and t1. */
    ghost predicate Discovered(requests: seq<Desc>, host: string, found: seq<Desc>, t0: nat, t1: nat) {
      exists when: seq<nat> ::
        |when| == |requests| && Moments(when, t0, t1) && SameBag(Supported(requests, host, when), found)
    }

    /** For every host the supported requests, in an order that depends on the
        goroutines, and nothing else. */
    method GetPlatformCapabilities(requests: seq<Desc>, hosts: seq<string>) returns (valid: map<string, seq<Desc>>)
      modifies this`time
      ensures time == old(time) + |hosts| * |requests|
      ensures forall h :: h in valid <==> h in hosts
      ensures forall h <- valid :: Discovered(requests, h, valid[h], old(time), time)
    {
      hide Discovered;
      valid := map[];
      for k := 0 to |hosts|
        invariant time == old(time) + k * |requests|
        invariant forall h :: h in valid <==> h in hosts[..k]
        invariant forall h <- valid :: Discovered(requests, h, valid[h], old(time), time)
      {
        ghost var t := time;
        var found := ProbeHost(requests, hosts[k]);
        forall h, ds: seq<Desc>, t0: nat, t1: nat | old(time) <= t0 && t1 <= time && Discovered(requests, h, ds, t0, t1)
          ensures Discovered(requests, h, ds, old(time), time)
        {
          DiscoveredWithin(requests, h, ds, t0, t1, old(time), time);
        }
        valid := valid[hosts[k] := found];
      }
      assert hosts[..|hosts|] == hosts;
    }

    lemma DiscoveredWithin(requests: seq<Desc>, host: string, found: seq<Desc>, t0: nat, t1: nat, u0: nat, u1: nat)
      requires Discovered(requests, host, found, t0, t1) && u0 <= t0 && t1 <= u1
      ensures Discovered(requests, host, found, u0, u1)
    {
      var when: seq<nat> :|
        |when| == |requests| && Moments(when, t0, t1) && SameBag(Supported(requests, host, when), found);
      assert Moments(when, u0, u1);
    }

    /** The goroutines of one host. */
    method ProbeHost(requests: seq<Desc>, addr: string) returns (found: seq<Desc>)
      modifies this`time
      ensures time == old(time) + |requests|
      ensures Discovered(requests, addr, found, old(time), time)
    {
      hide Supported, Found, Supports, Ran, Moments;
      found := [];
      var waiting := Ids(|requests|);
      ghost var when: seq<nat> := seq(|requests|, _ => 0);
      NobodyRan(when, time);
      forall d ensures Found(requests, |requests|, waiting, addr, when, d) == 0 {
        NoneRan(requests, |requests|, addr, when, d);
      }
      while waiting != {}
        invariant |when| == |requests| && old(time) <= time == old(time) + |requests| - |waiting|
        invariant forall i <- waiting :: i < |requests|
        invariant Ran(when, waiting, old(time), time)
        invariant forall d :: multiset(found)[d] == Found(requests, |requests|, waiting, addr, when, d)
      {
        var i :| i in waiting;  // the goroutine that gets the lock
        forall d
          ensures Found(requests, |requests|, waiting - {i}, addr, when[i := time], d)
               == Found(requests, |requests|, waiting, addr, when, d)
                + if requests[i] == d && Supports(d, addr, time) then 1 else 0
        {
          OneMoreRan(requests, |requests|, waiting, addr, when, i, time, d);
        }
        RanOneMore(when, waiting, old(time), time, i);
        when := when[i := time];
        found := ProbeOne(requests[i], addr, found);
        waiting := waiting - {i};
      }
      assert requests[..|requests|] == requests && when[..|requests|] == when;
      forall d ensures multiset(found)[d] == multiset(Supported(requests, addr, when))[d] {
        AllRan(requests, |requests|, addr, when, d);
      }
      AllHaveRan(when, old(time), time);
      assert SameBag(Supported(requests, addr, when), found);
    }

    /** The body of a goroutine. */
    method ProbeOne(d: Desc, addr: string, found: seq<Desc>) returns (found': seq<Desc>)
      modifies this`time
      ensures time == old(time) + 1
      ensures found' == if Supports(d, addr, old(time)) then found + [d] else found
    {
      var a := FillStruct(d.request, addr, protocol == "node_manager");
      var j := CountZeros(a.data);
      found' := if j != |a.data| then found + [d] else found;
    }

    method CountZeros(a: seq<byte>) returns (j: nat)
      ensures j <= |a| && (j != |a| <==> exists i :: 0 <= i < |a| && a[i] != 0)
    {
      j := 0;
      for i := 0 to |a|
        invariant j <= i && (j == i <==> forall k :: 0 <= k < i ==> a[k] == 0)
      {
        if a[i] == 0 {
          j := j + 1;
        }
      }
    }
  }

  // The index of a batch, when the host answers a description with resp.

  /** The index that `IndexHost` builds when the descriptions came in this order. */
  ghost function IndexFor(descs: seq<Desc>, resp: Desc -> IpmiResponse): map<string, uint16> {
    Merge(descs, (d: Desc) => Yield(Reading(d, resp(d))))
  }

  lemma {:induction false} IndexIsMerge(descs: seq<Desc>, responses: seq<IpmiResponse>, resp: Desc -> IpmiResponse)
    requires |responses| == |descs| && forall i :: 0 <= i < |descs| ==> responses[i] == resp(descs[i])
    ensures Merge(Readings(descs, responses), Yield) == IndexFor(descs, resp)
  {
    if descs != [] {
      var n := |descs| - 1;
      IndexIsMerge(descs[..n], responses[..n], resp);
      assert Readings(descs, responses)[..n] == Readings(descs[..n], responses[..n]);
    }
  }

  /** Whatever order the goroutines of the discovery ran in, and whatever the
      host answers later, the index is the same exactly when no two of the
      descriptions found disagree on a path. */
  lemma IndexIsOrderFreeIff(found: seq<Desc>, resp: Desc -> IpmiResponse)
    ensures (forall found' :: SameBag(found, found') ==> IndexFor(found', resp) == IndexFor(found, resp))
            <==> Compatible(found, (d: Desc) => Yield(Reading(d, resp(d))))
  {
    var c := (d: Desc) => Yield(Reading(d, resp(d)));
    OrderFreeIff(found, c);
  }
}
