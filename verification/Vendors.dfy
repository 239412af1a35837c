/** The tables of requests the plugin ships. */
module Vendors {
  import opened Bmc
  import opened Names
  import opened Formats
  import opened Merging
  import opened Collector
  import opened Oob
  import BatchEngine
  import Inband

  /** `GenericVendor` */
  const GENERIC: seq<Desc> := [
    Desc([0x2e, 0x65, 0x57, 0x01, 0x00, 0x02], "cups", CUPS),
    Desc([0x2e, 0x65, 0x57, 0x01, 0x00, 0x01], "cups", CUPSIndex),
    Desc([0x2e, 0xc8, 0x57, 0x01, 0x00, 0x01, 0x00, 0x00], "power/system", NodeManager),
    Desc([0x2e, 0xc8, 0x57, 0x01, 0x00, 0x01, 0x01, 0x00], "power/cpu", NodeManager),
    Desc([0x2e, 0xc8, 0x57, 0x01, 0x00, 0x01, 0x02, 0x00], "power/memory", NodeManager),
    Desc([0x2e, 0xc8, 0x57, 0x01, 0x00, 0x02, 0x00, 0x00], "thermal/inlet", NodeManager),
    Desc([0x2e, 0xc8, 0x57, 0x01, 0x00, 0x05, 0x00, 0x00], "thermal/outlet", NodeManager),
    Desc([0x2e, 0x4b, 0x57, 0x01, 0x00, 0x03, 0xff, 0xff, 0xff, 0xff, 0xff, 0xff, 0xff, 0xff], "thermal", Temp),
    Desc([0x2e, 0xc8, 0x57, 0x01, 0x00, 0x04, 0x00, 0x00], "airflow", NodeManager),
    Desc([0x2e, 0x40, 0x57, 0x01, 0x00, 0x30, 0x05, 0x05, 0xa1, 0x00, 0x10, 0x00, 0x00], "margin/cpu/tj", PECI),
    Desc([0x04, 0x2d, 0x08], "thermal/chipset", SR),
    Desc([0x2e, 0xc2, 0x57, 0x01, 0x00, 0x00, 0x01], "power/policy", Policy)]

  /** All requests but one are OEM commands (2Eh) with Intel's manufacturer id, by
      format; the chipset temperature is sensor 8. */
  lemma RequestCodes(i: nat)
    requires i < |GENERIC|
    ensures var (q, f) := (GENERIC[i].request, GENERIC[i].format);
      if f == SR then q == [0x04, 0x2D, 0x08]
      else
        && |q| >= 6 && q[0] == 0x2E && q[2..5] == [0x57, 0x01, 0x00]
        && (f, q[1]) in {(CUPS, 0x65), (CUPSIndex, 0x65), (NodeManager, 0xC8), (Temp, 0x4B), (PECI, 0x40), (Policy, 0xC2)}
  {
  }

  /** Which entry a path belongs to, told by a few of its characters. */
  function Owner(path: string): nat {
    if |path| < 10 then 12
    else match path[0]
      case 'a' => 8
      case 'c' => if path == "cups/index" then 1 else 0
      case 'm' => 9
      case 'p' => (match path[6] case 's' => 2 case 'c' => 3 case 'm' => 4 case _ => 11)
      case _ => (match path[8] case 'i' => 5 case 'o' => 6 case 'm' => 7 case _ => if path[9] == 'p' then 7 else 10)
  }

  lemma PathOf(root: string, k: string)
    ensures var p := ExtendPath(root, k);
      && |p| >= |root| && (k != "" ==> |p| == |root| + 1 + |k|)
      && (forall j :: 0 <= j < |root| ==> p[j] == root[j])
      && (k != "" ==> forall j :: 0 <= j < |k| ==> p[|root| + 1 + j] == k[j])
  {
  }

  lemma TempKey(r: IpmiResponse, k: string)
    requires Parsable(Temp, r) && k in Parse(Temp, r)
    ensures |k| >= 5 && (k[0] == 'm' || k[..2] == "cp")
  {
    if |r.data| <= 8 {
      assert k in {"cpu/0", "cpu/1", "cpu/2", "cpu/3"};
    } else {
      TempEntries(r, |r.data|);
      var n: nat :| k == TempName(n);
      if n >= 4 {
        assert k == TempName(n);
        assert TempName(n) == Dimm(n - 4);
      }
    }
  }

  /** Every path the i-th entry ever yields, from any response, is its own. */
  lemma PathsAreOwned(i: nat, r: IpmiResponse, k: string)
    requires i < |GENERIC| && Parsable(GENERIC[i].format, r) && k in Parse(GENERIC[i].format, r)
    ensures Owner(ExtendPath(GENERIC[i].root, k)) == i
  {
    hide ExtendPath;
    PathOf(GENERIC[i].root, k);
    var p := ExtendPath(GENERIC[i].root, k);
    match i {
      case 0 =>
        assert k in {"cpu_bandwith", "memory_bandwith", "io_bandwith"};
        assert p[0] == 'c' && |p| > 10;
      case 1 =>
        assert k == "index";
        assert p == "cups/index" by { ConstantPath(); }
      case 7 =>
        TempKey(r, k);
        assert k[0] == p[8] && k[1] == p[9];
      case 9 =>
        assert p[0] == 'm';
      case 10 =>
        assert p[8] == 'c' && p[9] == 'h';
      case 11 =>
        assert p[6] == 'p';
      case _ =>
        assert k in {"cur", "min", "max", "avg"};
    }
  }

  lemma ConstantPath()
    ensures ExtendPath("cups", "index") == "cups/index"
  {
  }

  /** Two different entries never yield the same path. */
  lemma EntriesAreDisjoint(i: nat, j: nat, r: IpmiResponse, r': IpmiResponse, k: string, k': string)
    requires i < |GENERIC| && Parsable(GENERIC[i].format, r) && k in Parse(GENERIC[i].format, r)
    requires j < |GENERIC| && Parsable(GENERIC[j].format, r') && k' in Parse(GENERIC[j].format, r')
    requires ExtendPath(GENERIC[i].root, k) == ExtendPath(GENERIC[j].root, k')
    ensures i == j
  {
    hide Parse, Parsable, Owner;
    PathsAreOwned(i, r, k);
    PathsAreOwned(j, r', k');
  }

  lemma EntriesAgree(i: nat, j: nat, r: IpmiResponse, r': IpmiResponse, path: string)
    requires i < |GENERIC| && j < |GENERIC|
    requires path in Yield(Reading(GENERIC[i], r)) && path in Yield(Reading(GENERIC[j], r'))
    ensures i == j
  {
    hide Parse, Parsable;
    var k :| k in Parse(GENERIC[i].format, r) && path == ExtendPath(GENERIC[i].root, k);
    var k' :| k' in Parse(GENERIC[j].format, r') && path == ExtendPath(GENERIC[j].root, k');
    EntriesAreDisjoint(i, j, r, r', k, k');
  }

  /** So for the shipped table, whatever a host answers at collection, neither
      the order in which capabilities were discovered nor any other order matters. */
  lemma GenericIsOrderFree(found: seq<Desc>, found': seq<Desc>, resp: Desc -> IpmiResponse)
    requires SameBag(found, found') && forall d <- found :: d in GENERIC
    ensures IndexFor(found', resp) == IndexFor(found, resp)
  {
    hide Yield;
    var c := (d: Desc) => Yield(Reading(d, resp(d)));
    forall x <- found, y <- found ensures Agree(c(x), c(y)) {
      var i :| 0 <= i < |GENERIC| && GENERIC[i] == x;
      var j :| 0 <= j < |GENERIC| && GENERIC[j] == y;
      forall path <- c(x) ensures path in c(y) ==> c(x)[path] == c(y)[path] {
        if path in c(y) {
          EntriesAgree(i, j, resp(x), resp(y), path);
        }
      }
    }
    CompatibleIsOrderFree(found, found', c);
  }

  /** With it every published value: two collectors that found the same
      capabilities of a host, in whatever order, publish the same when the host
      answers both alike; its answers need not be those it gave at discovery. */
  lemma PublishedIsOrderFree(al: LinuxOutOfBand, host: string, when: seq<nat>, found: seq<Desc>, found': seq<Desc>,
                             resp: Desc -> IpmiResponse, responses: seq<IpmiResponse>, responses': seq<IpmiResponse>,
                             src: Sources, src': Sources, key: string)
    requires |when| == |GENERIC|
    requires SameBag(al.Supported(GENERIC, host, when), found) && SameBag(al.Supported(GENERIC, host, when), found')
    requires |responses| == |found| && forall i :: 0 <= i < |found| ==> responses[i] == resp(found[i])
    requires |responses'| == |found'| && forall i :: 0 <= i < |found'| ==> responses'[i] == resp(found'[i])
    requires host in src.index && src.index[host] == Merge(Readings(found, responses), Yield)
    requires host in src'.index && src'.index[host] == Merge(Readings(found', responses'), Yield)
    requires src.inventory == src'.inventory && src.health == src'.health
    ensures src.Published(host, key) == src'.Published(host, key)
  {
    hide Merge, Readings, Yield, Contains;
    IndexIsMerge(found, responses, resp);
    IndexIsMerge(found', responses', resp);
    forall d <- found ensures d in GENERIC { FoundAreListed(al, GENERIC, host, when, found, d); }
    GenericIsOrderFree(found, found', resp);
  }

  lemma FoundAreListed(al: LinuxOutOfBand, requests: seq<Desc>, host: string, when: seq<nat>, found: seq<Desc>, d: Desc)
    requires |when| == |requests| && SameBag(al.Supported(requests, host, when), found) && d in found
    ensures d in requests
  {
    SameMembers(al.Supported(requests, host, when), found, d);
    SupportedAreListed(al, requests, host, when, d);
  }

  lemma {:induction false} SupportedAreListed(al: LinuxOutOfBand, requests: seq<Desc>, host: string, when: seq<nat>, d: Desc)
    requires |when| == |requests| && d in al.Supported(requests, host, when)
    ensures d in requests
  {
    if requests != [] && d != requests[|requests| - 1] {
      SupportedAreListed(al, requests[..|requests| - 1], host, when[..|requests| - 1], d);
    }
  }

  /** In band, through the driver, the batch for this table is larger than the
      window and never succeeds, so no capability is ever discovered that way. */
  lemma InbandDiscoveryFails(p: BatchEngine.Params, before: seq<BatchEngine.Output>, run: seq<BatchEngine.Event>, s: BatchEngine.System)
    requires |p.inputs| == |GENERIC| && p.window == Inband.N_SIM && !p.counts && |before| == |p.inputs|
    ensures !BatchEngine.Succeeds(p, before, run, s)
  {
    if BatchEngine.Succeeds(p, before, run, s) {
      BatchEngine.SuccessNeedsWindow(p, before, run, s);
    }
  }
}
