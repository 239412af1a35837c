/** From response bytes to published metrics, for the shipped table. */
module Published {
  import opened Common
  import opened Bmc
  import opened Names
  import opened Formats
  import opened FormatBytes
  import opened Merging
  import opened Collector
  import opened Vendors
  import opened Advertised

  /** Node manager statistics of every entry found on a host are published under
      its root, each under its own name, whatever else the host answers. */
  lemma StatisticsArePublished(src: Sources, host: string, found: seq<Desc>, resp: Desc -> IpmiResponse,
                               responses: seq<IpmiResponse>, i: nat, head: seq<byte>,
                               cur: uint16, min: uint16, max: uint16, avg: uint16, rest: seq<byte>)
    requires forall d <- found :: d in GENERIC
    requires |responses| == |found| && forall j :: 0 <= j < |found| ==> responses[j] == resp(found[j])
    requires host in src.index && src.index[host] == Merge(Readings(found, responses), Yield)
    requires i < |found| && found[i].format == NodeManager && |head| == 4
    requires responses[i] == IpmiResponse(head + SentAll([cur, min, max, avg]) + rest, 1)
    ensures src.Published(host, ParseName(MakeName(found[i].root + "/cur"))) == Number(cur)
    ensures src.Published(host, ParseName(MakeName(found[i].root + "/min"))) == Number(min)
    ensures src.Published(host, ParseName(MakeName(found[i].root + "/max"))) == Number(max)
    ensures src.Published(host, ParseName(MakeName(found[i].root + "/avg"))) == Number(avg)
  {
    hide Merge, Yield, Sources.Published, ParseName, SentAll, ExtendPath, Parse, Parsable;
    NodeManagerIsParsed(head, cur, min, max, avg, rest);
    StatisticIsPublished(src, host, found, resp, responses, i, "cur");
    StatisticIsPublished(src, host, found, resp, responses, i, "min");
    StatisticIsPublished(src, host, found, resp, responses, i, "max");
    StatisticIsPublished(src, host, found, resp, responses, i, "avg");
    var root := found[i].root;
    assert root + "/" + "cur" == root + "/cur" && root + "/" + "min" == root + "/min";
    assert root + "/" + "max" == root + "/max" && root + "/" + "avg" == root + "/avg";
  }

  lemma StatisticIsPublished(src: Sources, host: string, found: seq<Desc>, resp: Desc -> IpmiResponse,
                             responses: seq<IpmiResponse>, i: nat, k: string)
    requires forall d <- found :: d in GENERIC
    requires |responses| == |found| && forall j :: 0 <= j < |found| ==> responses[j] == resp(found[j])
    requires host in src.index && src.index[host] == Merge(Readings(found, responses), Yield)
    requires i < |found| && found[i].format == NodeManager && k in {"cur", "min", "max", "avg"}
    requires Parsable(NodeManager, responses[i])
    ensures k in Parse(NodeManager, responses[i])
    ensures |MakeName(found[i].root + "/" + k)| >= 2
    ensures src.Published(host, ParseName(MakeName(found[i].root + "/" + k)))
         == Number(Parse(NodeManager, responses[i])[k])
  {
    hide Parse, Needs, Merge, Yield, Sources.Published, ParseName;
    StatisticNames(k);
    GenericIsPublished(src, host, found, resp, responses, i, k);
    PathWithSlash(found[i].root, k);
  }

  lemma StatisticNames(k: string)
    requires k in {"cur", "min", "max", "avg"}
    ensures k in GetMetrics(NodeManager) && k != ""
  {
  }

  lemma PathWithSlash(root: string, k: string)
    requires k != ""
    ensures ExtendPath(root, k) == root + "/" + k
  {
  }

  /** Statistics are asked for by mode and domain: global power (1) of platform,
      processors and memory, inlet temperature (2), airflow (4), outlet
      temperature (5). */
  lemma StatisticsRequests(i: nat)
    requires i < |GENERIC| && GENERIC[i].format == NodeManager
    ensures exists root, mode, domain ::
      && GENERIC[i] == Desc([0x2E, 0xC8, 0x57, 0x01, 0x00, mode, domain, 0x00], root, NodeManager)
      && (root, mode, domain) in {("power/system", 1, 0), ("power/cpu", 1, 1), ("power/memory", 1, 2),
                                  ("thermal/inlet", 2, 0), ("airflow", 4, 0), ("thermal/outlet", 5, 0)}
  {
    var d := GENERIC[i];
    assert (d.root, d.request[5], d.request[6]) in {("power/system", 1, 0), ("power/cpu", 1, 1), ("power/memory", 1, 2),
                                  ("thermal/inlet", 2, 0), ("airflow", 4, 0), ("thermal/outlet", 5, 0)};
  }

  /** No two entries send the same request. */
  lemma RequestsDiffer(i: nat, j: nat)
    requires i < j < |GENERIC|
    ensures GENERIC[i].request != GENERIC[j].request
  {
  }

  // Inventory and health.

  const INVENTORY: set<string> := {
    "inventory/firmware_version", "inventory/bmc_mac", "inventory/product_manufacturer",
    "inventory/product_name", "inventory/product_serial"}

  const HEALTH: set<string> := {
    "health/temperature", "health/voltage", "health/fan", "health/processor",
    "health/powersupply", "health/memory", "health/storage", "health/battery"}

  /** The inventory metrics come from the host's inventory and the health metrics
      from its health, empty where those have nothing. */
  lemma TextsArePublished(src: Sources, host: string, key: string)
    ensures key in INVENTORY ==>
      var t := src.inventory;
      src.Published(host, key) == Text(if host in t && key in t[host] then t[host][key] else "")
    ensures key in HEALTH ==>
      var t := src.health;
      src.Published(host, key) == Text(if host in t && key in t[host] then t[host][key] else "")
  {
    hide Contains;
    if key in INVENTORY {
      StartsWith(key, "inventory/");
    } else if key in HEALTH {
      StartsWith(key, "health/");
      HealthIsNoInventory(key);
    }
  }

  lemma StartsWith(s: string, part: string)
    ensures part <= s ==> Contains(s, part)
  {
  }

  lemma HealthIsNoInventory(key: string)
    requires key in HEALTH
    ensures !Contains(key, "inventory/")
  {
    hide Contains;
    var name := NameOfHealth(key);
    if Contains(key, "inventory/") {
      ContainsAdjacent(key, "inventory/", 8);
    }
  }

  lemma NameOfHealth(key: string) returns (name: string)
    requires key in HEALTH
    ensures key == "health/" + name && '/' !in name
  {
    name := key[7..];
    assert name in {"temperature", "voltage", "fan", "processor", "powersupply", "memory", "storage", "battery"};
  }
}
