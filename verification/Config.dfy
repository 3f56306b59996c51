/**
 A loaded namespace file and the view of the configuration that the reconciler reads.
 Times are nanoseconds since the epoch; the reconciler compares whole seconds.
 */
module Config {
  import opened Wrappers
  import opened Names

  datatype VirtualInterface = VirtualInterface(name: string, kind: string)

  datatype Route = Route(destination: string, gateway: string, metric: Option<nat>)

  datatype NamespaceConfig = NamespaceConfig(
    name: string,
    moveInterfaces: seq<string>,
    virtualInterfaces: seq<VirtualInterface>,
    routes: seq<Route>,
    defaultGateway: Option<string>,
    dnsServers: seq<string>,
    dnsSearch: seq<string>)

  datatype ConfigEntry = ConfigEntry(
    config: NamespaceConfig,
    filePath: string,
    fullName: Name,
    lastModified: int)

  datatype ConfigView = ConfigView(prefix: string, entries: map<Name, ConfigEntry>)

  /** The map is keyed by each entry's own full name. */
  ghost predicate Keyed(cfg: ConfigView) {
    forall k | k in cfg.entries :: cfg.entries[k].fullName == k
  }

  /** Every configured name carries the daemon's prefix. */
  ghost predicate Prefixed(cfg: ConfigView) {
    forall k | k in cfg.entries :: MatchesPrefix(cfg.prefix, k)
  }

  const NANOS := 1_000_000_000

  /** Whole seconds since the epoch; a time before the epoch counts as zero. */
  function Seconds(t: int): nat {
    if t < 0 then 0 else t / NANOS
  }

  /** The number of whole seconds that have passed at t. */
  lemma SecondsPassed(t: int)
    ensures t >= 0 ==> Seconds(t) * 1_000_000_000 <= t < (Seconds(t) + 1) * 1_000_000_000
    ensures t < 0 ==> Seconds(t) == 0
  {
  }
}
