/**
 What the reconciler is meant to do, on values: the tracked table, the kernel, and the
 effect of creating one namespace, of one whole synchronization, of resolving one conflict
 and of one maintenance pass. None of it depends on the order in which a map is visited.
 */
module Reconcile {
  import opened Wrappers
  import opened Listing
  import opened Names
  import opened Config
  import opened Kernel

  datatype Status = Creating | Active | Failed | Deleting

  datatype InterfaceInfo = InterfaceInfo(name: string, kind: string, status: string)

  datatype RouteInfo = RouteInfo(destination: string, gateway: string, metric: nat)

  /** The part of a tracked entry that mirrors the configuration. */
  datatype Details = Details(
    interfaces: seq<InterfaceInfo>,
    routes: seq<RouteInfo>,
    dnsServers: seq<string>,
    dnsSearch: seq<string>)

  datatype NsState = NsState(
    name: string,
    fullName: Name,
    status: Status,
    configPath: string,
    details: Details,
    createdAt: nat,
    lastUpdated: nat)

  datatype Resolution = CreateNamespace | DeleteNamespace

  datatype Conflict = Conflict(name: Name, resolution: Resolution)

  datatype SyncError = ListFailed | ProcessFailed(name: Name)

  datatype SyncResult = SyncResult(
    created: seq<Name>,
    updated: seq<Name>,
    deleted: seq<Name>,
    conflicts: seq<Conflict>,
    errors: seq<SyncError>)

  /** Everything the daemon tracks together with the kernel it acts on. */
  datatype World = World(states: map<Name, NsState>, kernel: KernelView, lastSync: int)

  datatype Outcome = Created | Updated | NoChange | Conflicted | Errored

  const RETRY_SECONDS := 3600

  const EMPTY_RESULT := SyncResult([], [], [], [], [])

  function Managed(prefix: string, k: KernelView): set<Name> {
    set n | n in k.namespaces && MatchesPrefix(prefix, n)
  }

  function DetailsOf(c: NamespaceConfig, active: bool): Details {
    var status := if active then "up" else "down";
    Details(
      seq(|c.moveInterfaces|,
          i requires 0 <= i < |c.moveInterfaces| =>
            InterfaceInfo(c.moveInterfaces[i], "physical", status))
      + seq(|c.virtualInterfaces|,
            i requires 0 <= i < |c.virtualInterfaces| =>
              InterfaceInfo(c.virtualInterfaces[i].name, c.virtualInterfaces[i].kind, status)),
      seq(|c.routes|,
          i requires 0 <= i < |c.routes| =>
            RouteInfo(c.routes[i].destination, c.routes[i].gateway,
                      if c.routes[i].metric.Some? then c.routes[i].metric.value else 0))
      + (if c.defaultGateway.Some? then [RouteInfo("default", c.defaultGateway.value, 0)] else []),
      c.dnsServers,
      c.dnsSearch)
  }

  const NO_DETAILS := Details([], [], [], [])

  function FreshState(entry: ConfigEntry, now: nat): NsState {
    NsState(entry.config.name, entry.fullName, Creating, entry.filePath, NO_DETAILS,
            Seconds(now), Seconds(now))
  }

  /** A freshly created or adopted namespace. */
  function ActiveState(entry: ConfigEntry, active: bool, now: nat): NsState {
    FreshState(entry, now).(status := Active, details := DetailsOf(entry.config, active))
  }

  function FailedState(entry: ConfigEntry, now: nat): NsState {
    FreshState(entry, now).(status := Failed)
  }

  /** A tracked entry after its configuration was applied again. */
  function Refreshed(st: NsState, entry: ConfigEntry, active: bool, now: nat): NsState {
    st.(status := if active then Active else st.status,
        details := DetailsOf(entry.config, active),
        lastUpdated := Seconds(now))
  }

  predicate NeedsUpdate(st: NsState, entry: ConfigEntry, info: NamespaceInfo) {
    Seconds(entry.lastModified) > st.lastUpdated || !info.active
  }

  // ----- creating one namespace -----

  function Create(w: World, entry: ConfigEntry, now: nat): World {
    if CanCreate(w.kernel, entry.fullName) then
      World(w.states[entry.fullName := ActiveState(entry, true, now)],
            WithCreated(w.kernel, entry.fullName), w.lastSync)
    else
      w.(states := w.states[entry.fullName := FailedState(entry, now)])
  }

  // ----- one synchronization -----

  /** The verdict on a configured name, read off the three maps as they stood at the start. */
  function OutcomeOf(cfg: ConfigView, w: World, n: Name): Outcome
    requires n in cfg.entries
  {
    var managed := n in w.kernel.namespaces && MatchesPrefix(cfg.prefix, n);
    if n in w.states then
      if !managed then Conflicted
      else if NeedsUpdate(w.states[n], cfg.entries[n], w.kernel.namespaces[n]) then Updated
      else NoChange
    else if managed then Updated
    else if CanCreate(w.kernel, n) then Created
    else Errored
  }

  /** The configured names among ns that get the verdict o. */
  function Having(cfg: ConfigView, w: World, ns: set<Name>, o: Outcome): set<Name>
    requires ns <= cfg.entries.Keys
  {
    set n | n in ns && OutcomeOf(cfg, w, n) == o
  }

  lemma HavingAfterOne(cfg: ConfigView, w: World, done: set<Name>, n: Name, o: Outcome)
    requires done <= cfg.entries.Keys && n in cfg.entries && n !in done
    ensures Having(cfg, w, done + {n}, o) ==
            Having(cfg, w, done, o) + (if OutcomeOf(cfg, w, n) == o then {n} else {})
    ensures n !in Having(cfg, w, done, o)
  {
  }

  /** The tracked entry of a configured name after the synchronization. */
  function EntryAfter(cfg: ConfigView, w: World, now: nat, n: Name): NsState
    requires n in cfg.entries
  {
    var entry := cfg.entries[n];
    match OutcomeOf(cfg, w, n)
    case Created => ActiveState(entry, true, now)
    case Errored => FailedState(entry, now)
    case Conflicted => w.states[n]
    case NoChange => w.states[n].(lastUpdated := Seconds(now))
    case Updated =>
      if n in w.states then Refreshed(w.states[n], entry, w.kernel.namespaces[n].active, now)
      else ActiveState(entry, w.kernel.namespaces[n].active, now)
  }

  function Conflicts(ns: set<Name>, r: Resolution): set<Conflict> {
    set n | n in ns :: Conflict(n, r)
  }

  function Failures(ns: set<Name>): set<SyncError> {
    set n | n in ns :: ProcessFailed(n)
  }

  /** The table after the configured names in done have been processed. */
  function StatesAfter(cfg: ConfigView, w: World, now: nat, done: set<Name>): map<Name, NsState>
    requires done <= cfg.entries.Keys
  {
    map n | n in w.states.Keys + done ::
      if n in done then EntryAfter(cfg, w, now, n) else w.states[n]
  }

  /** Names that stay tracked: configured ones, and tracked ones the kernel still manages. */
  function Kept(cfg: ConfigView, w: World): set<Name> {
    cfg.entries.Keys + w.states.Keys * Managed(cfg.prefix, w.kernel)
  }

  ghost predicate WorldSynced(cfg: ConfigView, now: nat, w: World, w': World) {
    var c := cfg.entries.Keys;
    && w'.states == (map n | n in Kept(cfg, w) ::
                       if n in c then EntryAfter(cfg, w, now, n) else w.states[n])
    && Grown(w.kernel, w'.kernel, Having(cfg, w, c, Created))
    && w'.lastSync == now
  }

  ghost predicate Reported(cfg: ConfigView, w: World, r: SyncResult) {
    var c := cfg.entries.Keys;
    var m := Managed(cfg.prefix, w.kernel);
    && Lists(r.created, Having(cfg, w, c, Created))
    && Lists(r.updated, Having(cfg, w, c, Updated))
    && Lists(r.deleted, w.states.Keys - c - m)
    && Lists(r.conflicts, Conflicts(Having(cfg, w, c, Conflicted), CreateNamespace)
                          + Conflicts(m - c, DeleteNamespace))
    && Lists(r.errors, Failures(Having(cfg, w, c, Errored)))
  }

  /**
   The exact effect of one synchronization whose listing succeeded. Lists are compared as
   multisets and new ids up to a permutation, so the relation leaves open only what the
   iteration order of the source's hash maps leaves open.
   */
  ghost predicate Synced(cfg: ConfigView, now: nat, w: World, w': World, r: SyncResult) {
    WorldSynced(cfg, now, w, w') && Reported(cfg, w, r)
  }

  /** A synchronization whose listing failed reports that and changes nothing. */
  ghost predicate SyncAborted(w: World, w': World, r: SyncResult) {
    w' == w && r == EMPTY_RESULT.(errors := [ListFailed])
  }

  // ----- resolving one conflict -----

  datatype ResolveError = NoConfiguration | CreateFailed | DeleteFailed

  function Resolve(w: World, c: Conflict, cfg: ConfigView, now: nat): World {
    match c.resolution
    case CreateNamespace =>
      if c.name in cfg.entries then Create(w, cfg.entries[c.name], now) else w
    case DeleteNamespace =>
      if CanDelete(w.kernel, c.name)
      then w.(states := w.states - {c.name}, kernel := WithDeleted(w.kernel, c.name))
      else w
  }

  // ----- maintenance -----

  /** A failure recorded more than an hour ago, on the clock's full resolution. */
  predicate Stale(st: NsState, now: nat) {
    st.status == Failed && st.lastUpdated * NANOS < now - RETRY_SECONDS * NANOS
  }

  function Maintained(w: World, now: nat): World {
    w.(states := map n | n in w.states && !Stale(w.states[n], now) :: w.states[n])
  }
}
