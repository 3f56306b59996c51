/**
 The namespace state manager: a table of tracked namespaces over a kernel backend.
 Every method is proved against the value-level effect in Reconcile.
 */
module StateManager {
  import opened Wrappers
  import opened Listing
  import opened Names
  import opened Config
  import opened Kernel
  import opened Reconcile

  const SYNC_INTERVAL := 30 * NANOS

  datatype StateStats = StateStats(total: nat, active: nat, creating: nat, failed: nat, deleting: nat)

  function WithStatus(states: map<Name, NsState>, s: Status): set<Name> {
    set n | n in states && states[n].status == s
  }

  /** The four counts are the sizes of the four classes and add up to the whole table. */
  ghost predicate Tallied(s: StateStats, states: map<Name, NsState>) {
    && s.active == |WithStatus(states, Active)|
    && s.creating == |WithStatus(states, Creating)|
    && s.failed == |WithStatus(states, Failed)|
    && s.deleting == |WithStatus(states, Deleting)|
    && s.active + s.creating + s.failed + s.deleting == |states|
  }

  function CountOne(s: StateStats, status: Status): StateStats {
    match status
    case Active => s.(active := s.active + 1)
    case Creating => s.(creating := s.creating + 1)
    case Failed => s.(failed := s.failed + 1)
    case Deleting => s.(deleting := s.deleting + 1)
  }

  lemma WithStatusAfterOne(states: map<Name, NsState>, n: Name, st: NsState, s: Status)
    requires n !in states
    ensures |WithStatus(states[n := st], s)| == |WithStatus(states, s)| + (if st.status == s then 1 else 0)
  {
    if st.status == s {
      assert WithStatus(states[n := st], s) == WithStatus(states, s) + {n};
    } else {
      assert WithStatus(states[n := st], s) == WithStatus(states, s);
    }
  }

  lemma TalliedAfterOne(s: StateStats, states: map<Name, NsState>, n: Name, st: NsState)
    requires n !in states && Tallied(s, states)
    ensures Tallied(CountOne(s, st.status), states[n := st])
  {
    WithStatusAfterOne(states, n, st, Active);
    WithStatusAfterOne(states, n, st, Creating);
    WithStatusAfterOne(states, n, st, Failed);
    WithStatusAfterOne(states, n, st, Deleting);
  }

  function Without(states: map<Name, NsState>, names: set<Name>): map<Name, NsState> {
    states - names
  }

  lemma DoneAfterOne(states: map<Name, NsState>, todo: set<Name>, n: Name)
    requires n in todo && todo <= states.Keys
    ensures Without(states, todo)[n := states[n]] == Without(states, todo - {n})
  {
  }

  /** The tracked names that are neither configured nor managed. */
  function Untracked(states: map<Name, NsState>, cfg: ConfigView, actual: map<Name, NamespaceInfo>)
    : set<Name>
  {
    states.Keys - cfg.entries.Keys - actual.Keys
  }

  lemma WithoutNone(states: map<Name, NsState>)
    ensures Without(states, {}) == states
  {
  }

  lemma WithoutOneMore(states: map<Name, NsState>, names: set<Name>, n: Name)
    ensures Without(states, names) - {n} == Without(states, names + {n})
  {
  }

  lemma UnconfiguredAfterOne(s: seq<Conflict>, missing: set<Name>, found: set<Name>, n: Name)
    requires n !in found
    requires Lists(s, Conflicts(missing, CreateNamespace) + Conflicts(found, DeleteNamespace))
    ensures Lists(s + [Conflict(n, DeleteNamespace)],
                  Conflicts(missing, CreateNamespace) + Conflicts(found + {n}, DeleteNamespace))
  {
    var listed := Conflicts(missing, CreateNamespace) + Conflicts(found, DeleteNamespace);
    ListsOneMore(s, listed, Conflict(n, DeleteNamespace));
    assert Conflicts(found + {n}, DeleteNamespace) == Conflicts(found, DeleteNamespace) + {Conflict(n, DeleteNamespace)};
    assert listed + {Conflict(n, DeleteNamespace)}
        == Conflicts(missing, CreateNamespace) + Conflicts(found + {n}, DeleteNamespace);
  }

  /** Dropping the untracked names leaves exactly the kept ones. */
  lemma KeptAfterDrop(cfg: ConfigView, start: World, now: nat, actual: map<Name, NamespaceInfo>)
    requires actual.Keys == Managed(cfg.prefix, start.kernel)
    ensures var states := StatesAfter(cfg, start, now, cfg.entries.Keys);
            && Without(states, Untracked(states, cfg, actual)) ==
               (map n | n in Kept(cfg, start) ::
                  if n in cfg.entries.Keys then EntryAfter(cfg, start, now, n) else start.states[n])
            && Untracked(states, cfg, actual) ==
               start.states.Keys - cfg.entries.Keys - Managed(cfg.prefix, start.kernel)
  {
  }

  /** How one verdict is entered in the result lists. */
  function Report(r: SyncResult, n: Name, o: Outcome): SyncResult {
    match o
    case Created => r.(created := r.created + [n])
    case Updated => r.(updated := r.updated + [n])
    case Conflicted => r.(conflicts := r.conflicts + [Conflict(n, CreateNamespace)])
    case Errored => r.(errors := r.errors + [ProcessFailed(n)])
    case NoChange => r
  }

  /** The result lists hold the verdicts on the names in done, each once. */
  ghost predicate ReportedSoFar(cfg: ConfigView, start: World, done: set<Name>, r: SyncResult)
    requires done <= cfg.entries.Keys
  {
    && Lists(r.created, Having(cfg, start, done, Created))
    && Lists(r.updated, Having(cfg, start, done, Updated))
    && r.deleted == []
    && Lists(r.conflicts, Conflicts(Having(cfg, start, done, Conflicted), CreateNamespace))
    && Lists(r.errors, Failures(Having(cfg, start, done, Errored)))
  }

  lemma NothingProcessed(cfg: ConfigView, start: World, now: nat)
    ensures StatesAfter(cfg, start, now, {}) == start.states
    ensures Having(cfg, start, {}, Created) == {}
    ensures Grown(start.kernel, start.kernel, {})
    ensures ReportedSoFar(cfg, start, {}, EMPTY_RESULT)
  {
    assert Conflicts(Having(cfg, start, {}, Conflicted), CreateNamespace) == {};
    assert Failures(Having(cfg, start, {}, Errored)) == {};
    assert Having(cfg, start, {}, Updated) == {};
  }

  /** The state of a synchronization after the configured names in done. */
  ghost predicate Midway(cfg: ConfigView, now: nat, start: World, done: set<Name>, w: World, r: SyncResult) {
    && done <= cfg.entries.Keys
    && w.states == StatesAfter(cfg, start, now, done)
    && Grown(start.kernel, w.kernel, Having(cfg, start, done, Created))
    && ReportedSoFar(cfg, start, done, r)
  }

  lemma NotYetProcessed(
    cfg: ConfigView, now: nat, start: World, done: set<Name>, w: World, r: SyncResult, n: Name)
    requires Midway(cfg, now, start, done, w, r) && n in cfg.entries && n !in done
    ensures n in w.kernel.namespaces <==> n in start.kernel.namespaces
    ensures n in w.states <==> n in start.states
    ensures n in w.states ==> w.states[n] == start.states[n]
  {
    assert n !in Having(cfg, start, done, Created);
  }

  lemma NamesListed(cfg: ConfigView, start: World, done: set<Name>, n: Name, o: Outcome, s: seq<Name>)
    requires done <= cfg.entries.Keys && n in cfg.entries && n !in done
    requires Lists(s, Having(cfg, start, done, o))
    ensures Lists(if OutcomeOf(cfg, start, n) == o then s + [n] else s, Having(cfg, start, done + {n}, o))
  {
    HavingAfterOne(cfg, start, done, n, o);
    if OutcomeOf(cfg, start, n) == o {
      ListsOneMore(s, Having(cfg, start, done, o), n);
    }
  }

  lemma ConflictsOneMore(s: seq<Conflict>, ns: set<Name>, n: Name)
    requires n !in ns && Lists(s, Conflicts(ns, CreateNamespace))
    ensures Lists(s + [Conflict(n, CreateNamespace)], Conflicts(ns + {n}, CreateNamespace))
  {
    ListsOneMore(s, Conflicts(ns, CreateNamespace), Conflict(n, CreateNamespace));
    assert Conflicts(ns + {n}, CreateNamespace) == Conflicts(ns, CreateNamespace) + {Conflict(n, CreateNamespace)};
  }

  lemma ConflictsListed(cfg: ConfigView, start: World, done: set<Name>, n: Name, s: seq<Conflict>)
    requires done <= cfg.entries.Keys && n in cfg.entries && n !in done
    requires Lists(s, Conflicts(Having(cfg, start, done, Conflicted), CreateNamespace))
    ensures Lists(if OutcomeOf(cfg, start, n) == Conflicted then s + [Conflict(n, CreateNamespace)] else s,
                  Conflicts(Having(cfg, start, done + {n}, Conflicted), CreateNamespace))
  {
    HavingAfterOne(cfg, start, done, n, Conflicted);
    if OutcomeOf(cfg, start, n) == Conflicted {
      ConflictsOneMore(s, Having(cfg, start, done, Conflicted), n);
    }
  }

  lemma FailuresOneMore(s: seq<SyncError>, ns: set<Name>, n: Name)
    requires n !in ns && Lists(s, Failures(ns))
    ensures Lists(s + [ProcessFailed(n)], Failures(ns + {n}))
  {
    ListsOneMore(s, Failures(ns), ProcessFailed(n));
    assert Failures(ns + {n}) == Failures(ns) + {ProcessFailed(n)};
  }

  lemma FailuresListed(cfg: ConfigView, start: World, done: set<Name>, n: Name, s: seq<SyncError>)
    requires done <= cfg.entries.Keys && n in cfg.entries && n !in done
    requires Lists(s, Failures(Having(cfg, start, done, Errored)))
    ensures Lists(if OutcomeOf(cfg, start, n) == Errored then s + [ProcessFailed(n)] else s,
                  Failures(Having(cfg, start, done + {n}, Errored)))
  {
    HavingAfterOne(cfg, start, done, n, Errored);
    if OutcomeOf(cfg, start, n) == Errored {
      FailuresOneMore(s, Having(cfg, start, done, Errored), n);
    }
  }

  lemma ReportedSoFarAfterOne(cfg: ConfigView, start: World, done: set<Name>, n: Name, r: SyncResult)
    requires done <= cfg.entries.Keys && n in cfg.entries && n !in done
    requires ReportedSoFar(cfg, start, done, r)
    ensures ReportedSoFar(cfg, start, done + {n}, Report(r, n, OutcomeOf(cfg, start, n)))
  {
    NamesListed(cfg, start, done, n, Created, r.created);
    NamesListed(cfg, start, done, n, Updated, r.updated);
    ConflictsListed(cfg, start, done, n, r.conflicts);
    FailuresListed(cfg, start, done, n, r.errors);
  }

  lemma StatesAfterOne(cfg: ConfigView, start: World, now: nat, done: set<Name>, n: Name)
    requires done <= cfg.entries.Keys && n in cfg.entries
    ensures StatesAfter(cfg, start, now, done + {n}) ==
            StatesAfter(cfg, start, now, done)[n := EntryAfter(cfg, start, now, n)]
  {
  }

  lemma GrownAfterOne(cfg: ConfigView, start: World, k: KernelView, done: set<Name>, n: Name)
    requires done <= cfg.entries.Keys && n in cfg.entries && n !in done
    requires Grown(start.kernel, k, Having(cfg, start, done, Created))
    ensures OutcomeOf(cfg, start, n) == Created && n !in k.namespaces ==>
              Grown(start.kernel, WithCreated(k, n), Having(cfg, start, done + {n}, Created))
    ensures OutcomeOf(cfg, start, n) != Created ==>
              Grown(start.kernel, k, Having(cfg, start, done + {n}, Created))
  {
    HavingAfterOne(cfg, start, done, n, Created);
    if OutcomeOf(cfg, start, n) == Created && n !in k.namespaces {
      GrownByOne(start.kernel, k, Having(cfg, start, done, Created), n);
    }
  }

  lemma MidwayAfterOne(
    cfg: ConfigView, now: nat, start: World, done: set<Name>, w: World, w': World, r: SyncResult, n: Name)
    requires Midway(cfg, now, start, done, w, r) && n in cfg.entries && n !in done
    requires w'.states == w.states[n := EntryAfter(cfg, start, now, n)]
    requires w'.kernel == if OutcomeOf(cfg, start, n) == Created then WithCreated(w.kernel, n) else w.kernel
    requires OutcomeOf(cfg, start, n) == Created ==> n !in w.kernel.namespaces
    ensures Midway(cfg, now, start, done + {n}, w', Report(r, n, OutcomeOf(cfg, start, n)))
  {
    StatesAfterOne(cfg, start, now, done, n);
    GrownAfterOne(cfg, start, w.kernel, done, n);
    ReportedSoFarAfterOne(cfg, start, done, n, r);
  }

  class NamespaceStateManager {
    var namespaceStates: map<Name, NsState>
    const kernel: SimulatedKernel
    var lastSync: int

    ghost function View(): World
      reads this, kernel
    {
      World(namespaceStates, kernel.View(), lastSync)
    }

    constructor (kernel: SimulatedKernel)
      ensures this.kernel == kernel
      ensures View() == World(map[], kernel.View(), 0)
    {
      this.kernel := kernel;
      namespaceStates := map[];
      lastSync := 0;
    }

    /** True once an interval has passed, and when the clock stands before the last sync. */
    method NeedsSync(now: int) returns (needed: bool)
      ensures needed <==> now < lastSync || now >= lastSync + 30_000_000_000
    {
      if now < lastSync {
        return true;
      }
      return now - lastSync >= SYNC_INTERVAL;
    }

    method CreateNewNamespace(entry: ConfigEntry, now: nat) returns (ok: bool)
      modifies this, kernel
      ensures View() == Create(old(View()), entry, now)
      ensures ok <==> CanCreate(old(View()).kernel, entry.fullName)
    {
      var state := FreshState(entry, now);
      namespaceStates := namespaceStates[entry.fullName := state];
      var created := kernel.CreateNamespace(entry.fullName);
      if created.Ok? {
        state := namespaceStates[entry.fullName];
        state := state.(status := Active, details := DetailsOf(entry.config, created.value.active));
        namespaceStates := namespaceStates[entry.fullName := state];
        return true;
      } else {
        state := namespaceStates[entry.fullName];
        namespaceStates := namespaceStates[entry.fullName := state.(status := Failed)];
        return false;
      }
    }

    method UpdateExistingNamespace(entry: ConfigEntry, info: NamespaceInfo, now: nat)
      requires entry.fullName in namespaceStates
      modifies this`namespaceStates
      ensures namespaceStates ==
              old(namespaceStates)[entry.fullName :=
                Refreshed(old(namespaceStates)[entry.fullName], entry, info.active, now)]
    {
      var state := namespaceStates[entry.fullName].(lastUpdated := Seconds(now));
      state := state.(details := DetailsOf(entry.config, info.active));
      if info.active {
        state := state.(status := Active);
      }
      namespaceStates := namespaceStates[entry.fullName := state];
    }

    /**
     Handles one configured name against the snapshot of managed namespaces, as the loop of a
     synchronization does: start is the world when that synchronization began, and the names
     processed since are not this one.
     */
    method ProcessConfiguredNamespace(
      cfg: ConfigView, n: Name, actual: map<Name, NamespaceInfo>, now: nat, ghost start: World)
      returns (outcome: Outcome)
      requires Keyed(cfg) && n in cfg.entries
      requires actual == map a | a in Managed(cfg.prefix, start.kernel) :: start.kernel.namespaces[a]
      requires n in namespaceStates <==> n in start.states
      requires n in start.states ==> namespaceStates[n] == start.states[n]
      requires n in kernel.namespaces <==> n in start.kernel.namespaces
      modifies this, kernel
      ensures outcome == OutcomeOf(cfg, start, n)
      ensures namespaceStates == old(namespaceStates)[n := EntryAfter(cfg, start, now, n)]
      ensures kernel.View() == if outcome == Created then WithCreated(old(kernel.View()), n)
                               else old(kernel.View())
      ensures outcome == Created ==> n !in old(kernel.namespaces)
      ensures lastSync == old(lastSync)
    {
      var entry := cfg.entries[n];
      if n in namespaceStates && n in actual {
        if NeedsUpdate(namespaceStates[n], entry, actual[n]) {
          UpdateExistingNamespace(entry, actual[n], now);
          return Updated;
        }
        namespaceStates := namespaceStates[n := namespaceStates[n].(lastUpdated := Seconds(now))];
        return NoChange;
      } else if n in namespaceStates {
        assert namespaceStates[n := namespaceStates[n]] == namespaceStates;
        return Conflicted;
      } else if n in actual {
        namespaceStates := namespaceStates[n := ActiveState(entry, actual[n].active, now)];
        return Updated;
      } else {
        var ok := CreateNewNamespace(entry, now);
        return if ok then Created else Errored;
      }
    }

    method ProcessConfigured(cfg: ConfigView, actual: map<Name, NamespaceInfo>, now: nat)
      returns (r: SyncResult)
      requires Keyed(cfg)
      requires actual == map a | a in Managed(cfg.prefix, kernel.View()) :: kernel.namespaces[a]
      modifies this, kernel
      ensures Midway(cfg, now, old(View()), cfg.entries.Keys, View(), r)
      ensures lastSync == old(lastSync)
    {
      ghost var start := View();
      r := EMPTY_RESULT;
      var all := cfg.entries.Keys;
      var todo := all;
      assert all - todo == {};
      NothingProcessed(cfg, start, now);
      while todo != {}
        invariant todo <= all
        invariant Midway(cfg, now, start, all - todo, View(), r)
        invariant lastSync == old(lastSync)
        decreases |todo|
      {
        var n :| n in todo;
        ghost var before := View();
        VisitedOneMore(all, todo, n);
        NotYetProcessed(cfg, now, start, all - todo, before, r, n);
        var outcome := ProcessConfiguredNamespace(cfg, n, actual, now, start);
        MidwayAfterOne(cfg, now, start, all - todo, before, View(), r, n);
        r := Report(r, n, outcome);
        todo := todo - {n};
      }
      assert all - todo == all;
    }

    /** Pushes a conflict for every managed namespace without configuration. */
    method ReportUnconfigured(
      cfg: ConfigView, actual: map<Name, NamespaceInfo>, pushed: seq<Conflict>, ghost missing: set<Name>)
      returns (conflicts: seq<Conflict>)
      requires Lists(pushed, Conflicts(missing, CreateNamespace))
      ensures Lists(conflicts, Conflicts(missing, CreateNamespace)
                               + Conflicts(actual.Keys - cfg.entries.Keys, DeleteNamespace))
    {
      conflicts := pushed;
      var todo := actual.Keys;
      ghost var found: set<Name> := {};
      assert Conflicts(found, DeleteNamespace) == {};
      while todo != {}
        invariant todo <= actual.Keys
        invariant forall n :: n in found <==> n in actual && n !in todo && n !in cfg.entries
        invariant Lists(conflicts, Conflicts(missing, CreateNamespace) + Conflicts(found, DeleteNamespace))
        decreases |todo|
      {
        var n :| n in todo;
        todo := todo - {n};
        if n !in cfg.entries {
          UnconfiguredAfterOne(conflicts, missing, found, n);
          conflicts := conflicts + [Conflict(n, DeleteNamespace)];
          found := found + {n};
        }
      }
      assert found == actual.Keys - cfg.entries.Keys;
    }

    /** Drops tracked names that are neither configured nor managed, and reports them. */
    method DropUntracked(cfg: ConfigView, actual: map<Name, NamespaceInfo>) returns (deleted: seq<Name>)
      modifies this`namespaceStates
      ensures namespaceStates == Without(old(namespaceStates), Untracked(old(namespaceStates), cfg, actual))
      ensures Lists(deleted, Untracked(old(namespaceStates), cfg, actual))
    {
      deleted := [];
      var all := set n | n in namespaceStates && n !in cfg.entries && n !in actual;
      var todo := all;
      ghost var before := namespaceStates;
      assert all - todo == {};
      WithoutNone(before);
      while todo != {}
        invariant todo <= all
        invariant namespaceStates == Without(before, all - todo)
        invariant Lists(deleted, all - todo)
        decreases |todo|
      {
        var n :| n in todo;
        VisitedOneMore(all, todo, n);
        WithoutOneMore(before, all - todo, n);
        ListsOneMore(deleted, all - todo, n);
        namespaceStates := namespaceStates - {n};
        deleted := deleted + [n];
        todo := todo - {n};
      }
      assert all - todo == all == Untracked(before, cfg, actual);
    }

    method SynchronizeState(cfg: ConfigView, now: nat, listFails: bool) returns (r: SyncResult)
      requires Keyed(cfg)
      modifies this, kernel
      ensures !listFails ==> Synced(cfg, now, old(View()), View(), r)
      ensures listFails ==> SyncAborted(old(View()), View(), r)
      ensures listFails ==> View() == old(View()) && r == SyncResult([], [], [], [], [ListFailed])
    {
      if listFails {
        return EMPTY_RESULT.(errors := [ListFailed]);
      }
      ghost var start := View();
      var actual := map a | a in kernel.namespaces && MatchesPrefix(cfg.prefix, a)
                      :: kernel.namespaces[a];
      assert actual.Keys == Managed(cfg.prefix, start.kernel);
      r := ProcessConfigured(cfg, actual, now);
      var conflicts := ReportUnconfigured(cfg, actual, r.conflicts,
                                          Having(cfg, start, cfg.entries.Keys, Conflicted));
      var deleted := DropUntracked(cfg, actual);
      r := r.(conflicts := conflicts, deleted := deleted);
      lastSync := now;
      KeptAfterDrop(cfg, start, now, actual);
    }

    method ResolveConflict(c: Conflict, cfg: ConfigView, now: nat) returns (r: Result<(), ResolveError>)
      requires Keyed(cfg)
      modifies this, kernel
      ensures View() == Resolve(old(View()), c, cfg, now)
      ensures r.Ok? <==> match c.resolution
                         case CreateNamespace => c.name in cfg.entries && CanCreate(old(View()).kernel, c.name)
                         case DeleteNamespace => CanDelete(old(View()).kernel, c.name)
    {
      match c.resolution
      case CreateNamespace =>
        if c.name in cfg.entries {
          var ok := CreateNewNamespace(cfg.entries[c.name], now);
          return if ok then Ok(()) else Err(CreateFailed);
        } else {
          return Err(NoConfiguration);
        }
      case DeleteNamespace =>
        var deleted := kernel.DeleteNamespace(c.name);
        if deleted.Err? {
          return Err(DeleteFailed);
        }
        namespaceStates := namespaceStates - {c.name};
        return Ok(());
    }

    method PerformMaintenance(now: nat)
      modifies this`namespaceStates
      ensures View() == Maintained(old(View()), now)
    {
      var all := set n | n in namespaceStates && Stale(namespaceStates[n], now);
      var todo := all;
      ghost var before := namespaceStates;
      assert all - todo == {};
      WithoutNone(before);
      while todo != {}
        invariant todo <= all
        invariant namespaceStates == Without(before, all - todo)
        decreases |todo|
      {
        var n :| n in todo;
        VisitedOneMore(all, todo, n);
        WithoutOneMore(before, all - todo, n);
        namespaceStates := namespaceStates - {n};
        todo := todo - {n};
      }
      assert all - todo == all;
    }

    /** Counts the tracked entries by status; every entry falls in exactly one count. */
    method GetStateStats() returns (s: StateStats)
      ensures Tallied(s, namespaceStates)
      ensures s.total == |namespaceStates|
    {
      s := StateStats(|namespaceStates|, 0, 0, 0, 0);
      var todo := namespaceStates.Keys;
      ghost var done: map<Name, NsState> := map[];
      while todo != {}
        invariant todo <= namespaceStates.Keys
        invariant done == Without(namespaceStates, todo)
        invariant s.total == |namespaceStates|
        invariant Tallied(s, done)
        decreases |todo|
      {
        var n :| n in todo;
        var st := namespaceStates[n];
        TalliedAfterOne(s, done, n, st);
        DoneAfterOne(namespaceStates, todo, n);
        match st.status {
          case Active => s := s.(active := s.active + 1);
          case Creating => s := s.(creating := s.creating + 1);
          case Deleting => s := s.(deleting := s.deleting + 1);
          case Failed => s := s.(failed := s.failed + 1);
        }
        done := done[n := st];
        todo := todo - {n};
      }
      assert done == namespaceStates;
    }
  }
}
