/**
 What repeated synchronization achieves: results that do not depend on iteration order, a
 second synchronization that finds nothing left to do, and convergence of the table and the
 kernel to the configuration once the reported conflicts are resolved.
 */
module Convergence {
  import opened Wrappers
  import opened Listing
  import opened Names
  import opened Config
  import opened Kernel
  import opened Reconcile

  // ----- one synchronization -----

  /** Two synchronizations of the same world agree on everything but list order and new ids. */
  lemma SyncOrderIndependent(
    cfg: ConfigView, now: nat, w: World, w1: World, r1: SyncResult, w2: World, r2: SyncResult)
    requires Synced(cfg, now, w, w1, r1) && Synced(cfg, now, w, w2, r2)
    ensures w1.states == w2.states && w1.lastSync == w2.lastSync
    ensures w1.kernel.namespaces.Keys == w2.kernel.namespaces.Keys
    ensures w1.kernel.nextId == w2.kernel.nextId
    ensures forall n | n in w1.kernel.namespaces ::
              w1.kernel.namespaces[n] == w2.kernel.namespaces[n].(id := w1.kernel.namespaces[n].id)
    ensures multiset(r1.created) == multiset(r2.created) && multiset(r1.updated) == multiset(r2.updated)
    ensures multiset(r1.deleted) == multiset(r2.deleted) && multiset(r1.errors) == multiset(r2.errors)
    ensures multiset(r1.conflicts) == multiset(r2.conflicts)
  {
    forall n | n in w1.kernel.namespaces
      ensures w1.kernel.namespaces[n] == w2.kernel.namespaces[n].(id := w1.kernel.namespaces[n].id)
    {
      var created := Having(cfg, w, cfg.entries.Keys, Created);
      if n in created {
        assert NewIn(w.kernel, w1.kernel, n) && NewIn(w.kernel, w2.kernel, n);
      } else {
        assert n in w.kernel.namespaces;
      }
    }
  }

  lemma HavingNone(cfg: ConfigView, w: World)
    ensures forall o :: Having(cfg, w, {}, o) == {}
  {
  }

  lemma HavingSize(cfg: ConfigView, w: World, ns: set<Name>, n: Name, o: Outcome)
    requires ns <= cfg.entries.Keys && n in ns
    ensures |Having(cfg, w, ns, o)|
         == |Having(cfg, w, ns - {n}, o)| + (if OutcomeOf(cfg, w, n) == o then 1 else 0)
  {
    HavingAfterOne(cfg, w, ns - {n}, n, o);
    assert ns - {n} + {n} == ns;
  }

  lemma {:induction false} VerdictSizes(cfg: ConfigView, w: World, ns: set<Name>)
    requires ns <= cfg.entries.Keys
    ensures |Having(cfg, w, ns, Created)| + |Having(cfg, w, ns, Updated)| + |Having(cfg, w, ns, Errored)|
            + |Having(cfg, w, ns, Conflicted)| + |Having(cfg, w, ns, NoChange)| == |ns|
    decreases |ns|
  {
    if ns == {} {
      HavingNone(cfg, w);
    } else {
      var n :| n in ns;
      VerdictSizes(cfg, w, ns - {n});
      HavingSize(cfg, w, ns, n, Created);
      HavingSize(cfg, w, ns, n, Updated);
      HavingSize(cfg, w, ns, n, Errored);
      HavingSize(cfg, w, ns, n, Conflicted);
      HavingSize(cfg, w, ns, n, NoChange);
    }
  }

  lemma {:induction false} FailuresSize(ns: set<Name>)
    ensures |Failures(ns)| == |ns|
    decreases |ns|
  {
    if ns != {} {
      var n :| n in ns;
      FailuresSize(ns - {n});
      assert Failures(ns) == Failures(ns - {n}) + {ProcessFailed(n)};
    } else {
      assert Failures(ns) == {};
    }
  }

  /** The verdicts partition the configured names, so the lists and the silent rest add up. */
  lemma VerdictsPartition(cfg: ConfigView, now: nat, w: World, w': World, r: SyncResult)
    requires Synced(cfg, now, w, w', r)
    ensures var c := cfg.entries.Keys;
            |r.created| + |r.updated| + |r.errors| + |Having(cfg, w, c, Conflicted)|
            + |Having(cfg, w, c, NoChange)| == |c|
  {
    var c := cfg.entries.Keys;
    CountsAgree(r.created, Having(cfg, w, c, Created));
    CountsAgree(r.updated, Having(cfg, w, c, Updated));
    CountsAgree(r.errors, Failures(Having(cfg, w, c, Errored)));
    FailuresSize(Having(cfg, w, c, Errored));
    VerdictSizes(cfg, w, c);
  }

  lemma {:induction false} ConflictsSize(ns: set<Name>, res: Resolution)
    ensures |Conflicts(ns, res)| == |ns|
    decreases |ns|
  {
    if ns != {} {
      var n :| n in ns;
      ConflictsSize(ns - {n}, res);
      assert Conflicts(ns, res) == Conflicts(ns - {n}, res) + {Conflict(n, res)};
    } else {
      assert Conflicts(ns, res) == {};
    }
  }

  /** Conflicts are the tracked names the kernel lost and the managed names without a file. */
  lemma ConflictsCount(cfg: ConfigView, now: nat, w: World, w': World, r: SyncResult)
    requires Synced(cfg, now, w, w', r)
    ensures |r.conflicts| == |Having(cfg, w, cfg.entries.Keys, Conflicted)|
                             + |Managed(cfg.prefix, w.kernel) - cfg.entries.Keys|
  {
    var missing := Having(cfg, w, cfg.entries.Keys, Conflicted);
    var stray := Managed(cfg.prefix, w.kernel) - cfg.entries.Keys;
    var a, b := Conflicts(missing, CreateNamespace), Conflicts(stray, DeleteNamespace);
    CountsAgree(r.conflicts, a + b);
    ConflictsSize(missing, CreateNamespace);
    ConflictsSize(stray, DeleteNamespace);
    assert a !! b;
  }

  lemma SyncConsistent(cfg: ConfigView, now: nat, w: World, w': World, r: SyncResult)
    requires Synced(cfg, now, w, w', r) && Consistent(w.kernel)
    ensures Consistent(w'.kernel)
  {
    GrownConsistent(w.kernel, w'.kernel, Having(cfg, w, cfg.entries.Keys, Created));
  }

  lemma ResolveConsistent(w: World, c: Conflict, cfg: ConfigView, now: nat)
    requires Consistent(w.kernel)
    ensures Consistent(Resolve(w, c, cfg, now).kernel)
  {
  }

  /** The table tracks the configured and the still managed names. */
  lemma SyncTracks(cfg: ConfigView, now: nat, w: World, w': World, r: SyncResult)
    requires Synced(cfg, now, w, w', r)
    ensures w'.states.Keys == cfg.entries.Keys + w.states.Keys * Managed(cfg.prefix, w.kernel)
  {
  }

  /** What is reported as deleted is what left the table. */
  lemma SyncDrops(cfg: ConfigView, now: nat, w: World, w': World, r: SyncResult)
    requires Synced(cfg, now, w, w', r)
    ensures forall n :: n in r.deleted <==> n in w.states && n !in w'.states
  {
    var dropped := w.states.Keys - cfg.entries.Keys - Managed(cfg.prefix, w.kernel);
    ListsMembers(r.deleted, dropped);
    forall n ensures n in r.deleted <==> n in w.states && n !in w'.states {
      assert n in r.deleted <==> n in dropped;
      assert n in w'.states <==> n in Kept(cfg, w);
    }
  }

  lemma CreatedMembers(cfg: ConfigView, now: nat, w: World, w': World, r: SyncResult)
    requires Synced(cfg, now, w, w', r)
    ensures forall n :: n in r.created <==> n in cfg.entries && OutcomeOf(cfg, w, n) == Created
  {
    var created := Having(cfg, w, cfg.entries.Keys, Created);
    ListsMembers(r.created, created);
    forall n ensures n in r.created <==> n in cfg.entries && OutcomeOf(cfg, w, n) == Created {
      assert n in r.created <==> n in created;
    }
  }

  /** The kernel only grows, by exactly the names reported as created. */
  lemma SyncOnlyCreates(cfg: ConfigView, now: nat, w: World, w': World, r: SyncResult)
    requires Synced(cfg, now, w, w', r)
    ensures forall n :: n in w'.kernel.namespaces <==> n in w.kernel.namespaces || n in r.created
    ensures forall n | n in w.kernel.namespaces :: w'.kernel.namespaces[n] == w.kernel.namespaces[n]
    ensures forall n | n in r.created :: n in cfg.entries && n !in w.kernel.namespaces && ValidName(n)
  {
    CreatedMembers(cfg, now, w, w', r);
    forall n ensures n in w'.kernel.namespaces <==> n in w.kernel.namespaces || n in r.created {
      assert n in w'.kernel.namespaces.Keys <==>
             n in w.kernel.namespaces.Keys + Having(cfg, w, cfg.entries.Keys, Created);
    }
  }

  // ----- the synchronization after a synchronization -----

  /** Configured namespaces that exist and whose file carries a second later than now. */
  function FutureFiles(cfg: ConfigView, k: KernelView, now: nat): set<Name> {
    set n | n in cfg.entries && n in k.namespaces && Seconds(cfg.entries[n].lastModified) > Seconds(now)
  }

  /** The verdict on a name in the second synchronization, from its verdict in the first. */
  lemma VerdictAgain(cfg: ConfigView, now: nat, w: World, w': World, r: SyncResult, n: Name)
    requires Prefixed(cfg) && Consistent(w.kernel)
    requires Synced(cfg, now, w, w', r)
    requires n in cfg.entries
    ensures OutcomeOf(cfg, w, n) in {Conflicted, Errored} ==> OutcomeOf(cfg, w', n) == Conflicted
    ensures OutcomeOf(cfg, w, n) !in {Conflicted, Errored} ==>
              && n in w'.kernel.namespaces
              && OutcomeOf(cfg, w', n) == if n in FutureFiles(cfg, w'.kernel, now) then Updated else NoChange
  {
    var created := Having(cfg, w, cfg.entries.Keys, Created);
    assert w'.states[n] == EntryAfter(cfg, w, now, n);
    assert n in w'.kernel.namespaces <==> n in w.kernel.namespaces || n in created;
    if OutcomeOf(cfg, w, n) == Created {
      assert NewIn(w.kernel, w'.kernel, n);
    }
  }

  lemma NothingListed<T>(s: seq<T>)
    requires Lists(s, {})
    ensures s == []
  {
    ListsMembers(s, {});
  }

  lemma NoneHaving(cfg: ConfigView, w: World, o: Outcome, s: seq<Name>)
    requires Lists(s, Having(cfg, w, cfg.entries.Keys, o))
    requires forall n | n in cfg.entries :: OutcomeOf(cfg, w, n) != o
    ensures s == [] && Having(cfg, w, cfg.entries.Keys, o) == {}
  {
    assert Having(cfg, w, cfg.entries.Keys, o) == {};
    NothingListed(s);
  }

  lemma NoneFailed(cfg: ConfigView, w: World, s: seq<SyncError>)
    requires Lists(s, Failures(Having(cfg, w, cfg.entries.Keys, Errored)))
    requires forall n | n in cfg.entries :: OutcomeOf(cfg, w, n) != Errored
    ensures s == []
  {
    assert Failures(Having(cfg, w, cfg.entries.Keys, Errored)) == {};
    NothingListed(s);
  }

  lemma CreatesNothing(
    cfg: ConfigView, now: nat, w: World, w1: World, r1: SyncResult,
    created: seq<Name>, errors: seq<SyncError>)
    requires Prefixed(cfg) && Consistent(w.kernel)
    requires Synced(cfg, now, w, w1, r1)
    requires Lists(created, Having(cfg, w1, cfg.entries.Keys, Created))
    requires Lists(errors, Failures(Having(cfg, w1, cfg.entries.Keys, Errored)))
    ensures created == [] && errors == []
  {
    forall n | n in cfg.entries ensures OutcomeOf(cfg, w1, n) !in {Created, Errored} {
      VerdictAgain(cfg, now, w, w1, r1, n);
    }
    NoneHaving(cfg, w1, Created, created);
    NoneFailed(cfg, w1, errors);
  }

  lemma UpdatesAgain(cfg: ConfigView, now: nat, w: World, w1: World, r1: SyncResult)
    requires Prefixed(cfg) && Consistent(w.kernel)
    requires Synced(cfg, now, w, w1, r1)
    ensures Having(cfg, w1, cfg.entries.Keys, Updated) == FutureFiles(cfg, w1.kernel, now)
  {
    forall n | n in cfg.entries
      ensures OutcomeOf(cfg, w1, n) == Updated <==> n in FutureFiles(cfg, w1.kernel, now)
    {
      VerdictAgain(cfg, now, w, w1, r1, n);
    }
  }

  lemma GrownByNothing(k0: KernelView, k1: KernelView)
    requires Grown(k0, k1, {})
    ensures k1 == k0
  {
    assert k1.namespaces == k0.namespaces;
  }

  lemma KernelUnchanged(
    cfg: ConfigView, now: nat, w: World, w1: World, r1: SyncResult, later: nat, w2: World, r2: SyncResult)
    requires Prefixed(cfg) && Consistent(w.kernel)
    requires Synced(cfg, now, w, w1, r1) && Synced(cfg, later, w1, w2, r2)
    ensures w2.kernel == w1.kernel
  {
    forall n | n in cfg.entries ensures OutcomeOf(cfg, w1, n) != Created {
      VerdictAgain(cfg, now, w, w1, r1, n);
    }
    assert Having(cfg, w1, cfg.entries.Keys, Created) == {};
    GrownByNothing(w1.kernel, w2.kernel);
  }

  lemma StrayUnchanged(cfg: ConfigView, now: nat, w: World, w': World, r: SyncResult)
    requires Synced(cfg, now, w, w', r)
    ensures Managed(cfg.prefix, w'.kernel) - cfg.entries.Keys == Managed(cfg.prefix, w.kernel) - cfg.entries.Keys
    ensures Managed(cfg.prefix, w.kernel) <= Managed(cfg.prefix, w'.kernel)
  {
  }

  lemma NoneDropped(
    cfg: ConfigView, now: nat, w: World, w1: World, r1: SyncResult, later: nat, w2: World, r2: SyncResult)
    requires Synced(cfg, now, w, w1, r1) && Synced(cfg, later, w1, w2, r2)
    ensures r2.deleted == []
  {
    SyncTracks(cfg, now, w, w1, r1);
    StrayUnchanged(cfg, now, w, w1, r1);
    assert w1.states.Keys - cfg.entries.Keys - Managed(cfg.prefix, w1.kernel) == {};
    NothingListed(r2.deleted);
  }

  lemma HavingUnion(cfg: ConfigView, w1: World, w: World)
    requires forall n | n in cfg.entries ::
               OutcomeOf(cfg, w1, n) == Conflicted <==> OutcomeOf(cfg, w, n) in {Conflicted, Errored}
    ensures Having(cfg, w1, cfg.entries.Keys, Conflicted)
         == Having(cfg, w, cfg.entries.Keys, Conflicted) + Having(cfg, w, cfg.entries.Keys, Errored)
  {
  }

  lemma MissingAgain(cfg: ConfigView, now: nat, w: World, w1: World, r1: SyncResult)
    requires Prefixed(cfg) && Consistent(w.kernel)
    requires Synced(cfg, now, w, w1, r1)
    ensures Having(cfg, w1, cfg.entries.Keys, Conflicted)
         == Having(cfg, w, cfg.entries.Keys, Conflicted) + Having(cfg, w, cfg.entries.Keys, Errored)
  {
    forall n | n in cfg.entries
      ensures OutcomeOf(cfg, w1, n) == Conflicted <==> OutcomeOf(cfg, w, n) in {Conflicted, Errored}
    {
      VerdictAgain(cfg, now, w, w1, r1, n);
    }
    HavingUnion(cfg, w1, w);
  }

  lemma ConflictSum(missing: set<Name>, failed: set<Name>, stray: set<Name>)
    requires missing !! failed
    ensures multiset(Conflicts(missing + failed, CreateNamespace) + Conflicts(stray, DeleteNamespace))
         == multiset(Conflicts(missing, CreateNamespace) + Conflicts(stray, DeleteNamespace))
            + multiset(Conflicts(failed, CreateNamespace))
  {
    assert Conflicts(missing + failed, CreateNamespace)
        == Conflicts(missing, CreateNamespace) + Conflicts(failed, CreateNamespace);
    assert Conflicts(failed, CreateNamespace)
        !! (Conflicts(missing, CreateNamespace) + Conflicts(stray, DeleteNamespace));
  }

  lemma ConflictsAgain(
    cfg: ConfigView, now: nat, w: World, w1: World, r1: SyncResult, again: seq<Conflict>)
    requires Prefixed(cfg) && Consistent(w.kernel)
    requires Synced(cfg, now, w, w1, r1)
    requires Lists(again, Conflicts(Having(cfg, w1, cfg.entries.Keys, Conflicted), CreateNamespace)
                          + Conflicts(Managed(cfg.prefix, w1.kernel) - cfg.entries.Keys, DeleteNamespace))
    ensures multiset(again) == multiset(r1.conflicts)
                               + multiset(Conflicts(Having(cfg, w, cfg.entries.Keys, Errored), CreateNamespace))
  {
    var c := cfg.entries.Keys;
    MissingAgain(cfg, now, w, w1, r1);
    assert Having(cfg, w, c, Conflicted) !! Having(cfg, w, c, Errored);
    StrayUnchanged(cfg, now, w, w1, r1);
    ConflictSum(Having(cfg, w, c, Conflicted), Having(cfg, w, c, Errored), Managed(cfg.prefix, w.kernel) - c);
  }

  /**
   A second synchronization creates, drops and fails nothing. What it updates again are
   exactly the files dated after the first one, and its conflicts are the first one's plus
   one for each creation that failed in the first.
   */
  lemma Quiescence(
    cfg: ConfigView, now: nat, later: nat, w: World, w1: World, r1: SyncResult, w2: World, r2: SyncResult)
    requires Prefixed(cfg) && Consistent(w.kernel)
    requires Synced(cfg, now, w, w1, r1) && Synced(cfg, later, w1, w2, r2)
    ensures r2.created == [] && r2.deleted == [] && r2.errors == []
    ensures Lists(r2.updated, FutureFiles(cfg, w1.kernel, now))
    ensures multiset(r2.conflicts) == multiset(r1.conflicts)
                                      + multiset(Conflicts(Having(cfg, w, cfg.entries.Keys, Errored), CreateNamespace))
    ensures w2.kernel == w1.kernel
  {
    CreatesNothing(cfg, now, w, w1, r1, r2.created, r2.errors);
    NoneDropped(cfg, now, w, w1, r1, later, w2, r2);
    UpdatesAgain(cfg, now, w, w1, r1);
    ConflictsAgain(cfg, now, w, w1, r1, r2.conflicts);
    KernelUnchanged(cfg, now, w, w1, r1, later, w2, r2);
  }

  // ----- resolving every conflict -----

  function ResolveAll(w: World, cs: seq<Conflict>, cfg: ConfigView, times: seq<nat>): World
    requires |times| == |cs|
    decreases |cs|
  {
    if cs == [] then w
    else ResolveAll(Resolve(w, cs[0], cfg, times[0]), cs[1..], cfg, times[1..])
  }

  function Tracked(w: World, n: Name): Option<NsState> {
    if n in w.states then Some(w.states[n]) else None
  }

  predicate Exists(w: World, n: Name) {
    n in w.kernel.namespaces
  }

  ghost predicate SameAt(w: World, w': World, n: Name) {
    Tracked(w, n) == Tracked(w', n) && Exists(w, n) == Exists(w', n)
  }

  /** Resolving a conflict touches its own name only, and looks at that name only. */
  lemma ResolveIsLocal(w: World, w': World, c: Conflict, cfg: ConfigView, now: nat)
    requires Keyed(cfg)
    ensures forall n | n != c.name :: SameAt(w, Resolve(w, c, cfg, now), n)
    ensures SameAt(w, w', c.name) ==> SameAt(Resolve(w, c, cfg, now), Resolve(w', c, cfg, now), c.name)
  {
  }

  ghost predicate DistinctNames(cs: seq<Conflict>) {
    forall i, j | 0 <= i < j < |cs| :: cs[i].name != cs[j].name
  }

  ghost predicate Mentions(cs: seq<Conflict>, n: Name) {
    exists i | 0 <= i < |cs| :: cs[i].name == n
  }

  /** Resolving many conflicts on distinct names does to each what resolving it alone would. */
  lemma {:induction false} ResolveAllPointwise(w: World, cs: seq<Conflict>, cfg: ConfigView, times: seq<nat>)
    requires Keyed(cfg) && DistinctNames(cs) && |times| == |cs|
    ensures forall n | !Mentions(cs, n) :: SameAt(w, ResolveAll(w, cs, cfg, times), n)
    ensures forall i | 0 <= i < |cs| ::
              SameAt(Resolve(w, cs[i], cfg, times[i]), ResolveAll(w, cs, cfg, times), cs[i].name)
    decreases |cs|
  {
    if cs == [] {
    } else {
      var w1 := Resolve(w, cs[0], cfg, times[0]);
      var rest, end := cs[1..], ResolveAll(w, cs, cfg, times);
      ResolveAllPointwise(w1, rest, cfg, times[1..]);
      ResolveIsLocal(w, w1, cs[0], cfg, times[0]);
      assert !Mentions(rest, cs[0].name);
      forall n | !Mentions(cs, n) ensures SameAt(w, end, n) {
        assert cs[0].name != n;
        assert SameAt(w, w1, n);
        forall i | 0 <= i < |rest| ensures rest[i].name != n {
          assert rest[i] == cs[i + 1];
        }
        assert !Mentions(rest, n);
      }
      forall i | 0 <= i < |cs| ensures SameAt(Resolve(w, cs[i], cfg, times[i]), end, cs[i].name) {
        if i > 0 {
          ResolveIsLocal(w, w1, cs[i], cfg, times[i]);
          assert rest[i - 1] == cs[i] && times[1..][i - 1] == times[i];
        }
      }
    }
  }

  lemma {:induction false} ResolveAllConsistent(w: World, cs: seq<Conflict>, cfg: ConfigView, times: seq<nat>)
    requires |times| == |cs| && Consistent(w.kernel)
    ensures Consistent(ResolveAll(w, cs, cfg, times).kernel)
    decreases |cs|
  {
    if cs == [] {
    } else {
      ResolveConsistent(w, cs[0], cfg, times[0]);
      ResolveAllConsistent(Resolve(w, cs[0], cfg, times[0]), cs[1..], cfg, times[1..]);
    }
  }

  // ----- convergence -----

  /** Every time lies in or after the second of every file. */
  ghost predicate PastFiles(cfg: ConfigView, now: nat) {
    forall n | n in cfg.entries :: Seconds(cfg.entries[n].lastModified) <= Seconds(now)
  }

  /** The names that must change hands can be created, or deleted, under their own name. */
  ghost predicate Reachable(cfg: ConfigView, w: World) {
    && (forall n | n in cfg.entries && n !in w.kernel.namespaces :: ValidName(n))
    && (forall n | n in Managed(cfg.prefix, w.kernel) && n !in cfg.entries :: ValidName(n))
  }

  /** cs resolves each conflict of the synchronization w to w1 once, and ends in w2. */
  ghost predicate Settled(
    cfg: ConfigView, now: nat, w: World, w1: World, r1: SyncResult,
    cs: seq<Conflict>, times: seq<nat>, w2: World)
  {
    && Keyed(cfg) && Prefixed(cfg) && Consistent(w.kernel)
    && Synced(cfg, now, w, w1, r1)
    && multiset(cs) == multiset(r1.conflicts)
    && |times| == |cs|
    && PastFiles(cfg, now)
    && (forall t | t in times :: PastFiles(cfg, t))
    && w2 == ResolveAll(w1, cs, cfg, times)
  }

  lemma ListedConflicts(cs: seq<Conflict>, missing: set<Name>, stray: set<Name>)
    requires missing !! stray
    requires Lists(cs, Conflicts(missing, CreateNamespace) + Conflicts(stray, DeleteNamespace))
    ensures forall c :: c in cs <==>
              || (c.resolution == CreateNamespace && c.name in missing)
              || (c.resolution == DeleteNamespace && c.name in stray)
    ensures DistinctNames(cs)
  {
    ListsMembers(cs, Conflicts(missing, CreateNamespace) + Conflicts(stray, DeleteNamespace));
    forall i, j | 0 <= i < j < |cs| ensures cs[i].name != cs[j].name {
      assert cs[i] in cs && cs[j] in cs && cs[i] != cs[j];
    }
  }

  lemma SettledConflicts(
    cfg: ConfigView, now: nat, w: World, w1: World, r1: SyncResult,
    cs: seq<Conflict>, times: seq<nat>, w2: World)
    requires Settled(cfg, now, w, w1, r1, cs, times, w2)
    ensures forall c :: c in cs <==>
              || (c.resolution == CreateNamespace && c.name in Having(cfg, w, cfg.entries.Keys, Conflicted))
              || (c.resolution == DeleteNamespace && c.name in Managed(cfg.prefix, w.kernel) - cfg.entries.Keys)
    ensures DistinctNames(cs)
  {
    var missing := Having(cfg, w, cfg.entries.Keys, Conflicted);
    var stray := Managed(cfg.prefix, w.kernel) - cfg.entries.Keys;
    SameList(r1.conflicts, cs, Conflicts(missing, CreateNamespace) + Conflicts(stray, DeleteNamespace));
    ListedConflicts(cs, missing, stray);
  }

  lemma {:induction false} ConflictIndex(cs: seq<Conflict>, c: Conflict) returns (i: nat)
    requires c in cs
    ensures i < |cs| && cs[i] == c
  {
    i :| i < |cs| && cs[i] == c;
  }

  /** After the resolutions a configured name is tracked, and up to date where it exists. */
  lemma ConfiguredAfterResolution(
    cfg: ConfigView, now: nat, w: World, w1: World, r1: SyncResult,
    cs: seq<Conflict>, times: seq<nat>, w2: World, n: Name)
    requires Settled(cfg, now, w, w1, r1, cs, times, w2)
    requires n in cfg.entries
    ensures Exists(w2, n) <==> Exists(w, n) || ValidName(n)
    ensures n in w2.states
    ensures Exists(w2, n) ==> w2.states[n].lastUpdated >= Seconds(cfg.entries[n].lastModified)
  {
    SettledConflicts(cfg, now, w, w1, r1, cs, times, w2);
    ResolveAllPointwise(w1, cs, cfg, times);
    assert w1.states[n] == EntryAfter(cfg, w, now, n);
    assert Exists(w1, n) <==> Exists(w, n) || OutcomeOf(cfg, w, n) == Created;
    var c := Conflict(n, CreateNamespace);
    if OutcomeOf(cfg, w, n) == Conflicted {
      var i := ConflictIndex(cs, c);
      assert SameAt(Resolve(w1, c, cfg, times[i]), w2, cs[i].name);
      assert PastFiles(cfg, times[i]);
    } else {
      forall i | 0 <= i < |cs| ensures cs[i].name != n {
        assert cs[i] in cs;
      }
      assert SameAt(w1, w2, n);
    }
  }

  lemma StrayAfterSync(cfg: ConfigView, now: nat, w: World, w1: World, r1: SyncResult, n: Name)
    requires Synced(cfg, now, w, w1, r1)
    requires n !in cfg.entries && MatchesPrefix(cfg.prefix, n)
    ensures Exists(w1, n) <==> Exists(w, n)
    ensures !Exists(w, n) ==> n !in w1.states
  {
  }

  lemma DeletedOrKept(w: World, cfg: ConfigView, now: nat, n: Name)
    requires Exists(w, n)
    ensures var w' := Resolve(w, Conflict(n, DeleteNamespace), cfg, now);
            && (Exists(w', n) <==> !ValidName(n))
            && (!Exists(w', n) ==> n !in w'.states)
  {
  }

  /** After the resolutions an unconfigured managed name is gone, unless it cannot be deleted. */
  lemma StrayAfterResolution(
    cfg: ConfigView, now: nat, w: World, w1: World, r1: SyncResult,
    cs: seq<Conflict>, times: seq<nat>, w2: World, n: Name)
    requires Settled(cfg, now, w, w1, r1, cs, times, w2)
    requires n !in cfg.entries && MatchesPrefix(cfg.prefix, n)
    ensures Exists(w2, n) <==> Exists(w, n) && !ValidName(n)
    ensures !Exists(w2, n) ==> n !in w2.states
  {
    SettledConflicts(cfg, now, w, w1, r1, cs, times, w2);
    ResolveAllPointwise(w1, cs, cfg, times);
    StrayAfterSync(cfg, now, w, w1, r1, n);
    var c := Conflict(n, DeleteNamespace);
    if Exists(w, n) {
      var i := ConflictIndex(cs, c);
      assert SameAt(Resolve(w1, c, cfg, times[i]), w2, cs[i].name);
      DeletedOrKept(w1, cfg, times[i], n);
    } else {
      forall i | 0 <= i < |cs| ensures cs[i].name != n {
        assert cs[i] in cs;
      }
      assert SameAt(w1, w2, n);
    }
  }

  /** With every hand-over possible, the resolved world has nothing left to reconcile. */
  lemma InStep(cfg: ConfigView, w: World, w2: World)
    requires Prefixed(cfg) && Consistent(w2.kernel) && Reachable(cfg, w)
    requires forall n | n in cfg.entries ::
               && n in w2.states
               && (Exists(w2, n) <==> Exists(w, n) || ValidName(n))
               && (Exists(w2, n) ==> w2.states[n].lastUpdated >= Seconds(cfg.entries[n].lastModified))
    requires forall n | n !in cfg.entries && MatchesPrefix(cfg.prefix, n) ::
               && (Exists(w2, n) <==> Exists(w, n) && !ValidName(n))
               && (!Exists(w2, n) ==> n !in w2.states)
    requires forall n | n in w2.states :: n in cfg.entries || MatchesPrefix(cfg.prefix, n)
    ensures Managed(cfg.prefix, w2.kernel) == cfg.entries.Keys
    ensures forall n | n in cfg.entries :: OutcomeOf(cfg, w2, n) == NoChange
    ensures w2.states.Keys <= cfg.entries.Keys
  {
    forall n | n in cfg.entries ensures OutcomeOf(cfg, w2, n) == NoChange {
      assert Exists(w2, n);
    }
    forall n | n !in cfg.entries
      ensures n !in Managed(cfg.prefix, w2.kernel) && n !in w2.states
    {
      if MatchesPrefix(cfg.prefix, n) {
        assert Exists(w, n) ==> n in Managed(cfg.prefix, w.kernel);
        assert !Exists(w2, n);
      }
    }
    forall n | n in cfg.entries ensures n in Managed(cfg.prefix, w2.kernel) {
      assert Exists(w2, n);
    }
  }

  lemma TrackedAfterResolution(
    cfg: ConfigView, now: nat, w: World, w1: World, r1: SyncResult,
    cs: seq<Conflict>, times: seq<nat>, w2: World, n: Name)
    requires Settled(cfg, now, w, w1, r1, cs, times, w2)
    requires n in w2.states
    ensures n in cfg.entries || MatchesPrefix(cfg.prefix, n)
  {
    SettledConflicts(cfg, now, w, w1, r1, cs, times, w2);
    ResolveAllPointwise(w1, cs, cfg, times);
    if Mentions(cs, n) {
      var i :| 0 <= i < |cs| && cs[i].name == n;
      assert cs[i] in cs;
    } else {
      assert SameAt(w1, w2, n);
    }
  }

  lemma NeverReached(cfg: ConfigView, w: World, w2: World, later: nat, w3: World, r3: SyncResult)
    requires Prefixed(cfg) && Synced(cfg, later, w2, w3, r3)
    requires forall n | n in cfg.entries && !ValidName(n) :: Exists(w2, n) <==> Exists(w, n)
    requires forall n | n !in cfg.entries && MatchesPrefix(cfg.prefix, n) && Exists(w, n) && !ValidName(n) ::
               Exists(w2, n)
    requires !Reachable(cfg, w)
    ensures Managed(cfg.prefix, w3.kernel) != cfg.entries.Keys
  {
    if n :| n in cfg.entries && n !in w.kernel.namespaces && !ValidName(n) {
      assert n !in Having(cfg, w2, cfg.entries.Keys, Created);
      assert n !in Managed(cfg.prefix, w3.kernel);
    } else {
      var n :| n in Managed(cfg.prefix, w.kernel) && n !in cfg.entries && !ValidName(n);
      assert Exists(w2, n);
      assert n in Managed(cfg.prefix, w3.kernel);
    }
  }

  lemma NoConflicts(cfg: ConfigView, w: World, s: seq<Conflict>)
    requires Lists(s, Conflicts(Having(cfg, w, cfg.entries.Keys, Conflicted), CreateNamespace)
                      + Conflicts(Managed(cfg.prefix, w.kernel) - cfg.entries.Keys, DeleteNamespace))
    requires Managed(cfg.prefix, w.kernel) == cfg.entries.Keys
    requires forall n | n in cfg.entries :: OutcomeOf(cfg, w, n) != Conflicted
    ensures s == []
  {
    assert Conflicts(Having(cfg, w, cfg.entries.Keys, Conflicted), CreateNamespace) == {};
    assert Conflicts(Managed(cfg.prefix, w.kernel) - cfg.entries.Keys, DeleteNamespace) == {};
    NothingListed(s);
  }

  lemma NoneUntracked(cfg: ConfigView, w: World, s: seq<Name>)
    requires Lists(s, w.states.Keys - cfg.entries.Keys - Managed(cfg.prefix, w.kernel))
    requires w.states.Keys <= cfg.entries.Keys
    ensures s == []
  {
    assert w.states.Keys - cfg.entries.Keys - Managed(cfg.prefix, w.kernel) == {};
    NothingListed(s);
  }

  lemma NothingToReport(cfg: ConfigView, now: nat, w: World, w': World, r: SyncResult)
    requires Synced(cfg, now, w, w', r)
    requires Managed(cfg.prefix, w.kernel) == cfg.entries.Keys
    requires forall n | n in cfg.entries :: OutcomeOf(cfg, w, n) == NoChange
    requires w.states.Keys <= cfg.entries.Keys
    ensures r == EMPTY_RESULT
    ensures w'.states.Keys == cfg.entries.Keys
    ensures w'.kernel == w.kernel
  {
    NoneHaving(cfg, w, Created, r.created);
    NoneHaving(cfg, w, Updated, r.updated);
    NoneFailed(cfg, w, r.errors);
    NoConflicts(cfg, w, r.conflicts);
    NoneUntracked(cfg, w, r.deleted);
    GrownByNothing(w.kernel, w'.kernel);
  }

  /**
   Synchronize, resolve each reported conflict once in any order, synchronize again: the
   managed namespaces are then the configured ones if and only if every name that has to be
   created or deleted is valid; in that case the second synchronization reports nothing and
   the table tracks exactly the configured names.
   */
  lemma Converges(
    cfg: ConfigView, now: nat, w: World, w1: World, r1: SyncResult,
    cs: seq<Conflict>, times: seq<nat>, w2: World, later: nat, w3: World, r3: SyncResult)
    requires Settled(cfg, now, w, w1, r1, cs, times, w2)
    requires Synced(cfg, later, w2, w3, r3)
    ensures Managed(cfg.prefix, w3.kernel) == cfg.entries.Keys <==> Reachable(cfg, w)
    ensures Reachable(cfg, w) ==> w3.states.Keys == cfg.entries.Keys && r3 == EMPTY_RESULT
  {
    forall n | n in cfg.entries {
      ConfiguredAfterResolution(cfg, now, w, w1, r1, cs, times, w2, n);
    }
    forall n | n !in cfg.entries && MatchesPrefix(cfg.prefix, n) {
      StrayAfterResolution(cfg, now, w, w1, r1, cs, times, w2, n);
    }
    if Reachable(cfg, w) {
      SyncConsistent(cfg, now, w, w1, r1);
      ResolveAllConsistent(w1, cs, cfg, times);
      forall n | n in w2.states ensures n in cfg.entries || MatchesPrefix(cfg.prefix, n) {
        TrackedAfterResolution(cfg, now, w, w1, r1, cs, times, w2, n);
      }
      InStep(cfg, w, w2);
      NothingToReport(cfg, later, w2, w3, r3);
      SyncTracks(cfg, later, w2, w3, r3);
    } else {
      NeverReached(cfg, w, w2, later, w3, r3);
    }
  }
}
