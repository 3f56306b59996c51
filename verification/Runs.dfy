/**
 Whole runs of the daemon's table: configuration changes, synchronizations, resolutions of
 the latest synchronization's conflicts (each at most once) and maintenance, in any order.
 */
module Runs {
  import opened Wrappers
  import opened Listing
  import opened Names
  import opened Config
  import opened Kernel
  import opened Reconcile
  import Convergence

  /** The system between two operations; pending holds the conflicts still to be resolved. */
  datatype System = System(cfg: ConfigView, w: World, pending: set<Conflict>)

  datatype Op =
    | Reconfigure(cfg: ConfigView)
    | Sync(now: nat, result: SyncResult)
    | SyncWithoutListing(result: SyncResult)
    | ResolveOne(conflict: Conflict, now: nat)
    | Maintain(now: nat)

  ghost predicate Step(s: System, op: Op, s': System) {
    match op
    case Reconfigure(cfg) =>
      cfg.prefix == s.cfg.prefix && Keyed(cfg) && Prefixed(cfg) && s' == s.(cfg := cfg)
    case Sync(now, r) =>
      && Synced(s.cfg, now, s.w, s'.w, r)
      && s'.cfg == s.cfg
      && s'.pending == set c | c in r.conflicts
    case SyncWithoutListing(r) =>
      SyncAborted(s.w, s'.w, r) && s'.cfg == s.cfg && s'.pending == {}
    case ResolveOne(c, now) =>
      && c in s.pending
      && s' == s.(w := Resolve(s.w, c, s.cfg, now), pending := s.pending - {c})
    case Maintain(now) =>
      s' == s.(w := Maintained(s.w, now))
  }

  ghost predicate Run(ss: seq<System>, ops: seq<Op>) {
    && |ss| == |ops| + 1
    && forall i | 0 <= i < |ops| :: Step(ss[i], ops[i], ss[i + 1])
  }

  /** An empty table over any kernel whose ids are in order. */
  ghost predicate Initial(s: System) {
    && Keyed(s.cfg) && Prefixed(s.cfg)
    && Consistent(s.w.kernel)
    && s.w.states == map[]
    && s.pending == {}
  }

  ghost predicate TruthfulAt(states: map<Name, NsState>, k: KernelView, n: Name)
    requires n in states
  {
    || (states[n].status == Active && n in k.namespaces)
    || (states[n].status == Failed && n !in k.namespaces)
  }

  /** The table tells the truth: Active entries exist, Failed ones do not, nothing is in between. */
  ghost predicate Truthful(states: map<Name, NsState>, k: KernelView) {
    forall n | n in states :: TruthfulAt(states, k, n)
  }

  ghost predicate CreationsPossible(pending: set<Conflict>, k: KernelView) {
    forall c | c in pending && c.resolution == CreateNamespace :: c.name !in k.namespaces
  }

  ghost predicate Sound(s: System) {
    && Keyed(s.cfg) && Prefixed(s.cfg)
    && Consistent(s.w.kernel)
    && Truthful(s.w.states, s.w.kernel)
    && CreationsPossible(s.pending, s.w.kernel)
  }

  // ----- the run invariant -----

  lemma EntryTruthful(cfg: ConfigView, now: nat, w: World, n: Name)
    requires Prefixed(cfg) && n in cfg.entries
    requires n in w.states ==> TruthfulAt(w.states, w.kernel, n)
    ensures var st := EntryAfter(cfg, w, now, n);
            var present := n in w.kernel.namespaces || OutcomeOf(cfg, w, n) == Created;
            if present then st.status == Active else st.status == Failed
  {
  }

  lemma SyncTruthfulAt(cfg: ConfigView, now: nat, w: World, w': World, n: Name)
    requires Prefixed(cfg) && Truthful(w.states, w.kernel)
    requires WorldSynced(cfg, now, w, w')
    requires n in w'.states
    ensures TruthfulAt(w'.states, w'.kernel, n)
  {
    var created := Having(cfg, w, cfg.entries.Keys, Created);
    assert n in w'.kernel.namespaces <==> n in w.kernel.namespaces || n in created;
    if n in w.states {
      assert TruthfulAt(w.states, w.kernel, n);
    }
    if n in cfg.entries {
      EntryTruthful(cfg, now, w, n);
    } else {
      assert w'.states[n] == w.states[n] && n !in created;
    }
  }

  lemma SyncTruthful(cfg: ConfigView, now: nat, w: World, w': World, r: SyncResult)
    requires Prefixed(cfg) && Consistent(w.kernel) && Truthful(w.states, w.kernel)
    requires Synced(cfg, now, w, w', r)
    ensures Truthful(w'.states, w'.kernel)
  {
    forall n | n in w'.states ensures TruthfulAt(w'.states, w'.kernel, n) {
      SyncTruthfulAt(cfg, now, w, w', n);
    }
  }

  lemma ConflictedStaysMissing(cfg: ConfigView, now: nat, w: World, w': World, n: Name)
    requires Prefixed(cfg) && WorldSynced(cfg, now, w, w')
    requires n in Having(cfg, w, cfg.entries.Keys, Conflicted)
    ensures n !in w'.kernel.namespaces
  {
    assert n !in Having(cfg, w, cfg.entries.Keys, Created);
  }

  lemma SyncConflictsMissing(cfg: ConfigView, now: nat, w: World, w': World, r: SyncResult)
    requires Prefixed(cfg) && Synced(cfg, now, w, w', r)
    ensures CreationsPossible((set c | c in r.conflicts), w'.kernel)
  {
    var missing := Having(cfg, w, cfg.entries.Keys, Conflicted);
    var stray := Managed(cfg.prefix, w.kernel) - cfg.entries.Keys;
    Convergence.ListedConflicts(r.conflicts, missing, stray);
    forall c | c in r.conflicts && c.resolution == CreateNamespace
      ensures c.name !in w'.kernel.namespaces
    {
      ConflictedStaysMissing(cfg, now, w, w', c.name);
    }
  }

  /**
   Resolving a conflict keeps the table truthful except in exactly one case: creating a
   configured namespace that the kernel already has, which records it as failed.
   */
  lemma ResolveTruthfulIff(w: World, c: Conflict, cfg: ConfigView, now: nat)
    requires Keyed(cfg) && Truthful(w.states, w.kernel)
    ensures var w' := Resolve(w, c, cfg, now);
            Truthful(w'.states, w'.kernel) <==>
            !(c.resolution == CreateNamespace && c.name in cfg.entries && c.name in w.kernel.namespaces)
  {
    var w' := Resolve(w, c, cfg, now);
    if c.resolution == CreateNamespace && c.name in cfg.entries && c.name in w.kernel.namespaces {
      assert w'.states[c.name].status == Failed && c.name in w'.kernel.namespaces;
      assert !TruthfulAt(w'.states, w'.kernel, c.name);
    }
  }

  /** A resolution leaves the other pending creations possible. */
  lemma ResolvePending(s: System, c: Conflict, now: nat)
    requires Keyed(s.cfg) && c in s.pending && CreationsPossible(s.pending, s.w.kernel)
    ensures CreationsPossible(s.pending - {c}, Resolve(s.w, c, s.cfg, now).kernel)
  {
    var w' := Resolve(s.w, c, s.cfg, now);
    forall d | d in s.pending - {c} && d.resolution == CreateNamespace
      ensures d.name !in w'.kernel.namespaces
    {
      assert d.name !in s.w.kernel.namespaces;
      assert c.resolution == CreateNamespace ==> d.name != c.name;
    }
  }

  lemma StepSound(s: System, op: Op, s': System)
    requires Sound(s) && Step(s, op, s')
    ensures Sound(s')
  {
    match op
    case Reconfigure(_) =>
    case Sync(now, r) =>
      SyncTruthful(s.cfg, now, s.w, s'.w, r);
      SyncConflictsMissing(s.cfg, now, s.w, s'.w, r);
      Convergence.SyncConsistent(s.cfg, now, s.w, s'.w, r);
    case SyncWithoutListing(_) =>
    case ResolveOne(c, now) =>
      ResolveTruthfulIff(s.w, c, s.cfg, now);
      ResolvePending(s, c, now);
      Convergence.ResolveConsistent(s.w, c, s.cfg, now);
    case Maintain(_) =>
  }

  /** In every state of every run the table is truthful and simulated ids are distinct and used up. */
  lemma {:induction false} RunSound(ss: seq<System>, ops: seq<Op>, i: nat)
    requires Run(ss, ops) && Initial(ss[0])
    requires i < |ss|
    ensures Sound(ss[i])
  {
    if i == 0 {
    } else {
      RunSound(ss, ops, i - 1);
      assert Step(ss[i - 1], ops[i - 1], ss[i]);
      StepSound(ss[i - 1], ops[i - 1], ss[i]);
    }
  }

  // ----- spacing of retries -----

  /** The operation keeps n configured and does not resolve a conflict on it. */
  predicate LeavesAlone(op: Op, n: Name) {
    match op
    case Reconfigure(cfg) => n in cfg.entries
    case ResolveOne(c, _) => c.name != n
    case _ => true
  }

  /** A synchronization that tried to create n reports it as created or as an error. */
  predicate Attempts(op: Op, n: Name) {
    op.Sync? && (n in op.result.created || ProcessFailed(n) in op.result.errors)
  }

  predicate Expires(op: Op, st: NsState) {
    op.Maintain? && Stale(st, op.now)
  }

  /** n is configured and recorded as failed in entry st, and is not in the kernel. */
  ghost predicate Waiting(s: System, n: Name, st: NsState) {
    && n in s.cfg.entries
    && n in s.w.states && s.w.states[n] == st && st.status == Failed
    && n !in s.w.kernel.namespaces
  }

  lemma AttemptedIff(cfg: ConfigView, now: nat, w: World, w': World, r: SyncResult, n: Name)
    requires Synced(cfg, now, w, w', r)
    ensures Attempts(Sync(now, r), n) <==> n in cfg.entries && OutcomeOf(cfg, w, n) in {Created, Errored}
  {
    Convergence.CreatedMembers(cfg, now, w, w', r);
    var failed := Having(cfg, w, cfg.entries.Keys, Errored);
    ListsMembers(r.errors, Failures(failed));
    assert ProcessFailed(n) in r.errors <==> ProcessFailed(n) in Failures(failed);
  }

  lemma WaitingStep(s: System, op: Op, s': System, n: Name, st: NsState)
    requires Sound(s) && Step(s, op, s') && Waiting(s, n, st)
    requires LeavesAlone(op, n) && !Expires(op, st)
    ensures Waiting(s', n, st) && !Attempts(op, n)
  {
    match op
    case Reconfigure(_) =>
    case Sync(now, r) =>
      AttemptedIff(s.cfg, now, s.w, s'.w, r, n);
      assert OutcomeOf(s.cfg, s.w, n) == Conflicted;
      assert s'.w.states[n] == EntryAfter(s.cfg, s.w, now, n);
      assert n !in Having(s.cfg, s.w, s.cfg.entries.Keys, Created);
    case SyncWithoutListing(_) =>
    case ResolveOne(c, now) =>
      Convergence.ResolveIsLocal(s.w, s.w, c, s.cfg, now);
      assert Convergence.SameAt(s.w, s'.w, n);
    case Maintain(_) =>
  }

  /** As long as no maintenance finds the entry stale, it stays as recorded and is not retried. */
  lemma {:induction false} WaitingRun(ss: seq<System>, ops: seq<Op>, n: Name, st: NsState, i: nat)
    requires Run(ss, ops) && Sound(ss[0]) && Waiting(ss[0], n, st)
    requires i <= |ops|
    requires forall j | 0 <= j < i :: LeavesAlone(ops[j], n) && !Expires(ops[j], st)
    ensures Sound(ss[i]) && Waiting(ss[i], n, st)
    ensures forall j | 0 <= j < i :: !Attempts(ops[j], n)
  {
    if i == 0 {
    } else {
      WaitingRun(ss, ops, n, st, i - 1);
      assert Step(ss[i - 1], ops[i - 1], ss[i]);
      StepSound(ss[i - 1], ops[i - 1], ss[i]);
      WaitingStep(ss[i - 1], ops[i - 1], ss[i], n, st);
    }
  }

  /**
   A failed creation is retried only after a maintenance pass more than an hour past the
   recorded second of failure.
   */
  lemma RetrySpacing(ss: seq<System>, ops: seq<Op>, n: Name, st: NsState, k: nat)
    requires Run(ss, ops) && Sound(ss[0]) && Waiting(ss[0], n, st)
    requires forall j | 0 <= j < |ops| :: LeavesAlone(ops[j], n)
    requires k < |ops| && Attempts(ops[k], n)
    ensures exists j :: 0 <= j < k && ops[j].Maintain?
                        && ops[j].now > st.lastUpdated * NANOS + RETRY_SECONDS * NANOS
    ensures exists j :: 0 <= j < k && Expires(ops[j], st)
  {
    if forall j | 0 <= j < k :: !Expires(ops[j], st) {
      WaitingRun(ss, ops, n, st, k);
      assert !Expires(ops[k], st);
      assert Step(ss[k], ops[k], ss[k + 1]);
      WaitingStep(ss[k], ops[k], ss[k + 1], n, st);
    } else {
      var j :| 0 <= j < k && Expires(ops[j], st);
      assert ops[j].Maintain?;
    }
  }

  /** n is configured but neither tracked nor in the kernel. */
  ghost predicate Vacant(s: System, n: Name) {
    n in s.cfg.entries && n !in s.w.states && n !in s.w.kernel.namespaces
  }

  lemma VacantStep(s: System, op: Op, s': System, n: Name)
    requires Sound(s) && Step(s, op, s') && Vacant(s, n)
    requires LeavesAlone(op, n) && !op.Sync?
    ensures Vacant(s', n)
  {
    if op.ResolveOne? {
      Convergence.ResolveIsLocal(s.w, s.w, op.conflict, s.cfg, op.now);
      assert Convergence.SameAt(s.w, s'.w, n);
    }
  }

  lemma {:induction false} VacantRun(ss: seq<System>, ops: seq<Op>, n: Name, i: nat, k: nat)
    requires Run(ss, ops) && i <= k <= |ops|
    requires Sound(ss[i]) && Vacant(ss[i], n)
    requires forall j | i <= j < k :: LeavesAlone(ops[j], n) && !ops[j].Sync?
    ensures Sound(ss[k]) && Vacant(ss[k], n)
    decreases k
  {
    if k == i {
    } else {
      VacantRun(ss, ops, n, i, k - 1);
      assert Step(ss[k - 1], ops[k - 1], ss[k]);
      StepSound(ss[k - 1], ops[k - 1], ss[k]);
      VacantStep(ss[k - 1], ops[k - 1], ss[k], n);
    }
  }

  /** The next synchronization in a run attempts a vacant name, whatever else comes before it. */
  lemma NextSyncAttempts(ss: seq<System>, ops: seq<Op>, n: Name, i: nat, k: nat)
    requires Run(ss, ops) && i <= k < |ops|
    requires Sound(ss[i]) && Vacant(ss[i], n)
    requires forall j | i <= j < k :: LeavesAlone(ops[j], n) && !ops[j].Sync?
    requires ops[k].Sync?
    ensures Attempts(ops[k], n)
    ensures n in ss[k + 1].w.states && ss[k + 1].w.states[n].status == if ValidName(n) then Active else Failed
  {
    VacantRun(ss, ops, n, i, k);
    var s, s' := ss[k], ss[k + 1];
    assert Step(s, ops[k], s');
    AttemptedIff(s.cfg, ops[k].now, s.w, s'.w, ops[k].result, n);
    assert s'.w.states[n] == EntryAfter(s.cfg, s.w, ops[k].now, n);
  }

  /** Operation m is the first maintenance that finds the entry stale. */
  ghost predicate FirstExpiry(ops: seq<Op>, st: NsState, m: nat) {
    m < |ops| && Expires(ops[m], st) && forall j | 0 <= j < m :: !Expires(ops[j], st)
  }

  /** Operation k is the first synchronization behind operation m. */
  ghost predicate NextSync(ops: seq<Op>, m: nat, k: nat) {
    m < k < |ops| && ops[k].Sync? && forall j | m < j < k :: !ops[j].Sync?
  }

  ghost predicate FirstAttempt(ops: seq<Op>, n: Name, k: nat) {
    k < |ops| && Attempts(ops[k], n) && forall j | 0 <= j < k :: !Attempts(ops[j], n)
  }

  lemma {:induction false} SomeFirstExpiry(ops: seq<Op>, st: NsState, k: nat) returns (m: nat)
    requires k <= |ops| && exists j :: 0 <= j < k && Expires(ops[j], st)
    ensures m < k && FirstExpiry(ops, st, m)
    decreases k
  {
    if forall j | 0 <= j < k - 1 :: !Expires(ops[j], st) {
      m := k - 1;
    } else {
      m := SomeFirstExpiry(ops, st, k - 1);
    }
  }

  lemma {:induction false} SomeNextSync(ops: seq<Op>, m: nat, k: nat) returns (s: nat)
    requires m < k < |ops| && ops[k].Sync?
    ensures s <= k && NextSync(ops, m, s)
    decreases k
  {
    if j: nat :| m < j < k && ops[j].Sync? {
      s := SomeNextSync(ops, m, j);
    } else {
      s := k;
    }
  }

  /** The maintenance that first finds the entry stale leaves the name vacant, unattempted so far. */
  lemma VacantAfterExpiry(ss: seq<System>, ops: seq<Op>, n: Name, st: NsState, m: nat)
    requires Run(ss, ops) && Sound(ss[0]) && Waiting(ss[0], n, st)
    requires forall j | 0 <= j < |ops| :: LeavesAlone(ops[j], n)
    requires FirstExpiry(ops, st, m)
    ensures Sound(ss[m + 1]) && Vacant(ss[m + 1], n)
    ensures forall j | 0 <= j <= m :: !Attempts(ops[j], n)
  {
    WaitingRun(ss, ops, n, st, m);
    assert Step(ss[m], ops[m], ss[m + 1]);
    StepSound(ss[m], ops[m], ss[m + 1]);
  }

  lemma FirstRetryIsAttempted(ss: seq<System>, ops: seq<Op>, n: Name, st: NsState, m: nat, k: nat)
    requires Run(ss, ops) && Sound(ss[0]) && Waiting(ss[0], n, st)
    requires forall j | 0 <= j < |ops| :: LeavesAlone(ops[j], n)
    requires FirstExpiry(ops, st, m) && NextSync(ops, m, k)
    ensures FirstAttempt(ops, n, k)
  {
    VacantAfterExpiry(ss, ops, n, st, m);
    NextSyncAttempts(ss, ops, n, m + 1, k);
  }

  /**
   While its file stays loaded and no conflict on it is resolved, a failed name is first
   attempted again at operation k if and only if k is the first synchronization behind the
   first maintenance pass that finds the failure more than an hour old.
   */
  lemma FirstRetryIff(ss: seq<System>, ops: seq<Op>, n: Name, st: NsState, k: nat)
    requires Run(ss, ops) && Sound(ss[0]) && Waiting(ss[0], n, st)
    requires forall j | 0 <= j < |ops| :: LeavesAlone(ops[j], n)
    ensures FirstAttempt(ops, n, k) <==>
            exists m: nat :: FirstExpiry(ops, st, m) && NextSync(ops, m, k)
  {
    if FirstAttempt(ops, n, k) {
      RetrySpacing(ss, ops, n, st, k);
      var m := SomeFirstExpiry(ops, st, k);
      var s := SomeNextSync(ops, m, k);
      FirstRetryIsAttempted(ss, ops, n, st, m, s);
      assert s == k;
    }
    if m: nat :| FirstExpiry(ops, st, m) && NextSync(ops, m, k) {
      FirstRetryIsAttempted(ss, ops, n, st, m, k);
    }
  }

  /** Maintenance drops a failed entry exactly when it is stale, and the next synchronization retries. */
  lemma RetryAfterDrop(s: System, drop: Op, s1: System, sync: Op, s2: System, n: Name, st: NsState)
    requires Sound(s) && Waiting(s, n, st)
    requires drop.Maintain? && Step(s, drop, s1)
    requires sync.Sync? && Step(s1, sync, s2)
    ensures Attempts(sync, n) <==> Expires(drop, st)
    ensures n !in s1.w.states <==> Expires(drop, st)
    ensures Expires(drop, st) ==>
              n in s2.w.states && s2.w.states[n].status == if ValidName(n) then Active else Failed
  {
    AttemptedIff(s1.cfg, sync.now, s1.w, s2.w, sync.result, n);
    assert s2.w.states[n] == EntryAfter(s1.cfg, s1.w, sync.now, n);
  }
}
