/**
 The effects of the reconciler's operations on one name, field by field: what a report says,
 what becomes of the tracked entry and what becomes of the namespace.
 */
module SyncEffects {
  import opened Wrappers
  import opened Listing
  import opened Names
  import opened Config
  import opened Kernel
  import opened Reconcile
  import Convergence

  // ----- the words of the effects -----

  /** The kernel has the namespace, and its name is the daemon's. */
  ghost predicate ManagedAt(cfg: ConfigView, w: World, n: Name) {
    n in w.kernel.namespaces && Owned(cfg.prefix, n)
  }

  /** The moved interfaces and then the virtual ones, all up or all down. */
  ghost predicate MirrorsInterfaces(shown: seq<InterfaceInfo>, c: NamespaceConfig, active: bool) {
    var moved := |c.moveInterfaces|;
    && |shown| == moved + |c.virtualInterfaces|
    && (forall i | 0 <= i < moved ::
          && shown[i].name == c.moveInterfaces[i] && shown[i].kind == "physical"
          && shown[i].status == if active then "up" else "down")
    && (forall i | 0 <= i < |c.virtualInterfaces| ::
          && shown[moved + i].name == c.virtualInterfaces[i].name
          && shown[moved + i].kind == c.virtualInterfaces[i].kind
          && shown[moved + i].status == if active then "up" else "down")
  }

  /** The listed routes, and then the default gateway if there is one. */
  ghost predicate MirrorsRoutes(shown: seq<RouteInfo>, c: NamespaceConfig) {
    var listed := |c.routes|;
    && |shown| == listed + (if c.defaultGateway.Some? then 1 else 0)
    && (forall i | 0 <= i < listed ::
          && shown[i].destination == c.routes[i].destination && shown[i].gateway == c.routes[i].gateway
          && (c.routes[i].metric.Some? ==> shown[i].metric == c.routes[i].metric.value)
          && (c.routes[i].metric.None? ==> shown[i].metric == 0))
    && (c.defaultGateway.Some? ==>
          && shown[listed].destination == "default"
          && shown[listed].gateway == c.defaultGateway.value && shown[listed].metric == 0)
  }

  /** The entry shows what the file says. */
  ghost predicate Mirrors(d: Details, c: NamespaceConfig, active: bool) {
    && MirrorsInterfaces(d.interfaces, c, active)
    && MirrorsRoutes(d.routes, c)
    && d.dnsServers == c.dnsServers && d.dnsSearch == c.dnsSearch
  }

  /** The entry was made for the file at second s. */
  ghost predicate MadeFor(st: NsState, e: ConfigEntry, s: nat) {
    && st.name == e.config.name && st.fullName == e.fullName && st.configPath == e.filePath
    && st.createdAt == s && st.lastUpdated == s
  }

  /** The same entry but for what an update touches. */
  ghost predicate SameOrigin(st: NsState, st': NsState) {
    st'.name == st.name && st'.fullName == st.fullName && st'.configPath == st.configPath
    && st'.createdAt == st.createdAt
  }

  ghost predicate Blank(d: Details) {
    d.interfaces == [] && d.routes == [] && d.dnsServers == [] && d.dnsSearch == []
  }

  lemma DetailsMirror(c: NamespaceConfig, active: bool)
    ensures Mirrors(DetailsOf(c, active), c, active)
  {
  }

  // ----- what one synchronization reports -----

  /** The file is newer than the entry by at least a second, or the namespace is not active. */
  ghost predicate OutOfDate(cfg: ConfigView, w: World, n: Name)
    requires n in cfg.entries && n in w.states && n in w.kernel.namespaces
  {
    Seconds(cfg.entries[n].lastModified) > w.states[n].lastUpdated || !w.kernel.namespaces[n].active
  }

  lemma VerdictIs(cfg: ConfigView, w: World, n: Name)
    requires n in cfg.entries
    ensures OutcomeOf(cfg, w, n) == Conflicted <==> n in w.states && !ManagedAt(cfg, w, n)
    ensures OutcomeOf(cfg, w, n) == Updated <==>
            ManagedAt(cfg, w, n) && (n in w.states ==> OutOfDate(cfg, w, n))
    ensures OutcomeOf(cfg, w, n) == NoChange <==>
            ManagedAt(cfg, w, n) && n in w.states && !OutOfDate(cfg, w, n)
    ensures OutcomeOf(cfg, w, n) == Created <==>
            n !in w.states && !ManagedAt(cfg, w, n) && ValidName(n) && n !in w.kernel.namespaces
    ensures OutcomeOf(cfg, w, n) == Errored <==>
            n !in w.states && !ManagedAt(cfg, w, n) && !(ValidName(n) && n !in w.kernel.namespaces)
  {
    OwnedIff(cfg.prefix, n);
  }

  /** A name is reported as created, updated or deleted exactly in these cases. */
  lemma ReportedNames(cfg: ConfigView, now: nat, w: World, w': World, r: SyncResult, n: Name)
    requires Synced(cfg, now, w, w', r)
    ensures n in r.created <==>
            && n in cfg.entries && n !in w.states && !ManagedAt(cfg, w, n)
            && ValidName(n) && n !in w.kernel.namespaces
    ensures n in r.updated <==>
            n in cfg.entries && ManagedAt(cfg, w, n) && (n in w.states ==> OutOfDate(cfg, w, n))
    ensures n in r.deleted <==> n in w.states && n !in cfg.entries && !ManagedAt(cfg, w, n)
  {
    var c, m := cfg.entries.Keys, Managed(cfg.prefix, w.kernel);
    ListsMembers(r.created, Having(cfg, w, c, Created));
    ListsMembers(r.updated, Having(cfg, w, c, Updated));
    ListsMembers(r.deleted, w.states.Keys - c - m);
    OwnedIff(cfg.prefix, n);
    assert n in r.created <==> n in Having(cfg, w, c, Created);
    assert n in r.updated <==> n in Having(cfg, w, c, Updated);
    assert n in r.deleted <==> n in w.states.Keys - c - m;
    if n in c {
      VerdictIs(cfg, w, n);
    }
  }

  lemma ConflictMembers(cs: seq<Conflict>, missing: set<Name>, stray: set<Name>, n: Name)
    requires missing !! stray
    requires Lists(cs, Conflicts(missing, CreateNamespace) + Conflicts(stray, DeleteNamespace))
    ensures Conflict(n, CreateNamespace) in cs <==> n in missing
    ensures Conflict(n, DeleteNamespace) in cs <==> n in stray
  {
    Convergence.ListedConflicts(cs, missing, stray);
    assert Conflict(n, CreateNamespace).name == n && Conflict(n, DeleteNamespace).name == n;
  }

  /** A tracked and configured name without its namespace asks for creation, a stray namespace for deletion. */
  lemma ReportedConflicts(cfg: ConfigView, now: nat, w: World, w': World, r: SyncResult, n: Name)
    requires Synced(cfg, now, w, w', r)
    ensures Conflict(n, CreateNamespace) in r.conflicts <==>
            n in cfg.entries && n in w.states && !ManagedAt(cfg, w, n)
    ensures Conflict(n, DeleteNamespace) in r.conflicts <==> n !in cfg.entries && ManagedAt(cfg, w, n)
  {
    var missing := Having(cfg, w, cfg.entries.Keys, Conflicted);
    var stray := Managed(cfg.prefix, w.kernel) - cfg.entries.Keys;
    ConflictMembers(r.conflicts, missing, stray, n);
    MissingOrStray(cfg, w, n);
  }

  lemma MissingOrStray(cfg: ConfigView, w: World, n: Name)
    ensures n in Having(cfg, w, cfg.entries.Keys, Conflicted) <==>
            n in cfg.entries && n in w.states && !ManagedAt(cfg, w, n)
    ensures n in Managed(cfg.prefix, w.kernel) - cfg.entries.Keys <==> n !in cfg.entries && ManagedAt(cfg, w, n)
  {
    OwnedIff(cfg.prefix, n);
    if n in cfg.entries {
      VerdictIs(cfg, w, n);
    }
  }

  /** An error is reported exactly for an untracked configured name that cannot be created. */
  lemma ReportedErrors(cfg: ConfigView, now: nat, w: World, w': World, r: SyncResult, n: Name)
    requires Synced(cfg, now, w, w', r)
    ensures ProcessFailed(n) in r.errors <==>
            && n in cfg.entries && n !in w.states && !ManagedAt(cfg, w, n)
            && !(ValidName(n) && n !in w.kernel.namespaces)
    ensures ListFailed !in r.errors
  {
    var failed := Having(cfg, w, cfg.entries.Keys, Errored);
    ListsMembers(r.errors, Failures(failed));
    assert ProcessFailed(n) in r.errors <==> ProcessFailed(n) in Failures(failed);
    assert ListFailed in r.errors <==> ListFailed in Failures(failed);
    if n in cfg.entries {
      VerdictIs(cfg, w, n);
    }
  }

  ghost predicate Distinct<T>(s: seq<T>) {
    forall i, j | 0 <= i < j < |s| :: s[i] != s[j]
  }

  /** Nothing is reported twice. */
  lemma ReportedOnce(cfg: ConfigView, now: nat, w: World, w': World, r: SyncResult)
    requires Synced(cfg, now, w, w', r)
    ensures Distinct(r.created) && Distinct(r.updated) && Distinct(r.deleted)
    ensures Distinct(r.conflicts) && Distinct(r.errors)
  {
    var c, m := cfg.entries.Keys, Managed(cfg.prefix, w.kernel);
    ListsMembers(r.created, Having(cfg, w, c, Created));
    ListsMembers(r.updated, Having(cfg, w, c, Updated));
    ListsMembers(r.deleted, w.states.Keys - c - m);
    ListsMembers(r.conflicts, Conflicts(Having(cfg, w, c, Conflicted), CreateNamespace)
                              + Conflicts(m - c, DeleteNamespace));
    ListsMembers(r.errors, Failures(Having(cfg, w, c, Errored)));
  }

  // ----- what becomes of one entry -----

  /** Configured names are tracked, other entries stay untouched or go. */
  lemma TrackedAfterSync(cfg: ConfigView, now: nat, w: World, w': World, n: Name)
    requires WorldSynced(cfg, now, w, w')
    ensures n in w'.states <==> n in cfg.entries || (n in w.states && ManagedAt(cfg, w, n))
    ensures n in w'.states && n !in cfg.entries ==> w'.states[n] == w.states[n]
    ensures w'.lastSync == now
  {
    OwnedIff(cfg.prefix, n);
    assert n in w'.states <==> n in Kept(cfg, w);
  }

  /** A created or adopted namespace gets a new active entry that shows what the file says. */
  lemma NewEntry(cfg: ConfigView, now: nat, w: World, w': World, n: Name)
    requires WorldSynced(cfg, now, w, w') && n in cfg.entries && n !in w.states
    requires ManagedAt(cfg, w, n) || (ValidName(n) && n !in w.kernel.namespaces)
    ensures n in w'.states && w'.states[n].status == Active
    ensures MadeFor(w'.states[n], cfg.entries[n], Seconds(now))
    ensures var active := ManagedAt(cfg, w, n) ==> w.kernel.namespaces[n].active;
            Mirrors(w'.states[n].details, cfg.entries[n].config, active)
  {
    VerdictIs(cfg, w, n);
    assert w'.states[n] == EntryAfter(cfg, w, now, n);
    DetailsMirror(cfg.entries[n].config, ManagedAt(cfg, w, n) ==> w.kernel.namespaces[n].active);
  }

  /** A name that cannot be created gets a new failed entry that shows nothing. */
  lemma FailedEntry(cfg: ConfigView, now: nat, w: World, w': World, n: Name)
    requires WorldSynced(cfg, now, w, w') && n in cfg.entries && n !in w.states
    requires !ManagedAt(cfg, w, n) && !(ValidName(n) && n !in w.kernel.namespaces)
    ensures n in w'.states && w'.states[n].status == Failed
    ensures MadeFor(w'.states[n], cfg.entries[n], Seconds(now)) && Blank(w'.states[n].details)
  {
    VerdictIs(cfg, w, n);
    assert w'.states[n] == EntryAfter(cfg, w, now, n);
  }

  /**
   A tracked entry whose namespace exists: out of date it is made to show what the file says
   and becomes active if the namespace is; otherwise only its time changes. Without its
   namespace it stays as it is.
   */
  lemma KnownEntry(cfg: ConfigView, now: nat, w: World, w': World, n: Name)
    requires WorldSynced(cfg, now, w, w') && n in cfg.entries && n in w.states
    ensures n in w'.states && SameOrigin(w.states[n], w'.states[n])
    ensures ManagedAt(cfg, w, n) ==> w'.states[n].lastUpdated == Seconds(now)
    ensures ManagedAt(cfg, w, n) && OutOfDate(cfg, w, n) ==>
              && Mirrors(w'.states[n].details, cfg.entries[n].config, w.kernel.namespaces[n].active)
              && w'.states[n].status == if w.kernel.namespaces[n].active then Active else w.states[n].status
    ensures ManagedAt(cfg, w, n) && !OutOfDate(cfg, w, n) ==>
              w'.states[n].details == w.states[n].details && w'.states[n].status == w.states[n].status
    ensures !ManagedAt(cfg, w, n) ==> w'.states[n] == w.states[n]
  {
    VerdictIs(cfg, w, n);
    assert w'.states[n] == EntryAfter(cfg, w, now, n);
    if ManagedAt(cfg, w, n) {
      DetailsMirror(cfg.entries[n].config, w.kernel.namespaces[n].active);
    }
  }

  // ----- what becomes of one namespace -----

  /** Existing namespaces stay as they are; a created one is active, under its own name and a new id. */
  lemma NamespaceAfterSync(cfg: ConfigView, now: nat, w: World, w': World, r: SyncResult, n: Name)
    requires Synced(cfg, now, w, w', r)
    ensures n in w'.kernel.namespaces <==> n in w.kernel.namespaces || n in r.created
    ensures n in w.kernel.namespaces ==> w'.kernel.namespaces[n] == w.kernel.namespaces[n]
    ensures n in r.created ==>
              var info := w'.kernel.namespaces[n];
              && info.name == n && info.path == "/sim/netns/" + n && info.active
              && w.kernel.nextId <= info.id < w.kernel.nextId + |r.created|
    ensures w'.kernel.nextId == w.kernel.nextId + |r.created|
  {
    var created := Having(cfg, w, cfg.entries.Keys, Created);
    Convergence.SyncOnlyCreates(cfg, now, w, w', r);
    ListsMembers(r.created, created);
    if n in r.created {
      assert n in created && NewIn(w.kernel, w'.kernel, n);
    }
  }

  // ----- the other operations -----

  /** Resolving a missing namespace creates it and a new active entry, or records the failure. */
  lemma ResolvedByCreation(w: World, n: Name, cfg: ConfigView, now: nat)
    requires Keyed(cfg)
    ensures var w' := Resolve(w, Conflict(n, CreateNamespace), cfg, now);
            && w'.lastSync == w.lastSync
            && (n !in cfg.entries ==> w' == w)
            && (n in cfg.entries && ValidName(n) && n !in w.kernel.namespaces ==>
                  && w'.kernel.nextId == w.kernel.nextId + 1
                  && w'.kernel.namespaces == w.kernel.namespaces[
                       n := NamespaceInfo(n, w.kernel.nextId, "/sim/netns/" + n, true)]
                  && w'.states.Keys == w.states.Keys + {n} && w'.states == w.states[n := w'.states[n]]
                  && w'.states[n].status == Active && MadeFor(w'.states[n], cfg.entries[n], Seconds(now))
                  && Mirrors(w'.states[n].details, cfg.entries[n].config, true))
            && (n in cfg.entries && !(ValidName(n) && n !in w.kernel.namespaces) ==>
                  && w'.kernel == w.kernel
                  && w'.states.Keys == w.states.Keys + {n} && w'.states == w.states[n := w'.states[n]]
                  && w'.states[n].status == Failed && MadeFor(w'.states[n], cfg.entries[n], Seconds(now))
                  && Blank(w'.states[n].details))
  {
    if n in cfg.entries {
      DetailsMirror(cfg.entries[n].config, true);
    }
  }

  /** Resolving a stray namespace removes it and its entry, or does nothing when it cannot be deleted. */
  lemma ResolvedByDeletion(w: World, n: Name, cfg: ConfigView, now: nat)
    ensures var w' := Resolve(w, Conflict(n, DeleteNamespace), cfg, now);
            if ValidName(n) && n in w.kernel.namespaces then
              && w'.states == w.states - {n} && w'.kernel.namespaces == w.kernel.namespaces - {n}
              && w'.kernel.nextId == w.kernel.nextId && w'.lastSync == w.lastSync
            else w' == w
  {
  }

  /** Maintenance drops exactly the failed entries recorded more than 3600 seconds ago. */
  lemma MaintainedEntries(w: World, now: nat, n: Name)
    ensures var w' := Maintained(w, now);
            && w'.kernel == w.kernel && w'.lastSync == w.lastSync
            && (n in w'.states <==>
                n in w.states
                && !(w.states[n].status == Failed && (w.states[n].lastUpdated + 3600) * 1_000_000_000 < now))
            && (n in w'.states ==> w'.states[n] == w.states[n])
  {
  }
}
