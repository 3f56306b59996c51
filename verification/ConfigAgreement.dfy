/**
 The event-driven cache against a full scan: files change, and events about them are handled
 in any order, late, repeatedly or not at all, against the disk as it then is.
 */
module ConfigAgreement {
  import opened Wrappers
  import opened Names
  import opened Config
  import opened ConfigManager

  datatype Watch = Watch(disk: Disk, m: map<Name, ConfigEntry>)

  /**
   Change replaces, adds or removes one file; Handle handles an event the watcher let through;
   Rescan is the initial scan and the answer to a changed master file.
   */
  datatype Op =
    | Change(path: Path, disk: Disk)
    | Handle(event: FileEvent)
    | Rescan(found: map<Name, ConfigEntry>)

  /** The disks differ at p at most. */
  ghost predicate SameElsewhere(disk: Disk, disk': Disk, p: Path) {
    forall q | q != p :: (q in disk' <==> q in disk) && (q in disk ==> disk'[q] == disk[q])
  }

  ghost predicate Step(prefix: string, w: Watch, op: Op, w': Watch) {
    match op
    case Change(p, disk) =>
      SameElsewhere(w.disk, disk, p) && w' == w.(disk := disk)
    case Handle(e) =>
      WatcherSees(e.path) && w' == w.(m := Handled(prefix, w.disk, w.m, e))
    case Rescan(found) =>
      Scanned(prefix, w.disk, found) && w' == w.(m := found)
  }

  ghost predicate Run(prefix: string, ws: seq<Watch>, ops: seq<Op>) {
    && |ws| == |ops| + 1
    && forall i | 0 <= i < |ops| :: Step(prefix, ws[i], ops[i], ws[i + 1])
  }

  /** Handling the event puts an entry for its file into the cache. */
  predicate Loads(prefix: string, disk: Disk, p: Path) {
    var loaded := LoadFile(prefix, disk, p);
    loaded.Ok? && loaded.value.Some?
  }

  /** A file with a home supplies that name whenever it is there; any other file never yields an entry. */
  ghost predicate Tidy(prefix: string, disk: Disk, home: Path -> Option<Name>) {
    forall p | p in disk ::
      match home(p)
      case Some(n) => Supplies(prefix, disk, p, n)
      case None => WatcherSees(p) ==> !Loads(prefix, disk, p)
  }

  /** No two files share a home. */
  ghost predicate Injective(home: Path -> Option<Name>) {
    forall p, q :: home(p) == home(q) && home(p).Some? ==> p == q
  }

  /** The cache holds for p what the disk holds for p. */
  ghost predicate AgreesAt(prefix: string, w: Watch, home: Path -> Option<Name>, p: Path) {
    home(p).Some? ==>
      var n := home(p).value;
      if p in w.disk then w.disk[p].Loaded? && n in w.m && w.m[n] == EntryFor(prefix, p, w.disk[p])
      else n !in w.m
  }

  /** Every entry of the cache is under the name that belongs to its file. */
  ghost predicate AtHome(m: map<Name, ConfigEntry>, home: Path -> Option<Name>) {
    forall n | n in m :: home(m[n].filePath) == Some(n)
  }

  /** The event tells whether the file is there. */
  predicate Fits(e: FileEvent, disk: Disk) {
    e.FileDeleted? == (e.path !in disk)
  }

  /** The operation may leave the cache behind the disk at p. */
  ghost predicate Outdates(w: Watch, op: Op, p: Path) {
    match op
    case Change(q, _) => q == p
    case Handle(e) => e.path == p && e.FileDeleted? && p in w.disk
    case Rescan(_) => false
  }

  /** The operation brings the cache up to date at p. */
  ghost predicate Refreshes(w: Watch, op: Op, p: Path) {
    match op
    case Change(_, _) => false
    case Handle(e) => e.path == p && Fits(e, w.disk)
    case Rescan(_) => true
  }

  ghost predicate OutdatedBy(ws: seq<Watch>, ops: seq<Op>, i: nat, p: Path, j: nat)
    requires |ws| == |ops| + 1 && i <= |ops|
  {
    j < i && Outdates(ws[j], ops[j], p) && forall k | j < k < i :: !Refreshes(ws[k], ops[k], p)
  }

  /** Before operation i, some operation outdated p and none since has brought it up to date. */
  ghost predicate Behind(ws: seq<Watch>, ops: seq<Op>, i: nat, p: Path)
    requires |ws| == |ops| + 1 && i <= |ops|
  {
    exists j :: OutdatedBy(ws, ops, i, p, j)
  }

  // ----- a scan and the disk -----

  lemma EntryAtHome(
    prefix: string, disk: Disk, m: map<Name, ConfigEntry>, home: Path -> Option<Name>, n: Name)
    requires Tidy(prefix, disk, home) && Scanned(prefix, disk, m) && n in m
    ensures var p := m[n].filePath;
            home(p) == Some(n) && p in disk && disk[p].Loaded? && m[n] == EntryFor(prefix, p, disk[p])
  {
    assert Sourced(prefix, disk, n, m[n]);
    var p :| Supplies(prefix, disk, p, n) && m[n] == EntryFor(prefix, p, disk[p]);
    assert Loads(prefix, disk, p) && WatcherSees(p);
  }

  lemma ScannedAgrees(prefix: string, w: Watch, home: Path -> Option<Name>)
    requires Tidy(prefix, w.disk, home) && Injective(home)
    requires Scanned(prefix, w.disk, w.m)
    ensures AtHome(w.m, home)
    ensures forall p :: AgreesAt(prefix, w, home, p)
  {
    forall n | n in w.m ensures home(w.m[n].filePath) == Some(n) && w.m[n].filePath in w.disk {
      EntryAtHome(prefix, w.disk, w.m, home, n);
    }
    forall p ensures AgreesAt(prefix, w, home, p) {
      if home(p).Some? && p in w.disk {
        var n := home(p).value;
        assert Supplies(prefix, w.disk, p, n);
        EntryAtHome(prefix, w.disk, w.m, home, n);
      }
    }
  }

  /** A cache that agrees at every file and holds nothing else is what a scan builds. */
  lemma AgreementIsScan(prefix: string, w: Watch, home: Path -> Option<Name>, scan: map<Name, ConfigEntry>)
    requires Tidy(prefix, w.disk, home) && Injective(home)
    requires AtHome(w.m, home) && forall p :: AgreesAt(prefix, w, home, p)
    requires Scanned(prefix, w.disk, scan)
    ensures w.m == scan
  {
    ScannedAgrees(prefix, w.(m := scan), home);
    forall n ensures n in w.m <==> n in scan {
      if n in w.m {
        assert AgreesAt(prefix, w, home, w.m[n].filePath);
        assert AgreesAt(prefix, w.(m := scan), home, w.m[n].filePath);
      }
      if n in scan {
        assert AgreesAt(prefix, w, home, scan[n].filePath);
        assert AgreesAt(prefix, w.(m := scan), home, scan[n].filePath);
      }
    }
    forall n | n in w.m ensures w.m[n] == scan[n] {
      assert AgreesAt(prefix, w, home, w.m[n].filePath);
      assert AgreesAt(prefix, w.(m := scan), home, w.m[n].filePath);
    }
  }

  // ----- one operation -----

  lemma HandledAtHome(prefix: string, w: Watch, home: Path -> Option<Name>, e: FileEvent)
    requires Tidy(prefix, w.disk, home) && AtHome(w.m, home) && WatcherSees(e.path)
    ensures AtHome(Handled(prefix, w.disk, w.m, e), home)
  {
    if !e.FileDeleted? && Loads(prefix, w.disk, e.path) {
      assert Supplies(prefix, w.disk, e.path, home(e.path).value);
    }
  }

  /** Handling an event about another file keeps the agreement at p. */
  lemma HandledElsewhere(prefix: string, w: Watch, home: Path -> Option<Name>, e: FileEvent, p: Path)
    requires Tidy(prefix, w.disk, home) && Injective(home) && WatcherSees(e.path)
    requires p != e.path && AgreesAt(prefix, w, home, p)
    ensures AgreesAt(prefix, w.(m := Handled(prefix, w.disk, w.m, e)), home, p)
  {
    if !e.FileDeleted? && Loads(prefix, w.disk, e.path) {
      assert Supplies(prefix, w.disk, e.path, home(e.path).value);
    }
  }

  /** Handling an event that fits the disk brings its file up to date. */
  lemma HandledHere(prefix: string, w: Watch, home: Path -> Option<Name>, e: FileEvent)
    requires Tidy(prefix, w.disk, home) && Injective(home) && AtHome(w.m, home)
    requires Fits(e, w.disk)
    ensures AgreesAt(prefix, w.(m := Handled(prefix, w.disk, w.m, e)), home, e.path)
  {
    if home(e.path).Some? {
      var n := home(e.path).value;
      if e.path in w.disk {
        assert Supplies(prefix, w.disk, e.path, n);
      } else if n in w.m {
        assert home(w.m[n].filePath) == Some(n);
      }
    }
  }

  /** One operation keeps entries at home, and agreement at every file it does not outdate. */
  lemma StepAgrees(prefix: string, w: Watch, op: Op, w': Watch, home: Path -> Option<Name>, p: Path)
    requires Tidy(prefix, w.disk, home) && Injective(home) && AtHome(w.m, home)
    requires Step(prefix, w, op, w')
    requires Refreshes(w, op, p) || (!Outdates(w, op, p) && AgreesAt(prefix, w, home, p))
    ensures AgreesAt(prefix, w', home, p)
  {
    match op
    case Change(_, _) =>
    case Handle(e) =>
      if e.path != p {
        HandledElsewhere(prefix, w, home, e, p);
      } else if Fits(e, w.disk) {
        HandledHere(prefix, w, home, e);
      } else {
        assert w' == w;
      }
    case Rescan(found) => ScannedAgrees(prefix, w.(m := found), home);
  }

  lemma StepAtHome(prefix: string, w: Watch, op: Op, w': Watch, home: Path -> Option<Name>)
    requires Tidy(prefix, w.disk, home) && Injective(home) && AtHome(w.m, home)
    requires Step(prefix, w, op, w')
    ensures AtHome(w'.m, home)
  {
    match op
    case Change(_, _) =>
    case Handle(e) => HandledAtHome(prefix, w, home, e);
    case Rescan(found) => ScannedAgrees(prefix, w.(m := found), home);
  }

  // ----- whole runs -----

  /** A run from a scan over disks that stay tidy. */
  ghost predicate TidyRun(prefix: string, ws: seq<Watch>, ops: seq<Op>, home: Path -> Option<Name>) {
    && Run(prefix, ws, ops) && Injective(home)
    && (forall j | 0 <= j < |ws| :: Tidy(prefix, ws[j].disk, home))
    && Scanned(prefix, ws[0].disk, ws[0].m)
  }

  lemma {:induction false} RunAtHome(
    prefix: string, ws: seq<Watch>, ops: seq<Op>, home: Path -> Option<Name>, i: nat)
    requires TidyRun(prefix, ws, ops, home) && i < |ws|
    ensures AtHome(ws[i].m, home)
  {
    if i == 0 {
      ScannedAgrees(prefix, ws[0], home);
    } else {
      RunAtHome(prefix, ws, ops, home, i - 1);
      assert Step(prefix, ws[i - 1], ops[i - 1], ws[i]);
      StepAtHome(prefix, ws[i - 1], ops[i - 1], ws[i], home);
    }
  }

  lemma StaysBehind(ws: seq<Watch>, ops: seq<Op>, i: nat, p: Path)
    requires |ws| == |ops| + 1 && 0 < i <= |ops|
    requires Behind(ws, ops, i - 1, p) && !Refreshes(ws[i - 1], ops[i - 1], p)
    ensures Behind(ws, ops, i, p)
  {
    var j: nat :| OutdatedBy(ws, ops, i - 1, p, j);
    assert OutdatedBy(ws, ops, i, p, j);
  }

  /**
   In every state of every run the cache agrees with the disk at each file that is not
   behind, whatever events were delayed, dropped, repeated or made up.
   */
  lemma {:induction false} RunAgrees(
    prefix: string, ws: seq<Watch>, ops: seq<Op>, home: Path -> Option<Name>, i: nat, p: Path)
    requires TidyRun(prefix, ws, ops, home) && i < |ws|
    requires !Behind(ws, ops, i, p)
    ensures AgreesAt(prefix, ws[i], home, p)
  {
    if i == 0 {
      ScannedAgrees(prefix, ws[0], home);
    } else {
      assert Step(prefix, ws[i - 1], ops[i - 1], ws[i]);
      RunAtHome(prefix, ws, ops, home, i - 1);
      if !Refreshes(ws[i - 1], ops[i - 1], p) {
        assert !OutdatedBy(ws, ops, i, p, i - 1);
        if Behind(ws, ops, i - 1, p) {
          StaysBehind(ws, ops, i, p);
        }
        RunAgrees(prefix, ws, ops, home, i - 1, p);
      }
      StepAgrees(prefix, ws[i - 1], ops[i - 1], ws[i], home, p);
    }
  }

  /**
   Once every changed file has had a fitting event handled since its last change, the cache
   is what a fresh scan of the disk builds.
   */
  lemma IncrementalIsScan(
    prefix: string, ws: seq<Watch>, ops: seq<Op>, home: Path -> Option<Name>, i: nat,
    scan: map<Name, ConfigEntry>)
    requires TidyRun(prefix, ws, ops, home) && i < |ws|
    requires forall p :: !Behind(ws, ops, i, p)
    requires Scanned(prefix, ws[i].disk, scan)
    ensures ws[i].m == scan
  {
    RunAtHome(prefix, ws, ops, home, i);
    forall p ensures AgreesAt(prefix, ws[i], home, p) {
      RunAgrees(prefix, ws, ops, home, i, p);
    }
    AgreementIsScan(prefix, ws[i], home, scan);
  }

  /** A file saved twice is up to date after one event, although the second one was dropped. */
  lemma DebouncedSave(
    prefix: string, w: Watch, p: Path, disk1: Disk, disk2: Disk, e: FileEvent, home: Path -> Option<Name>,
    scan: map<Name, ConfigEntry>)
    requires Scanned(prefix, w.disk, w.m) && Injective(home)
    requires Tidy(prefix, w.disk, home) && Tidy(prefix, disk1, home) && Tidy(prefix, disk2, home)
    requires SameElsewhere(w.disk, disk1, p) && SameElsewhere(disk1, disk2, p)
    requires WatcherSees(p) && e.path == p && Fits(e, disk2)
    requires Scanned(prefix, disk2, scan)
    ensures Handled(prefix, disk2, w.m, e) == scan
  {
    var w1, w2 := w.(disk := disk1), w.(disk := disk2);
    var w3 := w2.(m := Handled(prefix, disk2, w.m, e));
    var ws, ops := [w, w1, w2, w3], [Change(p, disk1), Change(p, disk2), Handle(e)];
    assert forall i | 0 <= i < 3 :: Step(prefix, ws[i], ops[i], ws[i + 1]);
    assert Refreshes(ws[2], ops[2], p);
    forall q ensures !Behind(ws, ops, 3, q) {
    }
    IncrementalIsScan(prefix, ws, ops, home, 3, scan);
  }

  // ----- one event, without the hypotheses -----

  /** What the cache holds from p is still true of p, and what p yields a scan would see. */
  ghost predicate StaysTrue(prefix: string, disk: Disk, m: map<Name, ConfigEntry>, p: Path) {
    && (forall n | n in m && m[n].filePath == p :: Supplies(prefix, disk, p, n))
    && (Loads(prefix, disk, p) ==> ScanSees(p))
  }

  /** No file supplies what the cache holds from p, and p supplies nothing the cache lacks. */
  ghost predicate LeavesNothing(prefix: string, disk: Disk, m: map<Name, ConfigEntry>, p: Path) {
    && (forall n | n in m && m[n].filePath == p :: !exists q :: Supplies(prefix, disk, q, n))
    && (forall n | Supplies(prefix, disk, p, n) :: n in m)
  }

  /** An entry of a file that does not supply its name is one that no scan builds. */
  lemma StaleIsNotScanned(prefix: string, disk: Disk, m: map<Name, ConfigEntry>, n: Name)
    requires n in m && !Supplies(prefix, disk, m[n].filePath, n)
    ensures !Scanned(prefix, disk, m)
  {
    assert Scanned(prefix, disk, m) ==> Sourced(prefix, disk, n, m[n]);
  }

  /** An entry from another file is still sourced after a change at p. */
  lemma SourcedElsewhere(
    prefix: string, disk: Disk, m: map<Name, ConfigEntry>, disk': Disk, p: Path, n: Name)
    requires Scanned(prefix, disk, m) && SameElsewhere(disk, disk', p)
    requires n in m && m[n].filePath != p
    ensures Sourced(prefix, disk', n, m[n])
  {
    assert Sourced(prefix, disk, n, m[n]);
    var q :| Supplies(prefix, disk, q, n) && m[n] == EntryFor(prefix, q, disk[q]);
    assert Supplies(prefix, disk', q, n) && m[n] == EntryFor(prefix, q, disk'[q]);
  }

  /** Another file that a scan sees has its name in the cache already. */
  lemma NamedElsewhere(
    prefix: string, disk: Disk, m: map<Name, ConfigEntry>, disk': Disk, p: Path, q: Path)
    requires Scanned(prefix, disk, m) && SameElsewhere(disk, disk', p)
    requires q != p && Scannable(prefix, disk', q)
    ensures FullName(prefix, disk'[q].config.name) in m
  {
    assert Scannable(prefix, disk, q);
  }

  lemma ReloadedEntry(
    prefix: string, disk: Disk, m: map<Name, ConfigEntry>, disk': Disk, e: FileEvent, n: Name)
    requires Scanned(prefix, disk, m) && !e.FileDeleted? && StaysTrue(prefix, disk', m, e.path)
    requires n in Handled(prefix, disk', m, e) && Handled(prefix, disk', m, e)[n].filePath == e.path
    ensures Sourced(prefix, disk', n, Handled(prefix, disk', m, e)[n])
  {
    assert Supplies(prefix, disk', e.path, n);
  }

  lemma ReloadedIsScan(prefix: string, disk: Disk, m: map<Name, ConfigEntry>, disk': Disk, e: FileEvent)
    requires Scanned(prefix, disk, m) && SameElsewhere(disk, disk', e.path) && !e.FileDeleted?
    requires StaysTrue(prefix, disk', m, e.path)
    ensures Scanned(prefix, disk', Handled(prefix, disk', m, e))
  {
    var p, m' := e.path, Handled(prefix, disk', m, e);
    forall n | n in m' ensures Sourced(prefix, disk', n, m'[n]) {
      if m'[n].filePath != p {
        SourcedElsewhere(prefix, disk, m, disk', p, n);
      } else {
        ReloadedEntry(prefix, disk, m, disk', e, n);
      }
    }
    forall q | Scannable(prefix, disk', q) ensures FullName(prefix, disk'[q].config.name) in m' {
      if q != p {
        NamedElsewhere(prefix, disk, m, disk', p, q);
      }
    }
  }

  lemma ReloadedIsScanIff(prefix: string, disk: Disk, m: map<Name, ConfigEntry>, disk': Disk, e: FileEvent)
    requires Scanned(prefix, disk, m) && SameElsewhere(disk, disk', e.path) && !e.FileDeleted?
    ensures Scanned(prefix, disk', Handled(prefix, disk', m, e)) <==> StaysTrue(prefix, disk', m, e.path)
  {
    var p, m' := e.path, Handled(prefix, disk', m, e);
    if StaysTrue(prefix, disk', m, p) {
      ReloadedIsScan(prefix, disk, m, disk', e);
    } else if n :| n in m && m[n].filePath == p && !Supplies(prefix, disk', p, n) {
      StaleIsNotScanned(prefix, disk', m', n);
    } else {
      StaleIsNotScanned(prefix, disk', m', FullName(prefix, disk'[p].config.name));
    }
  }

  lemma RemovedIsScanIff(prefix: string, disk: Disk, m: map<Name, ConfigEntry>, disk': Disk, p: Path)
    requires Scanned(prefix, disk, m) && SameElsewhere(disk, disk', p)
    ensures Scanned(prefix, disk', WithoutFile(m, p)) <==> LeavesNothing(prefix, disk', m, p)
  {
    var m' := WithoutFile(m, p);
    if LeavesNothing(prefix, disk', m, p) {
      forall n | n in m' ensures Sourced(prefix, disk', n, m'[n]) {
        SourcedElsewhere(prefix, disk, m, disk', p, n);
      }
      forall q | Scannable(prefix, disk', q) ensures FullName(prefix, disk'[q].config.name) in m' {
        assert Supplies(prefix, disk', q, FullName(prefix, disk'[q].config.name));
        if q != p {
          NamedElsewhere(prefix, disk, m, disk', p, q);
        }
      }
    } else if n, q :| n in m && m[n].filePath == p && Supplies(prefix, disk', q, n) {
      assert Scannable(prefix, disk', q) && n !in m';
    } else {
      var n :| Supplies(prefix, disk', p, n) && n !in m;
      assert Scannable(prefix, disk', p) && n !in m';
    }
  }

  /**
   Any cache that a scan built, any change at one file, any event about it: handling the event
   leaves what a scan builds if and only if, for an event other than a deletion, the file still
   supplies every name the cache holds from it, and what it yields is visible to a scan; for a
   deletion, no file supplies a name the cache holds from this one.
   */
  lemma HandledIsScanIff(prefix: string, disk: Disk, m: map<Name, ConfigEntry>, disk': Disk, e: FileEvent)
    requires Scanned(prefix, disk, m) && SameElsewhere(disk, disk', e.path)
    ensures Scanned(prefix, disk', Handled(prefix, disk', m, e)) <==>
            if e.FileDeleted? then LeavesNothing(prefix, disk', m, e.path)
            else StaysTrue(prefix, disk', m, e.path)
  {
    if e.FileDeleted? {
      RemovedIsScanIff(prefix, disk, m, disk', e.path);
    } else {
      ReloadedIsScanIff(prefix, disk, m, disk', e);
    }
  }

  /** No name is supplied by two files. */
  ghost predicate OneSupplier(prefix: string, disk: Disk) {
    forall p, q, n | Supplies(prefix, disk, p, n) && Supplies(prefix, disk, q, n) :: p == q
  }

  lemma HeldFrom(prefix: string, disk: Disk, m: map<Name, ConfigEntry>, p: Path, n: Name)
    requires Scanned(prefix, disk, m) && OneSupplier(prefix, disk)
    ensures n in m && m[n].filePath == p <==> Supplies(prefix, disk, p, n)
  {
    if Supplies(prefix, disk, p, n) {
      assert Scannable(prefix, disk, p) && n in m;
    }
    if n in m {
      assert Sourced(prefix, disk, n, m[n]);
      var q :| Supplies(prefix, disk, q, n) && m[n] == EntryFor(prefix, q, disk[q]);
    }
  }

  /** With distinct names, a reload is right if and only if the file keeps the name it supplied before. */
  lemma ReloadIsScanIff(prefix: string, disk: Disk, m: map<Name, ConfigEntry>, disk': Disk, e: FileEvent)
    requires Scanned(prefix, disk, m) && SameElsewhere(disk, disk', e.path) && !e.FileDeleted?
    requires OneSupplier(prefix, disk) && ScanSees(e.path)
    ensures Scanned(prefix, disk', Handled(prefix, disk', m, e)) <==>
            forall n | Supplies(prefix, disk, e.path, n) :: Supplies(prefix, disk', e.path, n)
  {
    HandledIsScanIff(prefix, disk, m, disk', e);
    forall n ensures n in m && m[n].filePath == e.path <==> Supplies(prefix, disk, e.path, n) {
      HeldFrom(prefix, disk, m, e.path, n);
    }
  }

  /** With distinct names, handling the deletion of a file that is gone is always right. */
  lemma RemovalIsScan(prefix: string, disk: Disk, m: map<Name, ConfigEntry>, disk': Disk, p: Path)
    requires Scanned(prefix, disk, m) && SameElsewhere(disk, disk', p) && p !in disk'
    requires OneSupplier(prefix, disk)
    ensures Scanned(prefix, disk', Handled(prefix, disk', m, FileDeleted(p)))
  {
    HandledIsScanIff(prefix, disk, m, disk', FileDeleted(p));
    forall n, q | n in m && m[n].filePath == p ensures !Supplies(prefix, disk', q, n) {
      HeldFrom(prefix, disk, m, p, n);
      assert Supplies(prefix, disk', q, n) ==> Supplies(prefix, disk, q, n);
    }
  }

  // ----- where a scan and an event part -----

  /** A scan has an entry for a name exactly when some file supplies it. */
  lemma ScannedNames(prefix: string, disk: Disk, m: map<Name, ConfigEntry>, n: Name)
    requires Scanned(prefix, disk, m)
    ensures n in m <==> exists p :: Supplies(prefix, disk, p, n)
  {
    if n in m {
      assert Sourced(prefix, disk, n, m[n]);
    }
  }

  /** A file that changes its namespace name leaves its old entry behind, which a scan drops. */
  lemma RenameLeavesStaleEntry(
    prefix: string, disk: Disk, m: map<Name, ConfigEntry>, p: Path, oldName: Name, scan: map<Name, ConfigEntry>)
    requires oldName in m && m[oldName].filePath == p
    requires Scannable(prefix, disk, p) && FullName(prefix, disk[p].config.name) != oldName
    requires !exists q :: Supplies(prefix, disk, q, oldName)
    requires Scanned(prefix, disk, scan)
    ensures oldName in Handled(prefix, disk, m, FileModified(p)) && oldName !in scan
    ensures !Scanned(prefix, disk, Handled(prefix, disk, m, FileModified(p)))
  {
    ScannedNames(prefix, disk, scan, oldName);
    StaleIsNotScanned(prefix, disk, Handled(prefix, disk, m, FileModified(p)), oldName);
  }

  /** A file that no longer loads keeps its old entry, which a scan drops. */
  lemma BrokenKeepsStaleEntry(
    prefix: string, disk: Disk, m: map<Name, ConfigEntry>, p: Path, n: Name, scan: map<Name, ConfigEntry>)
    requires n in m && m[n].filePath == p && p in disk && disk[p].Broken?
    requires !exists q :: Supplies(prefix, disk, q, n)
    requires Scanned(prefix, disk, scan)
    ensures Handled(prefix, disk, m, FileModified(p)) == m && n !in scan
    ensures !Scanned(prefix, disk, Handled(prefix, disk, m, FileModified(p)))
  {
    ScannedNames(prefix, disk, scan, n);
    StaleIsNotScanned(prefix, disk, m, n);
  }

  /** The watcher's test and the scan's differ on exactly one file name, the bare extension. */
  lemma WatcherScanDifference(p: Path)
    ensures ScanSees(p) ==> WatcherSees(p)
    ensures WatcherSees(p) && !ScanSees(p) <==> p == EXTENSION
  {
    if |p| == |EXTENSION| {
      assert p[|p| - |EXTENSION|..] == p;
    }
  }

  /** A file named just ".toml" is loaded when the watcher reports it, but no scan ever sees it. */
  lemma BareExtensionIsNotScanned(prefix: string, disk: Disk, m: map<Name, ConfigEntry>)
    requires EXTENSION in disk && disk[EXTENSION].Loaded? && ShouldManage(prefix, disk[EXTENSION].config.name)
    ensures WatcherSees(EXTENSION)
    ensures FullName(prefix, disk[EXTENSION].config.name) in Handled(prefix, disk, m, FileCreated(EXTENSION))
    ensures !Scannable(prefix, disk, EXTENSION)
    ensures !Scanned(prefix, disk, Handled(prefix, disk, m, FileCreated(EXTENSION)))
  {
    WatcherScanDifference(EXTENSION);
    var n := FullName(prefix, disk[EXTENSION].config.name);
    StaleIsNotScanned(prefix, disk, Handled(prefix, disk, m, FileCreated(EXTENSION)), n);
  }
}
