/**
 The cache of namespace files: filled by scanning the directory, then kept by handling one
 file event at a time.
 */
module ConfigManager {
  import opened Wrappers
  import opened Listing
  import opened Names
  import opened Config

  /** A file name in the configuration directory. */
  type Path = string

  /** What loading a file yields: its parsed contents with their time, or a failure. */
  datatype File = Loaded(config: NamespaceConfig, modified: int) | Broken

  type Disk = map<Path, File>

  datatype FileEvent = FileCreated(path: Path) | FileModified(path: Path) | FileDeleted(path: Path)

  datatype ConfigError = FileNotFound | ParseFailed | DirectoryUnreadable | MasterInvalid

  const EXTENSION := ".toml"

  /** The watcher passes on every name with this ending. */
  predicate WatcherSees(p: Path) {
    |p| >= |EXTENSION| && p[|p| - |EXTENSION|..] == EXTENSION
  }

  /** The scan asks for the extension of the name, which a name that is all extension lacks. */
  predicate ScanSees(p: Path) {
    WatcherSees(p) && |p| > |EXTENSION|
  }

  function EntryFor(prefix: string, p: Path, f: File): ConfigEntry
    requires f.Loaded?
  {
    ConfigEntry(f.config, p, FullName(prefix, f.config.name), f.modified)
  }

  /** An entry, nothing for a file of another daemon, or an error. */
  function LoadFile(prefix: string, disk: Disk, p: Path): Result<Option<ConfigEntry>, ConfigError> {
    if p !in disk then Err(FileNotFound)
    else if disk[p].Broken? then Err(ParseFailed)
    else if !ShouldManage(prefix, disk[p].config.name) then Ok(None)
    else Ok(Some(EntryFor(prefix, p, disk[p])))
  }

  /** The file contributes an entry to a scan. */
  predicate Scannable(prefix: string, disk: Disk, p: Path) {
    p in disk && ScanSees(p) && disk[p].Loaded? && ShouldManage(prefix, disk[p].config.name)
  }

  predicate Supplies(prefix: string, disk: Disk, p: Path, n: Name) {
    Scannable(prefix, disk, p) && FullName(prefix, disk[p].config.name) == n
  }

  /** The entry comes from some file that supplies its name. */
  ghost predicate Sourced(prefix: string, disk: Disk, n: Name, e: ConfigEntry) {
    exists p :: Supplies(prefix, disk, p, n) && e == EntryFor(prefix, p, disk[p])
  }

  /** m holds, for each name of a scannable file, the entry of one such file, and nothing else. */
  ghost predicate Scanned(prefix: string, disk: Disk, m: map<Name, ConfigEntry>) {
    && (forall n | n in m :: Sourced(prefix, disk, n, m[n]))
    && (forall p | Scannable(prefix, disk, p) :: FullName(prefix, disk[p].config.name) in m)
  }

  function WithoutFile(m: map<Name, ConfigEntry>, p: Path): map<Name, ConfigEntry> {
    map n | n in m && m[n].filePath != p :: m[n]
  }

  /** The table after an event, outside the master file. */
  function Handled(prefix: string, disk: Disk, m: map<Name, ConfigEntry>, e: FileEvent): map<Name, ConfigEntry> {
    if e.FileDeleted? then WithoutFile(m, e.path)
    else
      var loaded := LoadFile(prefix, disk, e.path);
      if loaded.Ok? && loaded.value.Some?
      then m[loaded.value.value.fullName := loaded.value.value]
      else m
  }

  lemma WithoutFileStep(m: map<Name, ConfigEntry>, gone: set<Name>, n: Name)
    ensures (m - gone) - {n} == m - (gone + {n})
  {
  }

  ghost predicate SameNames(names: seq<Name>, m: map<Name, ConfigEntry>) {
    forall n :: n in names <==> n in m
  }

  lemma SameNamesStep(names: seq<Name>, m: map<Name, ConfigEntry>, e: ConfigEntry)
    requires SameNames(names, m)
    ensures SameNames(names + [e.fullName], m[e.fullName := e])
  {
  }

  /** The files among ps that contribute an entry. */
  function Contributing(prefix: string, disk: Disk, ps: set<Path>): set<Path> {
    set p | p in ps && Scannable(prefix, disk, p)
  }

  lemma ContributingStep(prefix: string, disk: Disk, done: set<Path>, p: Path)
    requires p !in done
    ensures |Contributing(prefix, disk, done + {p})|
         == |Contributing(prefix, disk, done)| + (if Scannable(prefix, disk, p) then 1 else 0)
  {
    if Scannable(prefix, disk, p) {
      assert Contributing(prefix, disk, done + {p}) == Contributing(prefix, disk, done) + {p};
    } else {
      assert Contributing(prefix, disk, done + {p}) == Contributing(prefix, disk, done);
    }
  }

  /** A scan that has visited the files in done. */
  ghost predicate PartlyScanned(prefix: string, disk: Disk, done: set<Path>, m: map<Name, ConfigEntry>) {
    && (forall n | n in m :: Sourced(prefix, disk, n, m[n]))
    && (forall p | p in done && Scannable(prefix, disk, p) :: FullName(prefix, disk[p].config.name) in m)
  }

  lemma WholeScan(prefix: string, disk: Disk, done: set<Path>, m: map<Name, ConfigEntry>)
    requires PartlyScanned(prefix, disk, done, m) && disk.Keys <= done
    ensures Scanned(prefix, disk, m)
  {
  }

  lemma PartlyScannedOneMore(prefix: string, disk: Disk, done: set<Path>, m: map<Name, ConfigEntry>, p: Path)
    requires PartlyScanned(prefix, disk, done, m) && Scannable(prefix, disk, p)
    ensures var e := EntryFor(prefix, p, disk[p]);
            PartlyScanned(prefix, disk, done + {p}, m[e.fullName := e])
  {
    var e := EntryFor(prefix, p, disk[p]);
    var m' := m[e.fullName := e];
    forall n | n in m' ensures Sourced(prefix, disk, n, m'[n]) {
      if n == e.fullName {
        assert Supplies(prefix, disk, p, n);
      } else {
        assert Sourced(prefix, disk, n, m[n]);
      }
    }
  }

  /** One more file visited, whether or not it contributes an entry. */
  lemma PartlyScannedStep(prefix: string, disk: Disk, done: set<Path>, m: map<Name, ConfigEntry>, p: Path)
    requires PartlyScanned(prefix, disk, done, m) && p in disk
    ensures var loaded := if ScanSees(p) then LoadFile(prefix, disk, p) else Ok(None);
            PartlyScanned(prefix, disk, done + {p},
                          if loaded.Ok? && loaded.value.Some?
                          then m[loaded.value.value.fullName := loaded.value.value] else m)
  {
    if Scannable(prefix, disk, p) {
      PartlyScannedOneMore(prefix, disk, done, m, p);
    }
  }

  /** The scan so far, with the list of names it has loaded. */
  ghost predicate Listed(
    prefix: string, disk: Disk, done: set<Path>, names: seq<Name>, m: map<Name, ConfigEntry>)
  {
    && PartlyScanned(prefix, disk, done, m) && SameNames(names, m)
    && |names| == |Contributing(prefix, disk, done)|
  }

  lemma ListedStep(
    prefix: string, disk: Disk, done: set<Path>, names: seq<Name>, m: map<Name, ConfigEntry>, p: Path)
    requires Listed(prefix, disk, done, names, m) && p in disk && p !in done
    ensures var loaded := if ScanSees(p) then LoadFile(prefix, disk, p) else Ok(None);
            if loaded.Ok? && loaded.value.Some? then
              var e := loaded.value.value;
              Listed(prefix, disk, done + {p}, names + [e.fullName], m[e.fullName := e])
            else Listed(prefix, disk, done + {p}, names, m)
  {
    PartlyScannedStep(prefix, disk, done, m, p);
    ContributingStep(prefix, disk, done, p);
    if Scannable(prefix, disk, p) {
      SameNamesStep(names, m, EntryFor(prefix, p, disk[p]));
    }
  }

  /** A scan keys every entry by its own full name, which carries the prefix. */
  lemma ScannedIsKeyed(prefix: string, disk: Disk, m: map<Name, ConfigEntry>)
    requires Scanned(prefix, disk, m)
    ensures Keyed(ConfigView(prefix, m)) && Prefixed(ConfigView(prefix, m))
  {
    forall n | n in m ensures m[n].fullName == n && MatchesPrefix(prefix, n) {
      assert Sourced(prefix, disk, n, m[n]);
      var p :| Supplies(prefix, disk, p, n) && m[n] == EntryFor(prefix, p, disk[p]);
      FullNameMatches(prefix, disk[p].config.name);
    }
  }

  lemma HandledKeeps(cfg: ConfigView, disk: Disk, e: FileEvent)
    requires Keyed(cfg)
    ensures var after := ConfigView(cfg.prefix, Handled(cfg.prefix, disk, cfg.entries, e));
            Keyed(after) && (Prefixed(cfg) ==> Prefixed(after))
  {
    if e.path in disk && disk[e.path].Loaded? {
      FullNameMatches(cfg.prefix, disk[e.path].config.name);
    }
  }

  // ----- the same, file by file -----

  /** The name is plain, or it is the daemon's own. */
  predicate Accepted(prefix: string, name: string) {
    ('-' !in name && '_' !in name) || Owned(prefix, name)
  }

  /** The file name ends with ".toml" and has something before it. */
  lemma ScanSeesIff(p: Path)
    ensures WatcherSees(p) <==> |p| >= 5 && p[|p| - 5..] == ".toml"
    ensures ScanSees(p) <==> |p| > 5 && p[|p| - 5..] == ".toml"
  {
  }

  /** Loading fails without a readable file, skips foreign names, and gives the file's contents under its full name. */
  lemma LoadedFile(prefix: string, disk: Disk, p: Path)
    ensures p !in disk ==> LoadFile(prefix, disk, p) == Err(FileNotFound)
    ensures p in disk && disk[p].Broken? ==> LoadFile(prefix, disk, p) == Err(ParseFailed)
    ensures p in disk && disk[p].Loaded? ==>
              var name := disk[p].config.name;
              LoadFile(prefix, disk, p) ==
              if !Accepted(prefix, name) then Ok(None)
              else Ok(Some(ConfigEntry(disk[p].config, p,
                                       if Owned(prefix, name) then name else prefix + "-" + name,
                                       disk[p].modified)))
  {
    if p in disk && disk[p].Loaded? {
      ForeignIff(prefix, disk[p].config.name);
      FullNameForms(prefix, disk[p].config.name);
    }
  }

  /** A scan has an entry for every accepted file it sees: a plain name under the prefix, an owned one as it is. */
  lemma ScanFinds(prefix: string, disk: Disk, m: map<Name, ConfigEntry>, p: Path)
    requires Scanned(prefix, disk, m)
    requires p in disk && disk[p].Loaded? && |p| > 5 && p[|p| - 5..] == ".toml"
    ensures var name := disk[p].config.name;
            && (Owned(prefix, name) ==> name in m)
            && ('-' !in name && '_' !in name && name != prefix ==> prefix + "-" + name in m)
  {
    var name := disk[p].config.name;
    ForeignIff(prefix, name);
    FullNameForms(prefix, name);
    if Accepted(prefix, name) {
      assert Scannable(prefix, disk, p);
    }
    if '-' !in name && '_' !in name && name != prefix {
      PlainIsNotOwned(prefix, name);
    }
  }

  lemma PlainIsNotOwned(prefix: string, name: string)
    requires '-' !in name && '_' !in name && name != prefix
    ensures !Owned(prefix, name)
  {
    assert (prefix + "-")[|prefix|] == '-' && (prefix + "_")[|prefix|] == '_';
  }

  /** An entry of a scan is that of a loaded file the scan sees, with the contents and time of that file. */
  lemma ScanHolds(prefix: string, disk: Disk, m: map<Name, ConfigEntry>, n: Name)
    requires Scanned(prefix, disk, m) && n in m
    ensures var p := m[n].filePath;
            && p in disk && disk[p].Loaded? && |p| > 5 && p[|p| - 5..] == ".toml"
            && Accepted(prefix, disk[p].config.name)
            && m[n].config == disk[p].config && m[n].lastModified == disk[p].modified && m[n].fullName == n
            && n == if Owned(prefix, disk[p].config.name) then disk[p].config.name
                    else prefix + "-" + disk[p].config.name
  {
    assert Sourced(prefix, disk, n, m[n]);
    var p :| Supplies(prefix, disk, p, n) && m[n] == EntryFor(prefix, p, disk[p]);
    ForeignIff(prefix, disk[p].config.name);
    FullNameForms(prefix, disk[p].config.name);
  }

  /** An event that is no deletion sets the one entry of an accepted file and changes nothing otherwise. */
  lemma HandledChange(prefix: string, disk: Disk, m: map<Name, ConfigEntry>, e: FileEvent)
    requires !e.FileDeleted?
    ensures var m' := Handled(prefix, disk, m, e);
            if e.path in disk && disk[e.path].Loaded? && Accepted(prefix, disk[e.path].config.name) then
              var f := disk[e.path];
              var n := if Owned(prefix, f.config.name) then f.config.name else prefix + "-" + f.config.name;
              m' == m[n := ConfigEntry(f.config, e.path, n, f.modified)]
            else m' == m
  {
    LoadedFile(prefix, disk, e.path);
  }

  /** A deletion removes exactly the entries that come from the file. */
  lemma HandledDeletion(prefix: string, disk: Disk, m: map<Name, ConfigEntry>, p: Path, n: Name)
    ensures var m' := Handled(prefix, disk, m, FileDeleted(p));
            && (n in m' <==> n in m && m[n].filePath != p)
            && (n in m' ==> m'[n] == m[n])
  {
  }

  class ConfigManager {
    var prefix: string
    const configFile: Path
    var entries: map<Name, ConfigEntry>

    ghost function View(): ConfigView
      reads this
    {
      ConfigView(prefix, entries)
    }

    constructor (prefix: string, configFile: Path)
      ensures this.prefix == prefix && this.configFile == configFile
      ensures entries == map[] && Keyed(View()) && Prefixed(View())
    {
      this.prefix, this.configFile := prefix, configFile;
      entries := map[];
    }

    method ScanNamespaceConfigs(disk: Disk, readable: bool) returns (r: Result<seq<Name>, ConfigError>)
      modifies this`entries
      ensures readable ==> r.Ok? && Scanned(prefix, disk, entries)
      ensures readable ==> Keyed(View()) && Prefixed(View())
      ensures readable ==> forall n :: n in r.value <==> n in entries
      ensures readable ==> |r.value| == |Contributing(prefix, disk, disk.Keys)|
      ensures !readable ==> r == Err(DirectoryUnreadable) && entries == old(entries)
    {
      if !readable {
        return Err(DirectoryUnreadable);
      }
      var names: seq<Name> := [];
      var found: map<Name, ConfigEntry> := map[];
      var todo := disk.Keys;
      assert Contributing(prefix, disk, {}) == {} && disk.Keys - todo == {};
      while todo != {}
        invariant todo <= disk.Keys
        invariant Listed(prefix, disk, disk.Keys - todo, names, found)
        decreases |todo|
      {
        var p :| p in todo;
        VisitedOneMore(disk.Keys, todo, p);
        ListedStep(prefix, disk, disk.Keys - todo, names, found, p);
        var loaded := if ScanSees(p) then LoadFile(prefix, disk, p) else Ok(None);
        if loaded.Ok? && loaded.value.Some? {
          var entry := loaded.value.value;
          names := names + [entry.fullName];
          found := found[entry.fullName := entry];
        }
        todo := todo - {p};
      }
      assert disk.Keys - todo == disk.Keys;
      WholeScan(prefix, disk, disk.Keys, found);
      entries := found;
      ScannedIsKeyed(prefix, disk, entries);
      return Ok(names);
    }

    method ReloadNamespaceConfig(p: Path, disk: Disk) returns (r: Result<Option<Name>, ConfigError>)
      modifies this`entries
      ensures entries == Handled(prefix, disk, old(entries), FileModified(p))
      ensures r.Err? <==> p !in disk || disk[p].Broken?
      ensures r.Err? || r.value.None? ==> entries == old(entries)
      ensures r.Ok? && r.value.Some? ==> r.value.value in entries && entries[r.value.value].filePath == p
      ensures r.Ok? && r.value.Some? ==>
                disk[p].Loaded? && r.value.value == FullName(prefix, disk[p].config.name)
    {
      var loaded := LoadFile(prefix, disk, p);
      if loaded.Err? {
        return Err(loaded.error);
      }
      if loaded.value.None? {
        return Ok(None);
      }
      var entry := loaded.value.value;
      entries := entries[entry.fullName := entry];
      return Ok(Some(entry.fullName));
    }

    method RemoveNamespaceConfig(p: Path) returns (removed: Option<Name>)
      modifies this`entries
      ensures entries == WithoutFile(old(entries), p)
      ensures forall n | n in entries :: entries[n] == old(entries)[n] && entries[n].filePath != p
      ensures removed.Some? ==> removed.value in old(entries) && old(entries)[removed.value].filePath == p
      ensures removed.None? ==> entries == old(entries)
    {
      removed := None;
      ghost var before := entries;
      var all := entries.Keys;
      var todo := all;
      ghost var gone: set<Name> := {};
      assert before - gone == before;
      while todo != {}
        invariant todo <= all == before.Keys
        invariant entries == before - gone
        invariant forall n :: n in gone <==> n in all && n !in todo && before[n].filePath == p
        invariant removed.None? ==> gone == {}
        invariant removed.Some? ==> removed.value in gone
        decreases |todo|
      {
        var n :| n in todo;
        todo := todo - {n};
        if entries[n].filePath == p {
          removed := Some(n);
          WithoutFileStep(before, gone, n);
          entries := entries - {n};
          gone := gone + {n};
        }
      }
    }

    /** A master file that does not load leaves the manager as it was. */
    method ReloadMasterConfig(loaded: Option<string>) returns (ok: bool)
      modifies this`prefix
      ensures ok <==> loaded.Some?
      ensures prefix == if loaded.Some? then loaded.value else old(prefix)
    {
      if loaded.None? {
        return false;
      }
      prefix := loaded.value;
      return true;
    }

    /** disk, readable and master are what the file system shows while the event is handled. */
    method HandleFileEvent(e: FileEvent, disk: Disk, readable: bool, master: Option<string>)
      returns (r: Result<seq<Name>, ConfigError>)
      requires Keyed(View())
      modifies this
      ensures Keyed(View())
      ensures e != FileModified(configFile) ==>
                prefix == old(prefix) && entries == Handled(prefix, disk, old(entries), e)
      ensures e == FileModified(configFile) && master.Some? && readable ==>
                prefix == master.value && Scanned(prefix, disk, entries)
      ensures e == FileModified(configFile) && (master.None? || !readable) ==>
                r.Err? && entries == old(entries)
      ensures e == FileModified(configFile) ==>
                prefix == if master.Some? then master.value else old(prefix)
      ensures e != FileModified(configFile) && (r.Err? || r.value == []) ==> entries == old(entries)
      ensures e != FileModified(configFile) && !e.FileDeleted? && r.Ok? && r.value != [] ==>
                e.path in disk && disk[e.path].Loaded?
                && r.value == [FullName(prefix, disk[e.path].config.name)]
      ensures e.FileDeleted? && r.Ok? && r.value != [] ==>
                |r.value| == 1 && r.value[0] in old(entries) && old(entries)[r.value[0]].filePath == e.path
      ensures e.FileDeleted? ==> r.Ok?
      ensures e != FileModified(configFile) && !e.FileDeleted? ==>
                (r.Err? <==> e.path !in disk || disk[e.path].Broken?)
      ensures e == FileModified(configFile) && r.Ok? ==> forall n :: n in r.value <==> n in entries
      ensures old(Prefixed(View())) && prefix == old(prefix) ==> Prefixed(View())
    {
      match e
      case FileCreated(p) =>
        HandledKeeps(View(), disk, e);
        var loaded := ReloadNamespaceConfig(p, disk);
        return if loaded.Err? then Err(loaded.error)
               else if loaded.value.Some? then Ok([loaded.value.value]) else Ok([]);
      case FileModified(p) =>
        if p == configFile {
          var ok := ReloadMasterConfig(master);
          if !ok {
            return Err(MasterInvalid);
          }
          r := ScanNamespaceConfigs(disk, readable);
        } else {
          HandledKeeps(View(), disk, e);
          var loaded := ReloadNamespaceConfig(p, disk);
          return if loaded.Err? then Err(loaded.error)
                 else if loaded.value.Some? then Ok([loaded.value.value]) else Ok([]);
        }
      case FileDeleted(p) =>
        HandledKeeps(View(), disk, e);
        var removed := RemoveNamespaceConfig(p);
        return if removed.Some? then Ok([removed.value]) else Ok([]);
    }
  }
}
