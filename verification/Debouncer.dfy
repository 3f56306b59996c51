/**
 The watcher's debouncer: an event for a file is dropped when one for the same file was let
 through within the window, and old records are pruned as it runs.
 */
module Debouncer {
  import opened Wrappers
  import opened ConfigManager

  /** Times are in nanoseconds on a clock that never runs backwards. */
  datatype Raw = Raw(path: Path, time: nat)

  datatype Mask = Mask(create: bool, movedTo: bool, modified: bool, closeWrite: bool, delete: bool, movedFrom: bool)

  type Table = map<Path, nat>

  const PRUNE_FACTOR := 10

  /** Time since then, zero if then lies ahead. */
  function Since(now: nat, earlier: nat): nat {
    if now < earlier then 0 else now - earlier
  }

  predicate Accepts(table: Table, e: Raw, window: nat) {
    e.path in table ==> Since(e.time, table[e.path]) >= window
  }

  function Pruned(table: Table, now: nat, window: nat): Table {
    map p | p in table && Since(now, table[p]) < window * PRUNE_FACTOR :: table[p]
  }

  /** The table as the watcher keeps it. */
  function Kept(table: Table, e: Raw, window: nat): Table {
    if Accepts(table, e, window) then Pruned(table[e.path := e.time], e.time, window) else table
  }

  /** The table of a watcher that never forgets. */
  function Remembered(events: seq<Raw>, window: nat): Table {
    if events == [] then map[]
    else
      var before := Remembered(events[..|events| - 1], window);
      var e := events[|events| - 1];
      if Accepts(before, e, window) then before[e.path := e.time] else before
  }

  /** The decision of the watcher that never forgets on the i-th event. */
  predicate Passes(events: seq<Raw>, i: nat, window: nat)
    requires i < |events|
  {
    Accepts(Remembered(events[..i], window), events[i], window)
  }

  ghost predicate Monotone(events: seq<Raw>) {
    forall i, j | 0 <= i <= j < |events| :: events[i].time <= events[j].time
  }

  /** What the pruned table has forgotten is too old to matter from now on. */
  ghost predicate Covers(table: Table, full: Table, now: nat, window: nat) {
    && (forall p | p in table :: p in full && full[p] == table[p])
    && (forall p | p in full && p !in table :: full[p] + window * PRUNE_FACTOR <= now)
    && (forall p | p in full :: full[p] <= now)
  }

  function FileEventOf(p: Path, mask: Mask): Option<FileEvent> {
    if mask.create || mask.movedTo then Some(FileCreated(p))
    else if mask.modified || mask.closeWrite then Some(FileModified(p))
    else if mask.delete || mask.movedFrom then Some(FileDeleted(p))
    else None
  }

  lemma CoversDecides(table: Table, full: Table, e: Raw, window: nat)
    requires Covers(table, full, e.time, window)
    ensures Accepts(table, e, window) <==> Accepts(full, e, window)
  {
  }

  lemma CoversLater(table: Table, full: Table, now: nat, later: nat, window: nat)
    requires Covers(table, full, now, window) && now <= later
    ensures Covers(table, full, later, window)
  {
  }

  lemma CoversAfter(table: Table, full: Table, e: Raw, window: nat)
    requires Covers(table, full, e.time, window)
    ensures Covers(Kept(table, e, window),
                   if Accepts(full, e, window) then full[e.path := e.time] else full, e.time, window)
  {
    CoversDecides(table, full, e, window);
  }

  lemma OfferCovers(events: seq<Raw>, table: Table, e: Raw, window: nat)
    requires Monotone(events)
    requires events == [] ==> table == map[]
    requires events != [] ==> Covers(table, Remembered(events, window), events[|events| - 1].time, window)
    requires events != [] ==> events[|events| - 1].time <= e.time
    ensures Monotone(events + [e])
    ensures Accepts(table, e, window) <==> Passes(events + [e], |events|, window)
    ensures Covers(Kept(table, e, window), Remembered(events + [e], window), e.time, window)
  {
    var more := events + [e];
    assert more[..|more| - 1] == events && more[|more| - 1] == e && more[..|events|] == events;
    if events != [] {
      CoversLater(table, Remembered(events, window), events[|events| - 1].time, e.time, window);
    }
    CoversDecides(table, Remembered(events, window), e, window);
    CoversAfter(table, Remembered(events, window), e, window);
  }

  /** Behind an accepted event the table holds that event and the records of less than ten windows, and no others. */
  lemma KeptRecords(table: Table, e: Raw, window: nat, p: Path)
    requires Accepts(table, e, window) && window > 0
    requires forall q | q in table :: table[q] <= e.time
    ensures var kept := Kept(table, e, window);
            && e.path in kept && kept[e.path] == e.time
            && (p != e.path ==> (p in kept <==> p in table && e.time < table[p] + window * 10))
            && (p in kept && p != e.path ==> kept[p] == table[p])
  {
  }

  /** What a mask is passed on as: creation before modification before deletion, anything else not at all. */
  lemma EventKinds(p: Path, mask: Mask)
    ensures FileEventOf(p, mask) == Some(FileCreated(p)) <==> mask.create || mask.movedTo
    ensures FileEventOf(p, mask) == Some(FileModified(p)) <==>
            !(mask.create || mask.movedTo) && (mask.modified || mask.closeWrite)
    ensures FileEventOf(p, mask) == Some(FileDeleted(p)) <==>
            && !(mask.create || mask.movedTo) && !(mask.modified || mask.closeWrite)
            && (mask.delete || mask.movedFrom)
    ensures FileEventOf(p, mask) == None <==> mask == Mask(false, false, false, false, false, false)
  {
  }

  class Watcher {
    var lastEvents: Table
    const window: nat
    ghost var history: seq<Raw>

    ghost predicate Valid()
      reads this
    {
      && Monotone(history)
      && (history == [] ==> lastEvents == map[])
      && (history != [] ==>
            Covers(lastEvents, Remembered(history, window), history[|history| - 1].time, window))
    }

    constructor (window: nat)
      ensures Valid() && history == [] && this.window == window
    {
      this.window := window;
      lastEvents, history := map[], [];
    }

    /** Decides as a watcher that never forgets would on the whole history of events. */
    method Offer(p: Path, now: nat, mask: Mask) returns (sent: Option<FileEvent>)
      requires Valid()
      requires history != [] ==> history[|history| - 1].time <= now
      modifies this
      ensures Valid() && history == old(history) + [Raw(p, now)]
      ensures sent == if Passes(history, |history| - 1, window) then FileEventOf(p, mask) else None
      ensures lastEvents == Kept(old(lastEvents), Raw(p, now), window)
    {
      ghost var e := Raw(p, now);
      OfferCovers(history, lastEvents, e, window);
      history := history + [e];
      assert history[..|history| - 1] == old(history);
      if p in lastEvents && Since(now, lastEvents[p]) < window {
        return None;
      }
      lastEvents := lastEvents[p := now];
      sent := FileEventOf(p, mask);
      lastEvents := map q | q in lastEvents && Since(now, lastEvents[q]) < window * PRUNE_FACTOR
                      :: lastEvents[q];
    }
  }

  // ----- what gets through -----

  /** The i-th event got through, is about p, and no later one of the first n did. */
  ghost predicate LastPassed(events: seq<Raw>, p: Path, i: nat, n: nat, window: nat)
    requires n <= |events|
  {
    && i < n && events[i].path == p && Passes(events, i, window)
    && forall j | i < j < n && events[j].path == p :: !Passes(events, j, window)
  }

  lemma RememberedStep(events: seq<Raw>, n: nat, window: nat)
    requires 0 < n <= |events|
    ensures var before, e := Remembered(events[..n - 1], window), events[n - 1];
            Remembered(events[..n], window) ==
            if Passes(events, n - 1, window) then before[e.path := e.time] else before
  {
    assert events[..n][..n - 1] == events[..n - 1] && events[..n][n - 1] == events[n - 1];
  }

  /** The full table records, per file, the last event that got through. */
  lemma {:induction false} RememberedIsLast(events: seq<Raw>, n: nat, p: Path, window: nat) returns (i: nat)
    requires n <= |events| && p in Remembered(events[..n], window)
    ensures LastPassed(events, p, i, n, window)
    ensures Remembered(events[..n], window)[p] == events[i].time
    decreases n
  {
    RememberedStep(events, n, window);
    if events[n - 1].path == p && Passes(events, n - 1, window) {
      i := n - 1;
    } else {
      i := RememberedIsLast(events, n - 1, p, window);
    }
  }

  lemma {:induction false} UnrememberedNeverPassed(events: seq<Raw>, n: nat, p: Path, window: nat)
    requires n <= |events| && p !in Remembered(events[..n], window)
    ensures forall i | 0 <= i < n && events[i].path == p :: !Passes(events, i, window)
    decreases n
  {
    if n == 0 {
    } else {
      RememberedStep(events, n, window);
      UnrememberedNeverPassed(events, n - 1, p, window);
    }
  }

  /**
   An event is dropped exactly when an earlier one about the same file got through less than
   a window before it.
   */
  lemma DroppedIff(events: seq<Raw>, k: nat, window: nat)
    requires Monotone(events) && k < |events|
    ensures !Passes(events, k, window) <==>
            exists i: nat :: i < k && events[i].path == events[k].path && Passes(events, i, window)
                             && events[k].time < events[i].time + window
  {
    var p := events[k].path;
    var table := Remembered(events[..k], window);
    if p !in table {
      UnrememberedNeverPassed(events, k, p, window);
    } else {
      var i := RememberedIsLast(events, k, p, window);
      assert table[p] == events[i].time;
      forall j: nat | j < k && events[j].path == p && Passes(events, j, window)
        ensures events[j].time <= events[i].time
      {
        assert j <= i;
      }
    }
  }

  /** Two events about the same file that both get through are at least a window apart. */
  lemma PassedApart(events: seq<Raw>, i: nat, k: nat, window: nat)
    requires Monotone(events) && i < k < |events|
    requires events[i].path == events[k].path
    requires Passes(events, i, window) && Passes(events, k, window)
    ensures events[k].time >= events[i].time + window
  {
    DroppedIff(events, k, window);
  }
}
