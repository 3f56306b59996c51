/**
 Physical interfaces: moved into namespaces when those are created, and moved back before the
 shutdown cleanup deletes the namespaces. The kernel is taken to carry out a move whenever the
 checks made before it pass.
 */
module Interfaces {
  import opened Wrappers
  import opened Listing
  import opened Names

  /** Where a physical interface is; Lost is inside a namespace that was deleted. */
  datatype Place = Default | Inside(namespace: Name) | Lost

  datatype Host = Host(places: map<string, Place>, namespaces: set<Name>)

  /** The interfaces each namespace file lists, in order. */
  type Moves = map<Name, seq<string>>

  const LOOPBACK := "lo"

  predicate ValidInterface(s: string) {
    0 < |s| <= 15 && forall i | 0 <= i < |s| :: IsNameChar(s[i]) || s[i] == '_'
  }

  predicate AtDefault(h: Host, i: string) {
    i in h.places && h.places[i] == Default
  }

  predicate CanMoveIn(h: Host, i: string, n: Name) {
    ValidName(n) && ValidInterface(i) && AtDefault(h, i) && i != LOOPBACK && n in h.namespaces
  }

  function MovedIn(h: Host, i: string, n: Name): Host {
    if CanMoveIn(h, i, n) then h.(places := h.places[i := Inside(n)]) else h
  }

  function MovedInAll(h: Host, list: seq<string>, n: Name): Host
    decreases |list|
  {
    if list == [] then h else MovedInAll(MovedIn(h, list[0], n), list[1..], n)
  }

  predicate CanMoveBack(h: Host, n: Name, i: string) {
    && ValidName(n) && ValidInterface(i) && n in h.namespaces
    && i in h.places && h.places[i] == Inside(n)
  }

  function MovedBack(h: Host, n: Name, i: string): Host {
    if CanMoveBack(h, n, i) then h.(places := h.places[i := Default]) else h
  }

  function MovedBackAll(h: Host, n: Name, list: seq<string>): Host
    decreases |list|
  {
    if list == [] then h else MovedBackAll(MovedBack(h, n, list[0]), n, list[1..])
  }

  /** Deleting a namespace takes down with it whatever is still inside. */
  function Deleted(h: Host, n: Name): Host {
    if ValidName(n) && n in h.namespaces then
      Host(map i | i in h.places :: if h.places[i] == Inside(n) then Lost else h.places[i], h.namespaces - {n})
    else h
  }

  /** Creating a configured namespace and moving its interfaces in; failed moves are skipped. */
  function Provisioned(h: Host, n: Name, list: seq<string>): Host {
    if ValidName(n) && n !in h.namespaces
    then MovedInAll(h.(namespaces := h.namespaces + {n}), list, n)
    else h
  }

  /** The shutdown's treatment of one namespace; entry is its configuration, if still loaded. */
  function CleanedUp(h: Host, n: Name, entry: Option<seq<string>>): Host {
    var back := if entry.Some? then MovedBackAll(h, n, entry.value) else h;
    Deleted(back, n)
  }

  ghost predicate ConfinedAt(h: Host, moves: Moves, i: string)
    requires i in h.places
  {
    match h.places[i]
    case Default => true
    case Lost => false
    case Inside(n) =>
      n in h.namespaces && n in moves && i in moves[n] && ValidName(n) && ValidInterface(i)
  }

  /** Nothing is lost, and whatever is inside a namespace is listed by the namespace's file. */
  ghost predicate Confined(h: Host, moves: Moves) {
    forall i | i in h.places :: ConfinedAt(h, moves, i)
  }

  ghost predicate AllDefault(h: Host) {
    forall i | i in h.places :: h.places[i] == Default
  }

  /** Interfaces are only left in the given namespaces. */
  ghost predicate Remaining(h: Host, names: set<Name>) {
    forall i | i in h.places && h.places[i].Inside? :: h.places[i].namespace in names
  }

  /** Moving back touches exactly the listed interfaces that are inside. */
  lemma {:induction false} MovedBackAllAt(h: Host, n: Name, list: seq<string>, i: string)
    requires i in h.places
    ensures var h' := MovedBackAll(h, n, list);
            && h'.namespaces == h.namespaces && h'.places.Keys == h.places.Keys
            && h'.places[i] == if i in list && CanMoveBack(h, n, i) then Default else h.places[i]
    decreases |list|
  {
    if list == [] {
    } else {
      MovedBackAllAt(MovedBack(h, n, list[0]), n, list[1..], i);
      assert i in list <==> i == list[0] || i in list[1..];
    }
  }

  lemma {:induction false} MovedBackAllSame(h: Host, n: Name, list: seq<string>)
    ensures MovedBackAll(h, n, list).namespaces == h.namespaces
    ensures MovedBackAll(h, n, list).places.Keys == h.places.Keys
    decreases |list|
  {
    if list == [] {
    } else {
      MovedBackAllSame(MovedBack(h, n, list[0]), n, list[1..]);
    }
  }

  /** Cleaning up one namespace loses nothing and leaves nothing in it. */
  lemma CleanedUpConfined(h: Host, moves: Moves, n: Name)
    requires Confined(h, moves) && n in moves
    ensures var h' := CleanedUp(h, n, Some(moves[n]));
            && Confined(h', moves) && h'.places.Keys == h.places.Keys
            && h'.namespaces == (if ValidName(n) then h.namespaces - {n} else h.namespaces)
            && (forall i | i in h'.places :: h'.places[i] == if h.places[i] == Inside(n) then Default else h.places[i])
  {
    var back, h' := MovedBackAll(h, n, moves[n]), CleanedUp(h, n, Some(moves[n]));
    MovedBackAllSame(h, n, moves[n]);
    forall i | i in h.places
      ensures back.places[i] == if h.places[i] == Inside(n) then Default else h.places[i]
    {
      MovedBackAllAt(h, n, moves[n], i);
      assert ConfinedAt(h, moves, i);
    }
    forall i | i in h'.places ensures ConfinedAt(h', moves, i) {
      assert ConfinedAt(h, moves, i);
    }
  }

  class HostNetwork {
    var places: map<string, Place>
    var namespaces: set<Name>

    function View(): Host
      reads this
    {
      Host(places, namespaces)
    }

    method MoveInterfaceToNamespace(i: string, n: Name) returns (ok: bool)
      modifies this
      ensures ok <==> CanMoveIn(old(View()), i, n)
      ensures View() == MovedIn(old(View()), i, n)
    {
      if !ValidName(n) || !ValidInterface(i) {
        return false;
      }
      if !(i in places && places[i] == Default) {
        return false;
      }
      if i == LOOPBACK {
        return false;
      }
      if n !in namespaces {
        return false;
      }
      places := places[i := Inside(n)];
      return true;
    }

    method MoveInterfaceToDefault(n: Name, i: string) returns (ok: bool)
      modifies this
      ensures ok <==> ValidName(n) && ValidInterface(i) && n in old(namespaces)
      ensures View() == MovedBack(old(View()), n, i)
    {
      if !ValidName(n) || !ValidInterface(i) || n !in namespaces {
        return false;
      }
      if !(i in places && places[i] == Inside(n)) {
        return true;
      }
      places := places[i := Default];
      return true;
    }

    method DeleteNamespace(n: Name) returns (ok: bool)
      modifies this
      ensures ok <==> ValidName(n) && n in old(namespaces)
      ensures View() == Deleted(old(View()), n)
    {
      if !ValidName(n) || n !in namespaces {
        return false;
      }
      places := map i | i in places :: if places[i] == Inside(n) then Lost else places[i];
      namespaces := namespaces - {n};
      return true;
    }

    method CreateAndMove(n: Name, list: seq<string>)
      modifies this
      ensures View() == Provisioned(old(View()), n, list)
    {
      if !ValidName(n) || n in namespaces {
        return;
      }
      namespaces := namespaces + {n};
      ghost var start := View();
      for k := 0 to |list|
        invariant MovedInAll(start, list, n) == MovedInAll(View(), list[k..], n)
      {
        assert list[k..][0] == list[k] && list[k..][1..] == list[k + 1..];
        var ok := MoveInterfaceToNamespace(list[k], n);
      }
    }

    method CleanUpNamespace(n: Name, entry: Option<seq<string>>)
      modifies this
      ensures View() == CleanedUp(old(View()), n, entry)
    {
      ghost var start := View();
      if entry.Some? {
        var list := entry.value;
        for k := 0 to |list|
          invariant MovedBackAll(start, n, list) == MovedBackAll(View(), n, list[k..])
        {
          assert list[k..][0] == list[k] && list[k..][1..] == list[k + 1..];
          var ok := MoveInterfaceToDefault(n, list[k]);
        }
      }
      var ok := DeleteNamespace(n);
    }

    /** Cleans up every configured namespace, in any order. */
    method CleanUpAll(moves: Moves)
      requires Confined(View(), moves)
      modifies this
      ensures AllDefault(View())
      ensures namespaces == old(namespaces) - (set n | n in moves && ValidName(n))
      ensures places.Keys == old(places).Keys
    {
      ghost var start := View();
      var all := moves.Keys;
      var todo := all;
      while todo != {}
        invariant todo <= all
        invariant Confined(View(), moves) && Remaining(View(), todo)
        invariant forall n :: n in namespaces <==> n in start.namespaces && !(n in all && n !in todo && ValidName(n))
        invariant places.Keys == start.places.Keys
        decreases |todo|
      {
        var n :| n in todo;
        CleanedUpConfined(View(), moves, n);
        CleanUpNamespace(n, Some(moves[n]));
        todo := todo - {n};
      }
    }
  }

  lemma {:induction false} MovedInConfined(h: Host, moves: Moves, n: Name, list: seq<string>)
    requires Confined(h, moves) && n in h.namespaces && n in moves
    requires forall i | i in list :: i in moves[n]
    ensures Confined(MovedInAll(h, list, n), moves)
    ensures MovedInAll(h, list, n).namespaces == h.namespaces
    ensures MovedInAll(h, list, n).places.Keys == h.places.Keys
    decreases |list|
  {
    if list == [] {
    } else {
      var next := MovedIn(h, list[0], n);
      assert list[0] in list && forall i | i in list[1..] :: i in list;
      forall i | i in next.places ensures ConfinedAt(next, moves, i) {
        assert ConfinedAt(h, moves, i);
      }
      MovedInConfined(next, moves, n, list[1..]);
    }
  }

  /** Creating configured namespaces keeps every interface where a cleanup will look for it. */
  lemma ProvisionedConfined(h: Host, moves: Moves, n: Name)
    requires Confined(h, moves) && n in moves
    ensures Confined(Provisioned(h, n, moves[n]), moves)
  {
    if ValidName(n) && n !in h.namespaces {
      var h1 := h.(namespaces := h.namespaces + {n});
      forall i | i in h1.places ensures ConfinedAt(h1, moves, i) {
        assert ConfinedAt(h, moves, i);
      }
      MovedInConfined(h1, moves, n, moves[n]);
    }
  }

  // ----- whole runs -----

  /** The host after provisioning the named namespaces one after the other. */
  function ProvisionedAll(h: Host, moves: Moves, order: seq<Name>): Host
    requires forall n | n in order :: n in moves
    decreases |order|
  {
    if order == [] then h
    else
      assert order[0] in order && forall n | n in order[1..] :: n in order;
      ProvisionedAll(Provisioned(h, order[0], moves[order[0]]), moves, order[1..])
  }

  /** The cleanup of names taken earlier, with whatever is loaded for each by then. */
  function CleanedUpWith(h: Host, names: seq<Name>, entries: seq<Option<seq<string>>>): Host
    requires |names| == |entries|
    decreases |names|
  {
    if names == [] then h
    else CleanedUpWith(CleanedUp(h, names[0], entries[0]), names[1..], entries[1..])
  }

  lemma {:induction false} ProvisionedAllConfined(h: Host, moves: Moves, order: seq<Name>)
    requires Confined(h, moves) && forall n | n in order :: n in moves
    ensures Confined(ProvisionedAll(h, moves, order), moves)
    decreases |order|
  {
    if order == [] {
    } else {
      assert order[0] in order && forall n | n in order[1..] :: n in order;
      ProvisionedConfined(h, moves, order[0]);
      ProvisionedAllConfined(Provisioned(h, order[0], moves[order[0]]), moves, order[1..]);
    }
  }

  /** Each name is configured, and its configuration is at hand. */
  ghost predicate StillLoaded(moves: Moves, names: seq<Name>, entries: seq<Option<seq<string>>>) {
    && |names| == |entries|
    && forall k | 0 <= k < |names| :: names[k] in moves && entries[k] == Some(moves[names[k]])
  }

  lemma {:induction false} CleanedUpRestores(
    h: Host, moves: Moves, names: seq<Name>, entries: seq<Option<seq<string>>>)
    requires Confined(h, moves) && StillLoaded(moves, names, entries)
    ensures var h' := CleanedUpWith(h, names, entries);
            && Confined(h', moves)
            && forall i | i in h'.places && h'.places[i].Inside? ::
                 h'.places[i].namespace !in names && i in h.places && h.places[i] == h'.places[i]
    decreases |names|
  {
    if names == [] {
    } else {
      CleanedUpConfined(h, moves, names[0]);
      CleanedUpRestores(CleanedUp(h, names[0], entries[0]), moves, names[1..], entries[1..]);
    }
  }

  /**
   From a host with every interface outside, whatever configured namespaces were created in
   whatever order, also when two files list the same interface: cleaning up all configured
   namespaces in any order brings every interface back and loses none.
   */
  lemma InterfacesRestored(
    h: Host, moves: Moves, created: seq<Name>, cleaned: seq<Name>, entries: seq<Option<seq<string>>>)
    requires AllDefault(h)
    requires forall n | n in created :: n in moves
    requires StillLoaded(moves, cleaned, entries)
    requires forall n | n in moves :: n in cleaned
    ensures AllDefault(CleanedUpWith(ProvisionedAll(h, moves, created), cleaned, entries))
  {
    ProvisionedAllConfined(h, moves, created);
    var mid := ProvisionedAll(h, moves, created);
    CleanedUpRestores(mid, moves, cleaned, entries);
    var end := CleanedUpWith(mid, cleaned, entries);
    forall i | i in end.places ensures end.places[i] == Default {
      assert ConfinedAt(end, moves, i);
    }
  }

  // ----- exactly where an interface ends up -----

  /** One to fifteen letters, digits, hyphens and underscores. */
  lemma ValidInterfaceIff(s: string)
    ensures ValidInterface(s) <==>
            1 <= |s| <= 15 && forall c | c in s :: IsAllowed(c as int) || c == '_'
  {
    assert forall i | 0 <= i < |s| :: s[i] in s;
  }

  lemma {:induction false} MovedInAllAt(h: Host, list: seq<string>, n: Name, i: string)
    requires i in h.places
    ensures var h' := MovedInAll(h, list, n);
            && i in h'.places && h'.namespaces == h.namespaces
            && h'.places[i] ==
               if h.places[i] == Default && i in list && ValidInterface(i) && i != "lo"
                  && ValidName(n) && n in h.namespaces then Inside(n)
               else h.places[i]
    decreases |list|
  {
    if list == [] {
    } else {
      MovedInAllAt(MovedIn(h, list[0], n), list[1..], n, i);
      assert i in list <==> i == list[0] || i in list[1..];
    }
  }

  /**
   Creating a namespace moves an interface in if and only if the name is valid and free and the
   interface is listed, valid, outside and not the loopback device; it moves no other one.
   */
  lemma ProvisionedAt(h: Host, n: Name, list: seq<string>, i: string)
    requires i in h.places
    ensures var h' := Provisioned(h, n, list);
            && i in h'.places
            && h'.namespaces == (if ValidName(n) then h.namespaces + {n} else h.namespaces)
            && h'.places[i] ==
               if ValidName(n) && n !in h.namespaces && i in list && ValidInterface(i) && i != "lo"
                  && h.places[i] == Default then Inside(n)
               else h.places[i]
  {
    if ValidName(n) && n !in h.namespaces {
      MovedInAllAt(h.(namespaces := h.namespaces + {n}), list, n, i);
    } else if ValidName(n) {
      assert h.namespaces + {n} == h.namespaces;
    }
  }

  /** When two files list the same interface, the namespace created first keeps it. */
  lemma FirstTakesIt(h: Host, first: Name, second: Name, list1: seq<string>, list2: seq<string>, i: string)
    requires i in h.places && h.places[i] == Default && i in list1 && ValidInterface(i) && i != "lo"
    requires ValidName(first) && first !in h.namespaces
    ensures var h' := Provisioned(Provisioned(h, first, list1), second, list2);
            i in h'.places && h'.places[i] == Inside(first)
  {
    ProvisionedAt(h, first, list1, i);
    ProvisionedAt(Provisioned(h, first, list1), second, list2, i);
  }

  // ----- exactly when an interface is lost -----

  /** The cleanup of n, with this configuration at hand, takes i down with the namespace. */
  predicate LosesAt(h: Host, n: Name, entry: Option<seq<string>>, i: string)
    requires i in h.places
  {
    && h.places[i] == Inside(n) && ValidName(n) && n in h.namespaces
    && !(entry.Some? && i in entry.value && ValidInterface(i))
  }

  /** One cleanup loses an interface if and only if it is inside and not on the list at hand. */
  lemma LostIff(h: Host, n: Name, entry: Option<seq<string>>, i: string)
    requires i in h.places
    ensures var h' := CleanedUp(h, n, entry);
            && i in h'.places
            && (h'.places[i] == Lost <==> h.places[i] == Lost || LosesAt(h, n, entry, i))
            && (h.places[i] != Inside(n) ==> h'.places[i] == h.places[i])
  {
    if entry.Some? {
      MovedBackAllAt(h, n, entry.value, i);
    }
  }

  lemma CleanedUpNamespaces(h: Host, n: Name, entry: Option<seq<string>>)
    ensures CleanedUp(h, n, entry).namespaces == if ValidName(n) then h.namespaces - {n} else h.namespaces
  {
    if entry.Some? {
      MovedBackAllSame(h, n, entry.value);
    }
  }

  ghost predicate Distinct(names: seq<Name>) {
    forall j, k | 0 <= j < k < |names| :: names[j] != names[k]
  }

  /** A cleanup puts no interface inside a namespace. */
  lemma CleanedUpInside(h: Host, n: Name, entry: Option<seq<string>>, i: string)
    requires i in h.places
    ensures var h' := CleanedUp(h, n, entry);
            i in h'.places && (h'.places[i].Inside? ==> h'.places[i] == h.places[i])
  {
    if entry.Some? {
      MovedBackAllAt(h, n, entry.value, i);
    }
  }

  /** What the first cleanup leaves the later ones to lose. */
  lemma LaterLosses(h: Host, next: Host, names: seq<Name>, entries: seq<Option<seq<string>>>, i: string)
    requires |names| == |entries| > 0 && Distinct(names) && i in h.places
    requires next == CleanedUp(h, names[0], entries[0])
    requires i in next.places && (h.places[i] != Inside(names[0]) ==> next.places[i] == h.places[i])
    requires next.namespaces == if ValidName(names[0]) then h.namespaces - {names[0]} else h.namespaces
    ensures (exists k :: 0 <= k < |names[1..]| && LosesAt(next, names[1..][k], entries[1..][k], i)) <==>
            (exists k :: 1 <= k < |names| && LosesAt(h, names[k], entries[k], i))
  {
    forall k | 1 <= k < |names|
      ensures LosesAt(next, names[1..][k - 1], entries[1..][k - 1], i) <==> LosesAt(h, names[k], entries[k], i)
    {
      assert names[k] != names[0];
      CleanedUpInside(h, names[0], entries[0], i);
    }
  }

  /**
   A whole cleanup, whatever has been unloaded or rewritten since the names were taken, loses
   an interface if and only if it is inside one of the namespaces and not on the list that is
   loaded for it by then.
   */
  lemma {:induction false} LostInCleanupIff(
    h: Host, names: seq<Name>, entries: seq<Option<seq<string>>>, i: string)
    requires |names| == |entries| && Distinct(names) && i in h.places
    ensures var h' := CleanedUpWith(h, names, entries);
            i in h'.places
            && (h'.places[i] == Lost <==>
                h.places[i] == Lost || exists k :: 0 <= k < |names| && LosesAt(h, names[k], entries[k], i))
    decreases |names|
  {
    if names == [] {
    } else {
      var next := CleanedUp(h, names[0], entries[0]);
      LostIff(h, names[0], entries[0], i);
      CleanedUpNamespaces(h, names[0], entries[0]);
      LostInCleanupIff(next, names[1..], entries[1..], i);
      LaterLosses(h, next, names, entries, i);
    }
  }

  /** A namespace whose configuration is gone by then is deleted with its interfaces inside. */
  lemma UnloadedConfigurationLoses(h: Host, n: Name, i: string)
    requires ValidName(n) && n in h.namespaces && i in h.places && h.places[i] == Inside(n)
    ensures CleanedUp(h, n, None).places[i] == Lost
  {
    LostIff(h, n, None, i);
  }
}
