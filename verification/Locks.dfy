/**
 The daemon's threads and its three mutexes as an interleaving of acquire and release steps.
 Every procedure of the source takes its locks in the order service, config, state.
 */
module Locks {
  datatype Lock = Service | Config | State

  datatype Act = Acquire(lock: Lock) | Release(lock: Lock)

  type Script = seq<Act>

  function Rank(l: Lock): nat {
    match l
    case Service => 0
    case Config => 1
    case State => 2
  }

  // ----- what the procedures do -----

  datatype Deletion = NotTracked | DeleteRefused | Deleted

  datatype Creation = CreateRefused | Created

  /** One entry per procedure, with the branches that change which locks it takes. */
  datatype Procedure =
    | InitialScan
    | StartMonitoring
    | ListNamespaces(authorized: bool)
    | GetNamespaceStatus(authorized: bool)
    | DeleteNamespace(authorized: bool, deletion: Deletion)
    | ReloadConfiguration(authorized: bool)
    | ValidateConfiguration
    | GetDaemonStatus(authorized: bool)
    | RestartNamespace(authorized: bool, configured: bool, deletion: Deletion, creation: Creation)
    | ExecAuthorize(authorized: bool)
    | GracefulShutdown(cleanup: bool, namespaces: seq<bool>)
    | FileEvent(affected: bool)
    | SyncNeeded
    | Synchronize

  /** A guard that lives for the length of body. */
  function With(l: Lock, body: Script): Script {
    [Acquire(l)] + body + [Release(l)]
  }

  function Deleting(d: Deletion): Script {
    With(Config, []) + With(State, []) + (if d.Deleted? then With(State, []) else [])
  }

  function Creating(c: Creation): Script {
    With(Config, []) + (if c.Created? then With(Config, []) + With(State, []) else [])
  }

  /** One guard per namespace for which a kernel handle could be usable. */
  function CleaningUp(namespaces: seq<bool>): Script {
    if namespaces == [] then []
    else (if namespaces[0] then With(Config, []) else []) + CleaningUp(namespaces[1..])
  }

  function Restarting(configured: bool, d: Deletion, c: Creation): Script {
    With(Config, [])
    + (if !configured then [] else Deleting(d) + (if d.Deleted? then Creating(c) else []))
  }

  /** What a message handler does while it holds the service mutex. */
  function Handling(p: Procedure): Script {
    match p
    case ListNamespaces(ok) => if ok then With(Config, []) + With(State, []) else []
    case GetNamespaceStatus(ok) => if ok then With(Config, []) + With(State, []) else []
    case DeleteNamespace(ok, d) => if ok then Deleting(d) else []
    case ReloadConfiguration(ok) => if ok then With(Config, []) else []
    case GetDaemonStatus(ok) => if ok then With(State, []) + With(Config, []) else []
    case RestartNamespace(ok, configured, d, c) => if ok then Restarting(configured, d, c) else []
    case ExecAuthorize(ok) => if ok then With(Config, []) + With(State, []) else []
    case _ => []
  }

  function Code(p: Procedure): Script {
    match p
    case InitialScan => With(Config, [])
    case StartMonitoring => With(Config, [])
    case GracefulShutdown(cleanup, namespaces) =>
      With(Config, []) + (if cleanup then With(Config, []) + CleaningUp(namespaces) else [])
    case FileEvent(affected) => With(Config, []) + (if affected then With(Config, With(State, [])) else [])
    case SyncNeeded => With(State, [])
    case Synchronize => With(Config, With(State, []))
    case _ => With(Service, Handling(p))
  }

  // ----- the same, step by step -----

  /** Taking the mutex and releasing it again. */
  function Briefly(l: Lock): Script {
    [Acquire(l), Release(l)]
  }

  lemma WithNothing(l: Lock)
    ensures With(l, []) == Briefly(l)
  {
  }

  lemma AllBrief()
    ensures With(Service, []) == Briefly(Service)
    ensures With(Config, []) == Briefly(Config)
    ensures With(State, []) == Briefly(State)
  {
    WithNothing(Service);
    WithNothing(Config);
    WithNothing(State);
  }

  /** A synchronization holds the configuration from before it takes the state until after. */
  lemma SynchronizeSteps()
    ensures Code(Synchronize) == [Acquire(Config), Acquire(State), Release(State), Release(Config)]
  {
  }

  /** What the event loop's other procedures take. */
  lemma LoopSteps(affected: bool)
    ensures Code(InitialScan) == Briefly(Config) && Code(StartMonitoring) == Briefly(Config)
    ensures Code(SyncNeeded) == Briefly(State)
    ensures Code(FileEvent(affected)) == Briefly(Config) + (if affected then Code(Synchronize) else [])
  {
    AllBrief();
    assert Briefly(Config) + [] == Briefly(Config);
  }

  /** The service is held from the first step to the last, with these steps in between. */
  function Serving(steps: Script): Script {
    [Acquire(Service)] + steps + [Release(Service)]
  }

  /** What the handlers of single questions take: nothing more when the call is not authorized. */
  lemma QuestionSteps(ok: bool)
    ensures Code(ListNamespaces(ok)) == Serving(if ok then Briefly(Config) + Briefly(State) else [])
    ensures Code(GetNamespaceStatus(ok)) == Serving(if ok then Briefly(Config) + Briefly(State) else [])
    ensures Code(ExecAuthorize(ok)) == Serving(if ok then Briefly(Config) + Briefly(State) else [])
    ensures Code(GetDaemonStatus(ok)) == Serving(if ok then Briefly(State) + Briefly(Config) else [])
    ensures Code(ReloadConfiguration(ok)) == Serving(if ok then Briefly(Config) else [])
    ensures Code(ValidateConfiguration) == Serving([])
  {
    AllBrief();
  }

  /** A deletion looks the name up in configuration and state, and forgets it when the kernel agreed. */
  lemma DeletionSteps(ok: bool, d: Deletion)
    ensures Code(DeleteNamespace(ok, d)) ==
            Serving(if !ok then []
                    else Briefly(Config) + Briefly(State) + (if d == Deleted then Briefly(State) else []))
  {
    AllBrief();
  }

  /** A restart reads the configuration, deletes, and creates only behind a deletion that succeeded. */
  lemma RestartSteps(ok: bool, configured: bool, d: Deletion, c: Creation)
    ensures var forgetting := if d == Deleted then Briefly(State) else [];
            var deleting := Briefly(Config) + Briefly(State) + forgetting;
            var entering := if c == Created then Briefly(Config) + Briefly(State) else [];
            var creating := if d == Deleted then Briefly(Config) + entering else [];
            Code(RestartNamespace(ok, configured, d, c)) ==
            Serving(if !ok then [] else Briefly(Config) + (if configured then deleting + creating else []))
  {
    AllBrief();
  }

  /** A shutdown takes the configuration briefly, again and again, once per usable namespace. */
  lemma ShutdownSteps(usable: bool, namespaces: seq<bool>)
    ensures Code(GracefulShutdown(false, namespaces)) == Briefly(Config)
    ensures Code(GracefulShutdown(true, [])) == Briefly(Config) + Briefly(Config)
    ensures Code(GracefulShutdown(true, namespaces + [usable])) ==
            Code(GracefulShutdown(true, namespaces)) + (if usable then Briefly(Config) else [])
  {
    AllBrief();
    CleaningUpLast(namespaces, usable);
    assert Briefly(Config) + [] == Briefly(Config);
    Regrouped(Briefly(Config), Briefly(Config), CleaningUp(namespaces), if usable then Briefly(Config) else []);
  }

  lemma Regrouped(a: Script, b: Script, c: Script, d: Script)
    ensures a + (b + (c + d)) == a + (b + c) + d
  {
  }

  lemma {:induction false} CleaningUpLast(namespaces: seq<bool>, usable: bool)
    ensures CleaningUp(namespaces + [usable]) == CleaningUp(namespaces) + (if usable then Briefly(Config) else [])
    decreases |namespaces|
  {
    var all := namespaces + [usable];
    WithNothing(Config);
    if namespaces == [] {
      assert all[1..] == [];
      assert CleaningUp(all) == (if usable then With(Config, []) else []) + CleaningUp([]);
    } else {
      assert all[1..] == namespaces[1..] + [usable];
      CleaningUpLast(namespaces[1..], usable);
    }
  }

  // ----- lock order -----

  /** Run from held, the script takes locks only above those it holds and ends holding end. */
  predicate Disciplined(script: Script, held: set<Lock>, end: set<Lock>) {
    if script == [] then held == end
    else
      match script[0]
      case Acquire(l) =>
        (forall h | h in held :: Rank(h) < Rank(l)) && Disciplined(script[1..], held + {l}, end)
      case Release(l) =>
        l in held && Disciplined(script[1..], held - {l}, end)
  }

  lemma {:induction false} Append(a: Script, b: Script, held: set<Lock>, mid: set<Lock>, end: set<Lock>)
    requires Disciplined(a, held, mid) && Disciplined(b, mid, end)
    ensures Disciplined(a + b, held, end)
    decreases |a|
  {
    if a == [] {
      assert a + b == b;
    } else {
      assert (a + b)[1..] == a[1..] + b;
      match a[0]
      case Acquire(l) => Append(a[1..], b, held + {l}, mid, end);
      case Release(l) => Append(a[1..], b, held - {l}, mid, end);
    }
  }

  /** A guard above every held lock, around a body that returns to where it started. */
  lemma Guard(l: Lock, body: Script, held: set<Lock>)
    requires forall h | h in held :: Rank(h) < Rank(l)
    requires Disciplined(body, held + {l}, held + {l})
    ensures Disciplined(With(l, body), held, held)
  {
    assert held + {l} - {l} == held;
    var release := [Release(l)];
    assert release[1..] == [];
    Append(body, release, held + {l}, held + {l}, held);
    assert With(l, body)[1..] == body + release;
  }

  lemma EmptyGuard(l: Lock, held: set<Lock>)
    requires forall h | h in held :: Rank(h) < Rank(l)
    ensures Disciplined(With(l, []), held, held)
  {
    Guard(l, [], held);
  }

  lemma DeletingDisciplined(d: Deletion, held: set<Lock>)
    requires held <= {Service}
    ensures Disciplined(Deleting(d), held, held)
  {
    EmptyGuard(Config, held);
    EmptyGuard(State, held);
    Append(With(Config, []), With(State, []), held, held, held);
    var rest := if d.Deleted? then With(State, []) else [];
    Append(With(Config, []) + With(State, []), rest, held, held, held);
  }

  lemma CreatingDisciplined(c: Creation, held: set<Lock>)
    requires held <= {Service}
    ensures Disciplined(Creating(c), held, held)
  {
    EmptyGuard(Config, held);
    EmptyGuard(State, held);
    Append(With(Config, []), With(State, []), held, held, held);
    var rest := if c.Created? then With(Config, []) + With(State, []) else [];
    Append(With(Config, []), rest, held, held, held);
  }

  lemma {:induction false} CleaningUpDisciplined(namespaces: seq<bool>)
    ensures Disciplined(CleaningUp(namespaces), {}, {})
    decreases |namespaces|
  {
    if namespaces == [] {
    } else {
      EmptyGuard(Config, {});
      CleaningUpDisciplined(namespaces[1..]);
      var first := if namespaces[0] then With(Config, []) else [];
      Append(first, CleaningUp(namespaces[1..]), {}, {}, {});
    }
  }

  lemma ConfigThenState(held: set<Lock>)
    requires held <= {Service}
    ensures Disciplined(With(Config, []) + With(State, []), held, held)
    ensures Disciplined(With(State, []) + With(Config, []), held, held)
    ensures Disciplined(With(Config, []), held, held)
  {
    EmptyGuard(Config, held);
    EmptyGuard(State, held);
    Append(With(Config, []), With(State, []), held, held, held);
    Append(With(State, []), With(Config, []), held, held, held);
  }

  lemma RestartDisciplined(configured: bool, d: Deletion, c: Creation)
    ensures Disciplined(Restarting(configured, d, c), {Service}, {Service})
  {
    var held := {Service};
    EmptyGuard(Config, held);
    DeletingDisciplined(d, held);
    CreatingDisciplined(c, held);
    var creating := if d.Deleted? then Creating(c) else [];
    Append(Deleting(d), creating, held, held, held);
    var rest := if !configured then [] else Deleting(d) + creating;
    Append(With(Config, []), rest, held, held, held);
  }

  lemma NestedSync()
    ensures Disciplined(With(Config, With(State, [])), {}, {})
  {
    EmptyGuard(State, {Config});
    assert {} + {Config} == {Config};
    Guard(Config, With(State, []), {});
  }

  lemma ServiceGuard(body: Script)
    requires Disciplined(body, {Service}, {Service})
    ensures Disciplined(With(Service, body), {}, {})
  {
    assert {} + {Service} == {Service};
    Guard(Service, body, {});
  }

  lemma FileEventDisciplined(affected: bool)
    ensures Disciplined(Code(FileEvent(affected)), {}, {})
  {
    ConfigThenState({});
    NestedSync();
    var rest := if affected then With(Config, With(State, [])) else [];
    Append(With(Config, []), rest, {}, {}, {});
  }

  lemma ShutdownDisciplined(cleanup: bool, namespaces: seq<bool>)
    ensures Disciplined(Code(GracefulShutdown(cleanup, namespaces)), {}, {})
  {
    ConfigThenState({});
    CleaningUpDisciplined(namespaces);
    Append(With(Config, []), CleaningUp(namespaces), {}, {}, {});
    var rest := if cleanup then With(Config, []) + CleaningUp(namespaces) else [];
    Append(With(Config, []), rest, {}, {}, {});
  }

  lemma HandlingDisciplined(p: Procedure)
    ensures Disciplined(Handling(p), {Service}, {Service})
  {
    ConfigThenState({Service});
    match p
    case DeleteNamespace(ok, d) => DeletingDisciplined(d, {Service});
    case RestartNamespace(ok, configured, d, c) => RestartDisciplined(configured, d, c);
    case _ =>
  }

  /** Every procedure of the source respects the order service, config, state and releases all. */
  lemma CodeDisciplined(p: Procedure)
    ensures Disciplined(Code(p), {}, {})
  {
    match p
    case InitialScan => EmptyGuard(Config, {});
    case StartMonitoring => EmptyGuard(Config, {});
    case GracefulShutdown(cleanup, namespaces) => ShutdownDisciplined(cleanup, namespaces);
    case FileEvent(affected) => FileEventDisciplined(affected);
    case SyncNeeded => EmptyGuard(State, {});
    case Synchronize => NestedSync();
    case _ =>
      HandlingDisciplined(p);
      ServiceGuard(Handling(p));
  }

  // ----- interleavings -----

  datatype Thread = Thread(held: set<Lock>, todo: Script)

  type System = seq<Thread>

  ghost predicate Free(s: System, l: Lock) {
    forall i | 0 <= i < |s| :: l !in s[i].held
  }

  /** Thread i can take its next step: a release, or an acquisition of a lock nobody holds. */
  ghost predicate Enabled(s: System, i: nat) {
    && i < |s| && s[i].todo != []
    && (s[i].todo[0].Acquire? ==> Free(s, s[i].todo[0].lock))
  }

  function Advanced(t: Thread): Thread
    requires t.todo != []
  {
    match t.todo[0]
    case Acquire(l) => Thread(t.held + {l}, t.todo[1..])
    case Release(l) => Thread(t.held - {l}, t.todo[1..])
  }

  datatype Op = Begin(thread: nat, procedure: Procedure) | Advance(thread: nat)

  /** An idle thread begins any procedure, or a thread takes its next lock step. */
  ghost predicate Step(s: System, op: Op, s': System) {
    match op
    case Begin(i, p) =>
      i < |s| && s[i].todo == [] && s' == s[i := s[i].(todo := Code(p))]
    case Advance(i) =>
      Enabled(s, i) && s' == s[i := Advanced(s[i])]
  }

  ghost predicate Run(ss: seq<System>, ops: seq<Op>) {
    && |ss| == |ops| + 1
    && forall i | 0 <= i < |ops| :: Step(ss[i], ops[i], ss[i + 1])
  }

  ghost predicate Idle(s: System) {
    forall i | 0 <= i < |s| :: s[i].todo == [] && s[i].held == {}
  }

  /** Each lock has at most one holder, and what is left of each thread is in order. */
  ghost predicate Orderly(s: System) {
    && (forall i | 0 <= i < |s| :: Disciplined(s[i].todo, s[i].held, {}))
    && (forall i, j, l | 0 <= i < |s| && 0 <= j < |s| && l in s[i].held && l in s[j].held :: i == j)
  }

  lemma StepOrderly(s: System, op: Op, s': System)
    requires Orderly(s) && Step(s, op, s')
    ensures Orderly(s')
  {
    match op
    case Begin(i, p) => CodeDisciplined(p);
    case Advance(i) =>
  }

  lemma {:induction false} RunOrderly(ss: seq<System>, ops: seq<Op>, n: nat)
    requires Run(ss, ops) && Idle(ss[0]) && n < |ss|
    ensures Orderly(ss[n])
  {
    if n == 0 {
    } else {
      RunOrderly(ss, ops, n - 1);
      assert Step(ss[n - 1], ops[n - 1], ss[n]);
      StepOrderly(ss[n - 1], ops[n - 1], ss[n]);
    }
  }

  /** From a thread with work left, following the holders of the locks waited for ends at one that can go on. */
  lemma {:induction false} SomeoneCanGoOn(s: System, i: nat) returns (k: nat)
    requires Orderly(s) && i < |s| && s[i].todo != []
    ensures Enabled(s, k)
    decreases if s[i].todo[0].Acquire? then 3 - Rank(s[i].todo[0].lock) else 0
  {
    assert Disciplined(s[i].todo, s[i].held, {});
    if s[i].todo[0].Release? || Free(s, s[i].todo[0].lock) {
      k := i;
    } else {
      var l := s[i].todo[0].lock;
      var j :| 0 <= j < |s| && l in s[j].held;
      assert Disciplined(s[j].todo, s[j].held, {});
      assert s[j].todo != [];
      k := SomeoneCanGoOn(s, j);
    }
  }

  /** No reachable interleaving has every unfinished thread blocked. */
  lemma NoDeadlock(ss: seq<System>, ops: seq<Op>, n: nat)
    requires Run(ss, ops) && Idle(ss[0]) && n < |ss|
    requires exists i :: 0 <= i < |ss[n]| && ss[n][i].todo != []
    ensures exists k: nat :: Enabled(ss[n], k)
  {
    RunOrderly(ss, ops, n);
    var i :| 0 <= i < |ss[n]| && ss[n][i].todo != [];
    var k := SomeoneCanGoOn(ss[n], i);
  }

  /** No thread waits for a lock it holds, nor for the configuration while it holds the state. */
  lemma NoReentry(ss: seq<System>, ops: seq<Op>, n: nat, i: nat)
    requires Run(ss, ops) && Idle(ss[0]) && n < |ss|
    requires i < |ss[n]| && ss[n][i].todo != [] && ss[n][i].todo[0].Acquire?
    ensures ss[n][i].todo[0].lock !in ss[n][i].held
    ensures ss[n][i].todo[0].lock.Config? ==> State !in ss[n][i].held
  {
    RunOrderly(ss, ops, n);
    assert Disciplined(ss[n][i].todo, ss[n][i].held, {});
  }

  function Work(s: System): nat {
    if s == [] then 0 else |s[0].todo| + Work(s[1..])
  }

  lemma {:induction false} WorkShrinks(s: System, i: nat)
    requires i < |s| && s[i].todo != []
    ensures Work(s[i := Advanced(s[i])]) == Work(s) - 1
    decreases i
  {
    var s' := s[i := Advanced(s[i])];
    if i == 0 {
      assert s'[1..] == s[1..];
    } else {
      assert s'[1..] == s[1..][i - 1 := Advanced(s[i])];
      WorkShrinks(s[1..], i - 1);
    }
  }

  ghost predicate OnlyAdvances(ops: seq<Op>) {
    forall i | 0 <= i < |ops| :: ops[i].Advance?
  }

  lemma {:induction false} NoWork(s: System)
    requires forall i | 0 <= i < |s| :: s[i].todo == []
    ensures Work(s) == 0
    decreases |s|
  {
    if s == [] {
    } else {
      NoWork(s[1..]);
    }
  }

  /** From any reachable state every thread can be brought to its end, releasing every lock. */
  lemma {:induction false} Drains(s: System) returns (ss: seq<System>, ops: seq<Op>)
    requires Orderly(s)
    ensures Run(ss, ops) && ss[0] == s && OnlyAdvances(ops) && Idle(ss[|ss| - 1])
    ensures |ops| == Work(s)
    decreases Work(s)
  {
    if i :| 0 <= i < |s| && s[i].todo != [] {
      var k := SomeoneCanGoOn(s, i);
      var s' := s[k := Advanced(s[k])];
      WorkShrinks(s, k);
      assert Step(s, Advance(k), s');
      StepOrderly(s, Advance(k), s');
      var rest, more := Drains(s');
      ss, ops := [s] + rest, [Advance(k)] + more;
      forall j | 0 <= j < |ops| ensures Step(ss[j], ops[j], ss[j + 1]) {
        if j > 0 {
          assert Step(rest[j - 1], more[j - 1], rest[j]);
        }
      }
    } else {
      ss, ops := [s], [];
      NoWork(s);
      forall i | 0 <= i < |s| ensures s[i].held == {} {
        assert Disciplined(s[i].todo, s[i].held, {});
      }
    }
  }
}
