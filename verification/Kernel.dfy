/**
 The in-memory kernel backend: a map of namespaces and a counter for their ids.
 */
module Kernel {
  import opened Wrappers
  import opened Names

  datatype NamespaceInfo = NamespaceInfo(name: Name, id: nat, path: string, active: bool)

  datatype KernelError = InvalidName | NamespaceExists | NamespaceNotFound

  /** The value of the backend at one moment. */
  datatype KernelView = KernelView(namespaces: map<Name, NamespaceInfo>, nextId: nat)

  const FIRST_ID := 1000

  /** Entries sit under their own name, are active, and hold distinct ids already handed out. */
  ghost predicate Consistent(k: KernelView) {
    && (forall n | n in k.namespaces ::
          k.namespaces[n].name == n && k.namespaces[n].active && k.namespaces[n].id < k.nextId)
    && (forall a, b | a in k.namespaces && b in k.namespaces && a != b ::
          k.namespaces[a].id != k.namespaces[b].id)
  }

  predicate CanCreate(k: KernelView, name: Name) {
    ValidName(name) && name !in k.namespaces
  }

  predicate CanDelete(k: KernelView, name: Name) {
    ValidName(name) && name in k.namespaces
  }

  function InfoFor(name: Name, id: nat): NamespaceInfo {
    NamespaceInfo(name, id, "/sim/netns/" + name, true)
  }

  function WithCreated(k: KernelView, name: Name): KernelView {
    KernelView(k.namespaces[name := InfoFor(name, k.nextId)], k.nextId + 1)
  }

  function WithDeleted(k: KernelView, name: Name): KernelView {
    k.(namespaces := k.namespaces - {name})
  }

  /** n is a namespace of k1 as creation leaves it, with an id handed out since k0. */
  ghost predicate NewIn(k0: KernelView, k1: KernelView, n: Name) {
    && n in k1.namespaces
    && k0.nextId <= k1.namespaces[n].id < k1.nextId
    && k1.namespaces[n] == InfoFor(n, k1.namespaces[n].id)
  }

  ghost predicate Preserves(k0: KernelView, k1: KernelView) {
    forall n | n in k0.namespaces :: n in k1.namespaces && k1.namespaces[n] == k0.namespaces[n]
  }

  ghost predicate AllNew(k0: KernelView, k1: KernelView, names: set<Name>) {
    forall n | n in names :: NewIn(k0, k1, n)
  }

  /** k1 has exactly these further names and has handed out that many further ids. */
  ghost predicate Counted(k0: KernelView, k1: KernelView, names: set<Name>) {
    && k1.namespaces.Keys == k0.namespaces.Keys + names
    && k1.nextId == k0.nextId + |names|
  }

  ghost predicate DistinctIds(k: KernelView, names: set<Name>)
    requires names <= k.namespaces.Keys
  {
    forall a, b | a in names && b in names && a != b :: k.namespaces[a].id != k.namespaces[b].id
  }

  /**
   k1 is k0 plus new namespaces of exactly these names, in some order: old entries are
   untouched and the new ids are the next ones, each used once.
   */
  ghost predicate Grown(k0: KernelView, k1: KernelView, names: set<Name>) {
    && Counted(k0, k1, names)
    && Preserves(k0, k1)
    && AllNew(k0, k1, names)
    && DistinctIds(k1, names)
  }

  lemma CountedAfterOne(k0: KernelView, k1: KernelView, names: set<Name>, n: Name)
    requires Counted(k0, k1, names) && n !in k1.namespaces
    ensures Counted(k0, WithCreated(k1, n), names + {n})
  {
  }

  lemma AllNewAfterOne(k0: KernelView, k1: KernelView, names: set<Name>, n: Name)
    requires k0.nextId <= k1.nextId
    requires AllNew(k0, k1, names) && n !in k1.namespaces
    ensures AllNew(k0, WithCreated(k1, n), names + {n})
  {
    forall m | m in names + {n} ensures NewIn(k0, WithCreated(k1, n), m) {
      if m != n {
        assert NewIn(k0, k1, m);
      }
    }
  }

  lemma DistinctAfterOne(k0: KernelView, k1: KernelView, names: set<Name>, n: Name)
    requires Grown(k0, k1, names)
    requires n !in k1.namespaces
    requires names + {n} <= WithCreated(k1, n).namespaces.Keys
    ensures DistinctIds(WithCreated(k1, n), names + {n})
  {
    forall m | m in names ensures k1.namespaces[m].id < k1.nextId {
      assert NewIn(k0, k1, m);
    }
  }

  lemma PreservesAfterOne(k0: KernelView, k1: KernelView, n: Name)
    requires Preserves(k0, k1) && n !in k1.namespaces
    ensures Preserves(k0, WithCreated(k1, n))
  {
  }

  lemma GrownByOne(k0: KernelView, k1: KernelView, names: set<Name>, n: Name)
    requires Grown(k0, k1, names)
    requires n !in k1.namespaces
    ensures Grown(k0, WithCreated(k1, n), names + {n})
  {
    CountedAfterOne(k0, k1, names, n);
    PreservesAfterOne(k0, k1, n);
    AllNewAfterOne(k0, k1, names, n);
    DistinctAfterOne(k0, k1, names, n);
  }

  /** Creating namespaces never breaks the id discipline. */
  lemma GrownConsistent(k0: KernelView, k1: KernelView, names: set<Name>)
    requires Consistent(k0) && Grown(k0, k1, names)
    requires names !! k0.namespaces.Keys
    ensures Consistent(k1)
  {
    forall a, b | a in k1.namespaces && b in k1.namespaces && a != b
      ensures k1.namespaces[a].id != k1.namespaces[b].id
    {
      if a in names && b in names {
      } else if a in names {
        assert b in k0.namespaces;
      } else if b in names {
        assert a in k0.namespaces;
      } else {
        assert a in k0.namespaces && b in k0.namespaces;
      }
    }
  }

  class SimulatedKernel {
    var namespaces: map<Name, NamespaceInfo>
    var nextId: nat

    function View(): KernelView
      reads this
    {
      KernelView(namespaces, nextId)
    }

    constructor ()
      ensures namespaces == map[] && nextId == 1000
      ensures Consistent(View())
    {
      namespaces, nextId := map[], FIRST_ID;
    }

    method CreateNamespace(name: Name) returns (r: Result<NamespaceInfo, KernelError>)
      modifies this
      ensures r.Ok? <==> ValidName(name) && name !in old(namespaces)
      ensures r.Ok? ==>
                && r.value == NamespaceInfo(name, old(nextId), "/sim/netns/" + name, true)
                && namespaces == old(namespaces)[name := r.value] && nextId == old(nextId) + 1
      ensures r.Err? ==> View() == old(View())
      ensures r.Err? ==> r.error == if ValidName(name) then NamespaceExists else InvalidName
    {
      if !ValidName(name) {
        return Err(InvalidName);
      }
      if name in namespaces {
        return Err(NamespaceExists);
      }
      var id := nextId;
      nextId := nextId + 1;
      var info := NamespaceInfo(name, id, "/sim/netns/" + name, true);
      namespaces := namespaces[name := info];
      return Ok(info);
    }

    method DeleteNamespace(name: Name) returns (r: Result<(), KernelError>)
      modifies this
      ensures r.Ok? <==> ValidName(name) && name in old(namespaces)
      ensures r.Ok? ==> namespaces == old(namespaces) - {name} && nextId == old(nextId)
      ensures r.Err? ==> View() == old(View())
      ensures r.Err? ==> r.error == if ValidName(name) then NamespaceNotFound else InvalidName
    {
      if !ValidName(name) {
        return Err(InvalidName);
      }
      if name !in namespaces {
        return Err(NamespaceNotFound);
      }
      namespaces := namespaces - {name};
      return Ok(());
    }
  }
}
