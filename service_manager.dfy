/**
 * QtIVIServiceManager and its private part: the ordered list of backend
 * records, the set of known interface names, registration, lazy loading,
 * resolution by interface name, teardown and the list-model view.
 */
module IviServiceManager {
  import opened Wrappers
  import opened Backends
  import opened RegistrySpec

  /** Qt::DisplayRole. */
  const DisplayRole: int := 0

  /** A QModelIndex as the list model reads it. */
  datatype ModelIndex = ModelIndex(valid: bool, row: int)

  /** QModelIndex(): the invalid (root) index. */
  const RootIndex: ModelIndex := ModelIndex(false, -1)

  /** QtIVIProxyServiceObject: a fresh wrapper around one interface pointer. */
  class ProxyServiceObject {
    const serviceInterface: Option<Obj>

    constructor (serviceInterface: Option<Obj>)
      ensures this.serviceInterface == serviceInterface
    {
      this.serviceInterface := serviceInterface;
    }
  }

  /** The interface pointers a list of proxies wraps. */
  function Wrapped(list: seq<ProxyServiceObject>): seq<Option<Obj>>
  {
    seq(|list|, k requires 0 <= k < |list| => list[k].serviceInterface)
  }

  /** Every proxy in the list was allocated since the previous state, and no
      proxy appears twice. */
  twostate predicate NewAndDistinct(new list: seq<ProxyServiceObject>)
  {
    (forall k :: 0 <= k < |list| ==> fresh(list[k])) &&
    (forall j, k :: 0 <= j < k < |list| ==> list[j] != list[k])
  }

  twostate lemma NewAndDistinctAppend(new list: seq<ProxyServiceObject>, new proxy: ProxyServiceObject)
    requires NewAndDistinct(list) && fresh(proxy) && proxy !in list
    ensures NewAndDistinct(list + [proxy])
  {
  }

  class ServiceManager {
    /** m_backends, in registration order. */
    var backends: seq<Backend>
    /** m_interfaceNames. */
    var interfaceNames: set<string>
    /** The plugin files the loader was asked for, in order. */
    ghost var loadLog: seq<string>
    /** The records the teardown loop took and deleted (unloading a loaded
        plugin, deleting a directly registered object). */
    ghost var released: seq<Backend>

    ghost predicate Valid()
      reads this
    {
      forall k :: 0 <= k < |backends| ==> WellFormed(backends[k]) && Declares(interfaceNames, backends[k])
    }

    /** QtIVIServiceManager(): an empty registry populated by a plugin scan. */
    constructor (candidates: seq<PluginCandidate>)
      ensures Valid()
      ensures backends == PluginBackends(candidates)
      ensures interfaceNames == AllInterfaces(PluginBackends(candidates))
      ensures loadLog == [] && released == []
    {
      backends := [];
      interfaceNames := {};
      loadLog := [];
      released := [];
      new;
      var found := SearchPlugins(candidates);
    }

    /** searchPlugins, over the (fileName, metadata) pairs the directory scan found.
        `found` is false exactly when the scan found nothing (the warning case). */
    method SearchPlugins(candidates: seq<PluginCandidate>) returns (found: bool)
      requires Valid()
      modifies this
      ensures Valid()
      ensures found <==> |candidates| > 0
      ensures backends == old(backends) + PluginBackends(candidates)
      ensures interfaceNames == old(interfaceNames) + AllInterfaces(PluginBackends(candidates))
      ensures loadLog == old(loadLog) && released == old(released)
    {
      found := false;
      var i := 0;
      while i < |candidates|
        invariant 0 <= i <= |candidates|
        invariant Valid()
        invariant found <==> i > 0
        invariant backends == old(backends) + PluginBackends(candidates[..i])
        invariant interfaceNames == old(interfaceNames) + AllInterfaces(PluginBackends(candidates[..i]))
        invariant loadLog == old(loadLog) && released == old(released)
      {
        PluginBackendsStep(candidates, i);
        RegisterPluginBackend(candidates[i].fileName, candidates[i].metaData);
        found := true;
        i := i + 1;
      }
      assert candidates[..i] == candidates;
    }

    /** registerBackend(fileName, metaData): metadata without a non-empty
        interface list is rejected; otherwise a not yet loaded record is added. */
    method RegisterPluginBackend(fileName: string, metaData: VariantMap)
      requires Valid()
      modifies this
      ensures Valid()
      ensures HasInterfaceList(metaData) ==>
        backends == old(backends) + [PluginBackend(fileName, metaData)] &&
        interfaceNames == old(interfaceNames) + InterfaceSet(PluginBackend(fileName, metaData))
      ensures !HasInterfaceList(metaData) ==>
        backends == old(backends) && interfaceNames == old(interfaceNames)
      ensures loadLog == old(loadLog) && released == old(released)
    {
      if IsNull(Value(metaData, InterfacesKey)) || ListIsEmpty(Value(metaData, InterfacesKey)) {
        return;
      }
      var backend := PluginBackend(fileName, metaData);
      PluginBackendIsWellFormed(fileName, metaData);
      AddBackend(backend);
    }

    /** registerService / registerBackend(object, interfaces): fails without
        change for an empty interface list or an object without the capability;
        otherwise appends one record that is already loaded and has no loader. */
    method RegisterService(serviceBackendInterface: Option<Obj>, interfaces: seq<string>) returns (ok: bool)
      requires Valid()
      modifies this
      ensures Valid()
      ensures ok <==> |interfaces| > 0 && CastToServiceInterface(serviceBackendInterface).Some?
      ensures !ok ==> backends == old(backends) && interfaceNames == old(interfaceNames)
      ensures ok ==>
        backends == old(backends) + [DirectBackend(serviceBackendInterface.value, interfaces)] &&
        backends[|old(backends)|].iface == serviceBackendInterface &&
        backends[|old(backends)|].loader.None? &&
        Interfaces(backends[|old(backends)|]) == interfaces &&
        interfaceNames == old(interfaceNames) + (set n | n in interfaces)
      ensures loadLog == old(loadLog) && released == old(released)
    {
      if |interfaces| == 0 {
        return false;
      }
      var iface := CastToServiceInterface(serviceBackendInterface);
      if iface.None? {
        return false;
      }
      var backend := DirectBackend(iface.value, interfaces);
      DirectBackendIsWellFormed(iface.value, interfaces);
      AddBackend(backend);
      return true;
    }

    /** addBackend: appends the record, then inserts each of its interface names. */
    method AddBackend(backend: Backend)
      requires Valid() && WellFormed(backend)
      modifies this
      ensures Valid()
      ensures backends == old(backends) + [backend]
      ensures interfaceNames == old(interfaceNames) + InterfaceSet(backend)
      ensures forall n :: n in Interfaces(backend) ==> HasInterface(n)
      ensures RowCount(RootIndex) == old(RowCount(RootIndex)) + 1
      ensures loadLog == old(loadLog) && released == old(released)
    {
      backends := backends + [backend];
      var names := Interfaces(backend);
      var i := 0;
      while i < |names|
        invariant 0 <= i <= |names|
        invariant backends == old(backends) + [backend]
        invariant interfaceNames == old(interfaceNames) + set n | n in names[..i]
        invariant loadLog == old(loadLog) && released == old(released)
      {
        assert names[..i + 1] == names[..i] + [names[i]];
        interfaceNames := interfaceNames + {names[i]};
        i := i + 1;
      }
      assert names[..i] == names;
    }

    /** loadServiceBackendInterface for the record at `index`: the cached
        interface if there is one, otherwise one call of the loader whose
        result is kept only when it has the capability. */
    method LoadServiceBackendInterface(index: nat, instance: Instantiate) returns (iface: Option<Obj>)
      requires Valid() && index < |backends|
      modifies this
      ensures Valid()
      ensures backends == old(backends)[index := Loaded(old(backends)[index], instance)]
      ensures iface == backends[index].iface
      ensures old(backends)[index].iface.Some? ==> iface == old(backends)[index].iface && loadLog == old(loadLog)
      ensures old(backends)[index].iface.None? ==> loadLog == old(loadLog) + [FileName(old(backends)[index])]
      ensures iface.Some? ==> SatisfiesBackendContract(iface.value)
      ensures interfaceNames == old(interfaceNames) && released == old(released)
    {
      var backend := backends[index];
      if backend.iface.Some? {
        return backend.iface;
      }
      var fileName := FileName(backend);
      var plugin := instance(fileName);
      loadLog := loadLog + [fileName];
      if plugin.Some? {
        var backendInterface := CastToServiceInterface(plugin);
        if backendInterface.Some? {
          backends := backends[index := backend.(iface := backendInterface, loader := Some(PluginLoader(fileName)))];
          return backendInterface;
        }
      }
      return None;
    }

    /** findServiceByInterface: one fresh proxy per record declaring `name`, in
        registry order, loading each such record first; a record whose load
        failed still yields a proxy, over a null interface. */
    method FindServiceByInterface(name: string, instance: Instantiate) returns (list: seq<ProxyServiceObject>)
      requires Valid()
      modifies this
      ensures Valid()
      ensures backends == LoadMatching(old(backends), name, instance)
      ensures Wrapped(list) == Resolve(old(backends), name, instance)
      ensures |list| == MatchCount(old(backends), name)
      ensures forall k :: 0 <= k < |list| ==> fresh(list[k])
      ensures forall j, k :: 0 <= j < k < |list| ==> list[j] != list[k]
      ensures loadLog == old(loadLog) + LoadAttempts(old(backends), name)
      ensures interfaceNames == old(interfaceNames) && released == old(released)
    {
      ghost var start := backends;
      list := [];
      var i := 0;
      while i < |backends|
        invariant Valid()
        invariant ResolvedUpTo(start, backends, name, instance, i)
        invariant Wrapped(list) == Resolve(start[..i], name, instance)
        invariant NewAndDistinct(list)
        invariant loadLog == old(loadLog) + LoadAttempts(start[..i], name)
        invariant interfaceNames == old(interfaceNames) && released == old(released)
      {
        ResolveStep(start, name, instance, i);
        ghost var before := backends;
        if name in Interfaces(backends[i]) {
          var backendInterface := LoadServiceBackendInterface(i, instance);
          var proxy := new ProxyServiceObject(backendInterface);
          assert Wrapped(list + [proxy]) == Wrapped(list) + [backendInterface];
          NewAndDistinctAppend(list, proxy);
          list := list + [proxy];
        }
        ResolvedStep(start, before, backends, name, instance, i);
        i := i + 1;
      }
      ResolvedAll(start, backends, name, instance);
      assert start[..i] == start;
      ResolveLength(start, name, instance);
    }

    /** unloadAllBackends as written: takeAt(i) followed by i++ skips every
        other record, so only the records at even original positions are
        released before the list is cleared; the interface names stay.
        `dropped` is what the list still held when clear() emptied it: the
        records at odd original positions, never released. */
    method UnloadAllBackends() returns (ghost dropped: seq<Backend>)
      requires Valid()
      modifies this
      ensures Valid()
      ensures backends == [] && RowCount(RootIndex) == 0
      ensures released == old(released) + EvenPositions(old(backends))
      ensures dropped == OddPositions(old(backends))
      ensures multiset(released[|old(released)|..]) + multiset(dropped) == multiset(old(backends))
      ensures interfaceNames == old(interfaceNames) && loadLog == old(loadLog)
    {
      ghost var start := backends;
      var i := 0;
      while i < |backends|
        invariant TakeAtProgress(start, backends, i)
        invariant EveryOtherReleased(old(released), released, start, i)
        invariant interfaceNames == old(interfaceNames) && loadLog == old(loadLog)
      {
        TakeAtStep(start, backends, i);
        var backend := backends[i];
        backends := backends[..i] + backends[i + 1..];
        // A loaded plugin is unloaded, a directly registered object is
        // deleted; the record itself is deleted in every case.
        released := released + [backend];
        i := i + 1;
      }
      TakeAtLeavesOddPositions(start, backends, i);
      dropped := backends;
      backends := [];
      ReleasedEvenPositions(old(released), released, start, i);
      assert released[|old(released)|..] == EvenPositions(start);
      EvenOddSplit(start);
    }

    /** The teardown the registry evidently intends: every record is released
        and the known interface names are forgotten. */
    method UnloadAllBackendsIntended()
      requires Valid()
      modifies this
      ensures Valid()
      ensures backends == [] && RowCount(RootIndex) == 0
      ensures released == old(released) + old(backends)
      ensures interfaceNames == {} && forall name :: !HasInterface(name)
      ensures loadLog == old(loadLog)
    {
      ghost var start := backends;
      while |backends| > 0
        invariant |backends| <= |start|
        invariant backends == start[|start| - |backends|..]
        invariant released == old(released) + start[..|start| - |backends|]
        invariant loadLog == old(loadLog)
      {
        var backend := backends[0];
        assert start[..|start| - |backends| + 1] == start[..|start| - |backends|] + [backend];
        backends := backends[1..];
        released := released + [backend];
      }
      backends := [];
      interfaceNames := {};
    }

    /** hasInterface: every name a registered record declares is known. */
    function HasInterface(name: string): (r: bool)
      reads this
      ensures Valid() && (exists k :: 0 <= k < |backends| && name in Interfaces(backends[k])) ==> r
    {
      name in interfaceNames
    }

    /** rowCount: no children under a valid parent; one row per record at the root. */
    function RowCount(parent: ModelIndex): (r: int)
      reads this
      ensures r >= 0
      ensures parent.valid ==> r == 0
      ensures !parent.valid ==> r == |backends|
    {
      if parent.valid then 0 else |backends|
    }

    /** data: the record's current interface pointer (possibly null) for a
        valid, in-range row and the display role; an invalid value otherwise.
        Reading never loads a plugin. */
    function Data(index: ModelIndex, role: int): (v: Variant)
      reads this
      ensures index.valid && 0 <= index.row < |backends| && role == DisplayRole ==>
        v == InterfacePointer(backends[index.row].iface)
      ensures !(index.valid && 0 <= index.row < |backends| && role == DisplayRole) ==> v == Invalid
      ensures Valid() && v.InterfacePointer? && v.ptr.Some? ==> SatisfiesBackendContract(v.ptr.value)
    {
      if !index.valid then Invalid
      else if 0 <= index.row < |backends| && role == DisplayRole then InterfacePointer(backends[index.row].iface)
      else Invalid
    }
  }

  /** Two records, torn down by the loop as written: the second is never
      released, its plugin never unloaded, its object never deleted. */
  lemma TeardownSkipsSecondRecord(first: Backend, second: Backend)
    requires first != second
    ensures EvenPositions([first, second]) == [first]
    ensures second !in EvenPositions([first, second])
  {
  }

  /** Direct registration followed by resolution and teardown. */
  method DirectRegistrationScenario(instance: Instantiate)
  {
    var manager := new ServiceManager([]);
    var x := Obj(1, true);
    var ok := manager.RegisterService(Some(x), ["a.b.C"]);
    assert ok && manager.HasInterface("a.b.C");
    var found := manager.FindServiceByInterface("a.b.C", instance);
    assert Wrapped(found) == [Some(x)];
    assert manager.loadLog == [];
    var none := manager.FindServiceByInterface("x.y.Z", instance);
    assert none == [];
    ghost var dropped := manager.UnloadAllBackends();
    assert manager.RowCount(RootIndex) == 0;
    // The interface names survive teardown.
    assert manager.HasInterface("a.b.C");
  }

  /** A scan with one malformed and one valid candidate, resolved twice. */
  method ScanScenario()
  {
    var plugin := Obj(7, true);
    var candidates := [
      PluginCandidate("bad.so", map[]),
      PluginCandidate("p.so", map[InterfacesKey := TextList(["p.Q"])])];
    assert candidates[..1][..0] == [];
    assert !HasInterfaceList(candidates[0].metaData) && HasInterfaceList(candidates[1].metaData);
    assert PluginBackends(candidates[..1]) == [];
    var manager := new ServiceManager(candidates);
    assert |manager.backends| == 1;
    var instance: Instantiate := fileName => Some(plugin);
    var first := manager.FindServiceByInterface("p.Q", instance);
    assert Wrapped(first) == [Some(plugin)] && manager.loadLog == ["p.so"];
    var second := manager.FindServiceByInterface("p.Q", instance);
    assert Wrapped(second) == [Some(plugin)] && manager.loadLog == ["p.so"];
    assert first[0] != second[0];
  }
}
