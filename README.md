# QtIVI service manager — a Dafny model

This project models the backend registry of QtIVI's `QtIVIServiceManager`
(`src/ivicore/qtiviservicemanager.cpp`). The registry keeps an ordered list of
backend records (`m_backends`) and a set of known interface names
(`m_interfaceNames`). It works as follows:

- It registers backends either from plugin metadata found by a scan of the
  plugin directories, or directly from an in-process object.
- It resolves an interface name to one proxy per matching record, in
  registration order. A plugin is loaded lazily the first time one of its
  records is resolved, and the loaded interface is cached.
- It tears everything down on request.
- It exposes the records as a one-column list model.

Files:

- `wrappers.dfy`: `Option`, used for null pointers and absent loaders.
- `backends.dfy`: the `Backends` module. It holds the record (`struct Backend`),
  the QVariant values the registry inspects, the `qobject_cast` capability check
  (`SatisfiesBackendContract`), the record invariant `WellFormed`, and
  `Loaded`, the record after one lazy-load attempt.
- `registry_spec.dfy`: the `RegistrySpec` module. It holds the pure
  specification of the record list and the lemmas about it: what a resolution
  loads and returns, what a scan registers, the interface names the records
  declare, and which records the teardown loop reaches.
- `service_manager.dfy`: the `IviServiceManager` module. The class
  `ServiceManager` has the two fields `backends: seq<Backend>` and
  `interfaceNames: set<string>`, plus two ghost logs: the plugin files the
  loader was asked for (`loadLog`) and the records teardown released
  (`released`). Each method states its new state in terms of the old state and
  the `RegistrySpec` functions. Two client methods at the end replay
  registration, resolution and teardown end to end.

Collaborators outside the core are parameters:

- `instance: string -> Option<Obj>` stands for
  `QPluginLoader(fileName).instance()` at the moment of the call. It may answer
  differently from one call to the next, which is how a retried load can succeed.
- An `Obj` carries whether it implements `QtIVIServiceInterface`; this is what
  `qobject_cast` observes.
- The scan is given as a sequence of (fileName, metadata) pairs.

Behaviours of the code a reader might not expect, all modelled as written:

- `findServiceByInterface` does not skip a record whose load failed. It appends
  a proxy over a null interface (lines 325-326).
- `unloadAllBackends` clears only `m_backends`. `m_interfaceNames` is kept, so
  `hasInterface` stays true after teardown.
- `unloadAllBackends` releases only the records at even original positions
  (see Findings).
- A failed load is never cached. The record is left unchanged, so the next
  resolution retries the load.

## Model

| member | source | states |
|---|---|---|
| `IviServiceManager.ServiceManager.constructor` | src/ivicore/qtiviservicemanager.cpp:484-489 | a new manager holds exactly the records the plugin scan accepts, and the interface names they declare; nothing is loaded or released |
| `IviServiceManager.ServiceManager.SearchPlugins` | src/ivicore/qtiviservicemanager.cpp:333-356 | appends `PluginBackends(candidates)` in scan order and unions their names into the set; reports "nothing found" exactly when there were no candidates |
| `IviServiceManager.ServiceManager.RegisterPluginBackend` | src/ivicore/qtiviservicemanager.cpp:358-377 | metadata whose `interfaces` is null or not a non-empty list changes nothing; otherwise exactly one record is appended, its metadata extended by `fileName`, with no interface and no loader |
| `IviServiceManager.ServiceManager.RegisterService` | src/ivicore/qtiviservicemanager.cpp:379-403 | returns true iff the interface list is non-empty and the object passes the capability cast; on false neither list nor name set changes; on true one record is appended at the old count, with the given interfaces, the interface set to the object, no loader, earlier records unchanged, and its names added |
| `IviServiceManager.ServiceManager.AddBackend` | src/ivicore/qtiviservicemanager.cpp:428-439 | appends the record at the end (row count + 1) and unions its interface names into the set, so `HasInterface` is true for each; the registry invariant is kept |
| `IviServiceManager.ServiceManager.LoadServiceBackendInterface` | src/ivicore/qtiviservicemanager.cpp:441-468 | a record with an interface returns it without calling the loader; otherwise the loader is called once for the record's `fileName`; on a successful cast the interface and loader are stored, on failure the record is unchanged and null is returned; the result always has the capability |
| `IviServiceManager.ServiceManager.FindServiceByInterface` | src/ivicore/qtiviservicemanager.cpp:318-331 | returns one fresh, distinct proxy per record declaring the name, in registry order, including a proxy over null for a failed load; every matching record is loaded, the others are untouched; the loader is asked exactly for the matching records that were not loaded yet |
| `IviServiceManager.ServiceManager.UnloadAllBackends` | src/ivicore/qtiviservicemanager.cpp:405-426 | leaves no records (row count 0) and the interface names unchanged; the records released are exactly those at even original positions, the records `clear()` drops unreleased are exactly those at odd original positions, and the two together are the original list |
| `IviServiceManager.ServiceManager.UnloadAllBackendsIntended` | src/ivicore/qtiviservicemanager.cpp:405-426 | corrected teardown: every record is released in order, no records remain and no interface name is known any more |
| `IviServiceManager.ServiceManager.HasInterface` | src/ivicore/qtiviservicemanager.cpp:541-545 | under the registry invariant, every name declared by a registered record is reported as known |
| `IviServiceManager.ServiceManager.RowCount` | src/ivicore/qtiviservicemanager.cpp:554-558 | never negative; 0 under a valid parent, the number of records at the root |
| `IviServiceManager.ServiceManager.Data` | src/ivicore/qtiviservicemanager.cpp:568-582 | the record's current interface pointer (possibly null) only for a valid, in-range row and the display role, an invalid value otherwise; a non-null pointer shown always has the capability; reading loads nothing |
| `IviServiceManager.ProxyServiceObject.constructor` | src/ivicore/qtiviservicemanager.cpp:326 | a proxy wraps exactly the interface pointer it was given |
| `Backends.PluginBackendIsWellFormed` | src/ivicore/qtiviservicemanager.cpp:369-375 | the record built from accepted plugin metadata is well formed, not loaded, declares the metadata's interfaces (at least one) and carries the given file name |
| `Backends.DirectBackendIsWellFormed` | src/ivicore/qtiviservicemanager.cpp:391-399 | the record built for a directly registered object is well formed, declares exactly the given interfaces and has the object as interface and no loader |
| `Backends.LoadCaching` | src/ivicore/qtiviservicemanager.cpp:443-465 | a load keeps the record well formed and its metadata; a set interface is returned as is; a success stores the cast instance and the loader for that file; after a success any later load is a no-op; after a failure the record is unchanged and a later load behaves as a first one |
| `RegistrySpec.ResolveLength` | src/ivicore/qtiviservicemanager.cpp:322-328 | a resolution yields exactly as many proxies as records declare the name |
| `RegistrySpec.ResolvePosition` | src/ivicore/qtiviservicemanager.cpp:322-328 | the record at index j that declares the name yields the proxy at position "number of earlier matching records", over its loaded interface |
| `RegistrySpec.ResolveKeepsRegistryOrder` | src/ivicore/qtiviservicemanager.cpp:322-328 | of two matching records, the one registered first yields the earlier proxy, and each proxy wraps its own record's interface |
| `RegistrySpec.UnknownNameResolvesEmpty` | src/ivicore/qtiviservicemanager.cpp:322-324 | a name outside a set that covers every record's interfaces yields no proxy and no load attempt |
| `RegistrySpec.ResolveAgainReusesLoads` | src/ivicore/qtiviservicemanager.cpp:443-445 | a second resolution of the same name, with any loader, yields as many proxies, and every interface obtained the first time is returned again unchanged |
| `RegistrySpec.ResolveAfterSuccessNeverReloads` | src/ivicore/qtiviservicemanager.cpp:441-455 | when every load of a first resolution succeeded, a second resolution calls the loader for nothing and returns the same interfaces |
| `RegistrySpec.ScanSkipsMalformed` | src/ivicore/qtiviservicemanager.cpp:345-349 | of N scanned candidates with M malformed, exactly N - M records are registered, each well formed and not loaded |
| `RegistrySpec.AllInterfacesDeclared` | src/ivicore/qtiviservicemanager.cpp:436-438 | the name set built from a list of records covers every record's interfaces and holds no other name |
| `RegistrySpec.TakeAtStep` | src/ivicore/qtiviservicemanager.cpp:410-411 | in round i of the takeAt/i++ loop the record taken is the one at original position 2i, and the list then holds the odd positions so far followed by the untouched rest |
| `RegistrySpec.ReleasedEvenPositions` | src/ivicore/qtiviservicemanager.cpp:410-423 | once the loop has ended, the records it released are exactly `EvenPositions` of the original list |
| `RegistrySpec.EvenPositionsAt` | src/ivicore/qtiviservicemanager.cpp:410-423 | the loop releases ceil(n/2) records, the k-th being the one at original position 2k |
| `RegistrySpec.EvenOddSplit` | src/ivicore/qtiviservicemanager.cpp:410-424 | a list splits into its even and its odd positions, each element once; `UnloadAllBackends` applies it to the released and the dropped records |
| `RegistrySpec.TakeAtLeavesOddPositions` | src/ivicore/qtiviservicemanager.cpp:410-424 | when the takeAt/i++ loop stops, the list that `clear()` empties holds exactly the records at odd original positions |
| `RegistrySpec.OddPositionsAt` | src/ivicore/qtiviservicemanager.cpp:410-424 | the records left for `clear()` number floor(n/2), the k-th being the one at original position 2k+1 |
| `IviServiceManager.TeardownSkipsSecondRecord` | src/ivicore/qtiviservicemanager.cpp:410-423 | with two distinct records, only the first is released; the second is never released |

## Findings

| source | as written | input that shows it | evidently intended | confidence | as-written member | corrected member |
|---|---|---|---|---|---|---|
| src/ivicore/qtiviservicemanager.cpp:410-423 | `takeAt(i)` shrinks the list and `i++` then skips the next record, so only the records at positions 0, 2, 4, ... are released; the rest are dropped by `clear()` with their plugin still loaded or their object not deleted | two registered backends: the second one is never unloaded or deleted | every record's plugin is unloaded, or its object deleted | high; not executed | `IviServiceManager.ServiceManager.UnloadAllBackends`, exhibited by `IviServiceManager.TeardownSkipsSecondRecord` | `IviServiceManager.ServiceManager.UnloadAllBackendsIntended` |
| src/ivicore/qtiviservicemanager.cpp:424 | only `m_backends` is cleared; `m_interfaceNames` keeps every name | register an object for `a.b.C`, then unload: `hasInterface("a.b.C")` is still true with zero rows (`IviServiceManager.DirectRegistrationScenario`) | teardown also forgets the interface names; the basis is the class documentation at lines 474-475, which presents the manager as the way to detect which backends and interfaces are available, while after teardown no backend for the name is available; the documentation of `hasInterface` at lines 536-539 ("has been registered") is also consistent with the code as written | low; not executed | `IviServiceManager.ServiceManager.UnloadAllBackends`, exhibited by `IviServiceManager.DirectRegistrationScenario` | `IviServiceManager.ServiceManager.UnloadAllBackendsIntended` |

## Left out

- The directory scan of `searchPlugins` (`QCoreApplication::libraryPaths`, `QDir`, `entryList`) is file-system I/O. The model is given the (fileName, metadata) pairs the scan produced. The `qWarning` on an empty scan is only a log; `SearchPlugins` returns whether anything was found.
- `QPluginLoader` is a foreign library call. This covers construction, `instance()`, `metaData()` and `unload()`. So is the conversion of the plugin's JSON `MetaData` object to a `QVariantMap`. A load is the `instance` parameter. Plugin metadata is given already converted. The released records are logged, but the unload or delete itself is not modelled.
- QVariant is reduced to the kinds the registry inspects. These are an invalid value, a string, a list of strings, an interface pointer, and "other". An `interfaces` list whose elements are not strings is not represented.
- `qobject_cast` is runtime type reflection. It is modelled as a flag the object carries (`SatisfiesBackendContract`).
- The header of `QtIVIProxyServiceObject` is not part of this model. A proxy is a fresh object holding one interface pointer.
- Raw `new`/`delete` memory management is left out. Records are values in a sequence, because the source never shares a `Backend*` outside `m_backends`; pointer aliasing is therefore not modelled.
- `qDebug`/`qWarning` diagnostics are logs and are left out.
- The process-wide singleton `instance()` and the empty destructor are left out. The model constructs managers explicitly.
- The Qt model signals (`beginInsertRows`, `endInsertRows`, `beginResetModel`, `endResetModel`) are observer notifications with no effect on the registry's state.
- The public forwarders `QtIVIServiceManager::findServiceByInterface` and `unloadAllBackends` (lines 508-512, 529-533) are modelled by the same methods as the private implementations they call.
- Record identity is not modelled. Records are compared by value, so registering the same object twice under the same names gives two equal records. The model cannot tell which of them teardown released. It also cannot show that the loop as written deletes an object registered three times twice, at positions 0 and 2.
- `rowCount` and the row index are unbounded integers. The 32-bit `int` of the source is not modelled.
