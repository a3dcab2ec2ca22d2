/**
 * The data the service manager keeps per backend: its metadata (a QVariantMap),
 * the service interface once it is known, the object registered directly, and
 * the plugin loader that produced the interface.
 */
module Backends {
  import opened Wrappers

  /** An object, as far as the registry can observe it: an identity and whether
      it implements the service backend interface (what qobject_cast finds out). */
  datatype Obj = Obj(id: nat, implementsServiceInterface: bool)

  /** The capability check that qobject_cast<QtIVIServiceInterface*> performs. */
  predicate SatisfiesBackendContract(o: Obj)
  {
    o.implementsServiceInterface
  }

  /** qobject_cast<QtIVIServiceInterface*>: null for null and for an object
      without the capability, otherwise the same object. */
  function CastToServiceInterface(o: Option<Obj>): Option<Obj>
  {
    if o.Some? && SatisfiesBackendContract(o.value) then o else None
  }

  /** A QVariant, restricted to the kinds the registry stores or inspects. */
  datatype Variant =
    | Invalid                           // QVariant(): what a missing key yields
    | Text(text: string)
    | TextList(items: seq<string>)
    | InterfacePointer(ptr: Option<Obj>)
    | Other                             // any other JSON/QVariant value

  type VariantMap = map<string, Variant>

  const InterfacesKey: string := "interfaces"
  const FileNameKey: string := "fileName"

  /** QVariantMap::operator[]: the stored value, or an invalid QVariant. */
  function Value(m: VariantMap, key: string): Variant
  {
    if key in m then m[key] else Invalid
  }

  predicate IsNull(v: Variant)
  {
    v.Invalid?
  }

  /** QVariant::toList().isEmpty(): only a non-empty list converts to a non-empty list. */
  predicate ListIsEmpty(v: Variant)
  {
    !(v.TextList? && |v.items| > 0)
  }

  /** QVariant::toStringList(). */
  function ToStringList(v: Variant): seq<string>
  {
    match v
    case Text(s) => [s]
    case TextList(items) => items
    case _ => []
  }

  /** QVariant::toString() for the values the registry stores. */
  function ToString(v: Variant): string
  {
    if v.Text? then v.text else ""
  }

  /** The guard of registerBackend(fileName, metaData): an "interfaces" entry
      that is neither null nor an empty list. */
  predicate HasInterfaceList(md: VariantMap)
  {
    !IsNull(Value(md, InterfacesKey)) && !ListIsEmpty(Value(md, InterfacesKey))
  }

  /** The plugin loader kept on a backend once its plugin was loaded. */
  datatype PluginLoader = PluginLoader(fileName: string)

  /** struct Backend: metaData, interface, interfaceObject, loader. */
  datatype Backend = Backend(
    metaData: VariantMap,
    iface: Option<Obj>,
    interfaceObject: Option<Obj>,
    loader: Option<PluginLoader>)

  function Interfaces(b: Backend): seq<string>
  {
    ToStringList(Value(b.metaData, InterfacesKey))
  }

  function InterfaceSet(b: Backend): set<string>
  {
    set n | n in Interfaces(b)
  }

  function FileName(b: Backend): string
  {
    ToString(Value(b.metaData, FileNameKey))
  }

  /**
   * The record invariant the registry keeps: a non-empty interface list, and
   * one of three states -- a directly registered object (interface set, no
   * loader), a loaded plugin (interface and loader set), or a plugin not
   * loaded yet (neither set).
   */
  predicate WellFormed(b: Backend)
  {
    HasInterfaceList(b.metaData) &&
    (b.iface.Some? ==> SatisfiesBackendContract(b.iface.value)) &&
    (b.interfaceObject.Some? ==> b.iface == b.interfaceObject && b.loader.None?) &&
    (b.loader.Some? ==> b.iface.Some? && b.interfaceObject.None? && b.loader.value.fileName == FileName(b)) &&
    (b.iface.Some? ==> b.interfaceObject.Some? || b.loader.Some?)
  }

  /** The record registerBackend(fileName, metaData) builds: the metadata gains
      "fileName"; neither interface nor loader is set. */
  function PluginBackend(fileName: string, md: VariantMap): Backend
  {
    Backend(md[FileNameKey := Text(fileName)], None, None, None)
  }

  /** The record registerBackend(object, interfaces) builds. */
  function DirectBackend(o: Obj, interfaces: seq<string>): Backend
  {
    Backend(map[InterfacesKey := TextList(interfaces)], Some(o), Some(o), None)
  }

  lemma PluginBackendIsWellFormed(fileName: string, md: VariantMap)
    requires HasInterfaceList(md)
    ensures var b := PluginBackend(fileName, md);
      WellFormed(b) && b.iface.None? && b.loader.None? &&
      Interfaces(b) == Value(md, InterfacesKey).items && |Interfaces(b)| > 0 &&
      FileName(b) == fileName
  {
    assert InterfacesKey != FileNameKey;
  }

  lemma DirectBackendIsWellFormed(o: Obj, interfaces: seq<string>)
    requires |interfaces| > 0 && SatisfiesBackendContract(o)
    ensures var b := DirectBackend(o, interfaces);
      WellFormed(b) && Interfaces(b) == interfaces && b.iface == Some(o) && b.loader.None?
  {
  }

  /**
   * What QPluginLoader(fileName).instance() yields at the moment of a load
   * attempt: null when the plugin cannot be loaded.
   */
  type Instantiate = string -> Option<Obj>

  /** The record after loadServiceBackendInterface. */
  function Loaded(b: Backend, instance: Instantiate): Backend
  {
    if b.iface.Some? then b
    else
      match CastToServiceInterface(instance(FileName(b)))
      case Some(i) => b.(iface := Some(i), loader := Some(PluginLoader(FileName(b))))
      case None => b
  }

  /**
   * Loading keeps the record well formed and its metadata; a record whose
   * interface is set is returned as it is (no reload); a successful load stores
   * the cast plugin instance and its loader; a failed load leaves the record
   * as it was, so that the next attempt loads again.
   */
  lemma LoadCaching(b: Backend, instance: Instantiate, later: Instantiate)
    requires WellFormed(b)
    ensures WellFormed(Loaded(b, instance)) && Loaded(b, instance).metaData == b.metaData
    ensures b.iface.Some? ==> Loaded(b, instance) == b
    ensures b.iface.None? && Loaded(b, instance).iface.Some? ==>
      Loaded(b, instance).iface == CastToServiceInterface(instance(FileName(b))) &&
      Loaded(b, instance).loader == Some(PluginLoader(FileName(b)))
    ensures Loaded(b, instance).iface.Some? ==> Loaded(Loaded(b, instance), later) == Loaded(b, instance)
    ensures Loaded(b, instance).iface.None? ==>
      Loaded(b, instance) == b && Loaded(Loaded(b, instance), later) == Loaded(b, later)
  {
  }
}
