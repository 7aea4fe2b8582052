/** The module catalog built by `loadModulesMetadata` from the `template/modules` directory. */
module Catalog {
  import opened Wrappers
  import Overlay
  import Injector

  /** One `dependencies`, `devDependencies` or `scripts` object: name to version or command. */
  type Section = map<string, string>

  /** The fields a `phobos.meta.json` may carry; a field the file does not set is `None`. */
  datatype Metadata = Metadata(
    key: Option<string>,
    name: Option<string>,
    description: Option<string>,
    dependencies: Option<Section>,
    devDependencies: Option<Section>,
    scripts: Option<Section>,
    injections: Option<Injector.Injections>,
    copyRules: Option<Overlay.CopyRules>)

  /** A catalog entry: the module key plus the optional parts of its metadata. */
  datatype Descriptor = Descriptor(
    key: string,
    name: Option<string>,
    description: Option<string>,
    dependencies: Option<Section>,
    devDependencies: Option<Section>,
    scripts: Option<Section>,
    injections: Option<Injector.Injections>,
    copyRules: Option<Overlay.CopyRules>)

  /** The catalog, keyed by module directory name. */
  type Catalog = map<string, Descriptor>

  /** What reading `phobos.meta.json` of a module directory gives. */
  datatype MetaState = NoMetaFile | MetaUnreadable | MetaParsed(meta: Metadata)

  /** What `fs.stat` says about one entry of the modules directory. */
  datatype EntryKind = Dir(metaState: MetaState) | NotDirectory | StatFailed

  datatype Entry = Entry(name: string, kind: EntryKind)

  /** What `fs.readdir` of the modules directory gives. */
  datatype Listing = Unreadable | Entries(entries: seq<Entry>)

  /** The errors `loadModulesMetadata` rethrows. */
  datatype LoadError = RootUnreadable | StatError(name: string)

  /** The descriptor of a module directory without `phobos.meta.json`. */
  function DefaultDescriptor(dir: string): Descriptor {
    Descriptor(dir, Some(dir), Some("Módulo " + dir),
      Some(map[]), Some(map[]), Some(map[]), Some([]), Some([]))
  }

  /** `{ key: moduleDir, ...metadata }`: every field the metadata sets wins, `key` included. */
  function FromMetadata(dir: string, m: Metadata): Descriptor {
    Descriptor(m.key.GetOr(dir), m.name, m.description,
      m.dependencies, m.devDependencies, m.scripts, m.injections, m.copyRules)
  }

  /** Whether an entry contributes to the catalog (a directory whose metadata is absent or parses). */
  predicate Loads(kind: EntryKind) {
    kind.Dir? && !kind.metaState.MetaUnreadable?
  }

  /** The effect of one directory entry on the catalog built so far. */
  function AddEntry(c: Catalog, e: Entry): (r: Result<Catalog, LoadError>)
    ensures r.Err? <==> e.kind.StatFailed?
    ensures r.Ok? ==> r.value.Keys == if Loads(e.kind) then c.Keys + {e.name} else c.Keys
    ensures r.Ok? ==> forall d :: d in c && d != e.name ==> r.value[d] == c[d]
  {
    match e.kind
    case StatFailed => Err(StatError(e.name))
    case NotDirectory => Ok(c)
    case Dir(NoMetaFile) => Ok(c[e.name := DefaultDescriptor(e.name)])
    case Dir(MetaUnreadable) => Ok(c)
    case Dir(MetaParsed(m)) => Ok(c[e.name := FromMetadata(e.name, m)])
  }

  /** The catalog of a directory listing, entry by entry; the first failing `stat` aborts. */
  function CatalogOf(entries: seq<Entry>): Result<Catalog, LoadError> {
    if entries == [] then Ok(map[])
    else
      match CatalogOf(entries[..|entries| - 1])
      case Err(e) => Err(e)
      case Ok(c) => AddEntry(c, entries[|entries| - 1])
  }

  /** The result of `loadModulesMetadata`. */
  function LoadCatalog(listing: Listing): Result<Catalog, LoadError> {
    match listing
    case Unreadable => Err(RootUnreadable)
    case Entries(entries) => CatalogOf(entries)
  }

  predicate DistinctNames(entries: seq<Entry>) {
    forall i, j :: 0 <= i < j < |entries| ==> entries[i].name != entries[j].name
  }

  /** An error from a prefix of the listing is the error of the whole listing. */
  lemma {:induction false} CatalogErrorPersists(entries: seq<Entry>, n: nat)
    requires n <= |entries|
    requires CatalogOf(entries[..n]).Err?
    ensures CatalogOf(entries) == CatalogOf(entries[..n])
    decreases |entries| - n
  {
    if n < |entries| {
      var m := |entries| - 1;
      if n < m {
        assert entries[..m][..n] == entries[..n];
        CatalogErrorPersists(entries[..m], n);
      } else {
        assert entries[..m] == entries[..n];
      }
    } else {
      assert entries[..n] == entries;
    }
  }

  /** The first entry whose `stat` fails decides the error; when none fails the catalog loads. */
  lemma {:induction false} CatalogStatFailure(entries: seq<Entry>)
    ensures CatalogOf(entries).Err? <==> exists i :: 0 <= i < |entries| && entries[i].kind.StatFailed?
    ensures forall i :: 0 <= i < |entries| && entries[i].kind.StatFailed? ==>
      (forall j :: 0 <= j < i ==> !entries[j].kind.StatFailed?) ==>
      CatalogOf(entries) == Err(StatError(entries[i].name))
  {
    if entries != [] {
      var m := |entries| - 1;
      var front := entries[..m];
      CatalogStatFailure(front);
      assert forall i :: 0 <= i < m ==> front[i] == entries[i];
      if CatalogOf(front).Ok? {
        assert forall i :: 0 <= i < m ==> !entries[i].kind.StatFailed?;
      }
    }
  }

  /** With distinct directory names and no failing `stat`, each entry's own rule decides its
      catalog entry: a directory without metadata gets the defaults, a directory whose metadata
      parses gets that metadata over `key`, and an unreadable metadata file or a non-directory
      leaves the name out, whatever the other entries are. */
  lemma {:induction false} CatalogEntry(entries: seq<Entry>, i: nat)
    requires DistinctNames(entries)
    requires forall j :: 0 <= j < |entries| ==> !entries[j].kind.StatFailed?
    requires i < |entries|
    ensures CatalogOf(entries).Ok?
    ensures var c := CatalogOf(entries).value;
      var d := entries[i].name;
      && (entries[i].kind == Dir(NoMetaFile) ==>
            && d in c && c[d].key == d && c[d].name == Some(d)
            && c[d].description == Some("Módulo " + d)
            && c[d].dependencies == Some(map[]) && c[d].devDependencies == Some(map[])
            && c[d].scripts == Some(map[]) && c[d].injections == Some([])
            && c[d].copyRules == Some([]))
      && (forall m :: entries[i].kind == Dir(MetaParsed(m)) ==>
            d in c && c[d] == FromMetadata(d, m))
      && (!Loads(entries[i].kind) ==> d !in c)
  {
    var m := |entries| - 1;
    var front := entries[..m];
    assert forall j :: 0 <= j < m ==> front[j] == entries[j];
    if m == 0 {
      assert front == [];
    } else {
      assert DistinctNames(front);
      CatalogStatFailure(front);
      if i < m {
        CatalogEntry(front, i);
        assert entries[m].name != entries[i].name;
      } else {
        CatalogKeys(front);
      }
    }
  }

  /** Every catalog key is the name of a listed directory that loads. */
  lemma {:induction false} CatalogKeys(entries: seq<Entry>)
    requires CatalogOf(entries).Ok?
    ensures forall d :: d in CatalogOf(entries).value ==>
      exists i :: 0 <= i < |entries| && entries[i].name == d && Loads(entries[i].kind)
  {
    if entries != [] {
      var m := |entries| - 1;
      var front := entries[..m];
      CatalogKeys(front);
      assert forall j :: 0 <= j < m ==> front[j] == entries[j];
    }
  }

  /** `loadModulesMetadata`: fills the catalog entry by entry; an unreadable modules directory
      and a failing `stat` are rethrown. */
  method LoadModulesMetadata(listing: Listing) returns (result: Result<Catalog, LoadError>)
    ensures result == LoadCatalog(listing)
  {
    if listing.Unreadable? {
      return Err(RootUnreadable);
    }
    var entries := listing.entries;
    var modules: Catalog := map[];
    var i := 0;
    while i < |entries|
      invariant 0 <= i <= |entries|
      invariant CatalogOf(entries[..i]) == Ok(modules)
    {
      var entry := entries[i];
      assert entries[..i + 1][..i] == entries[..i];
      match entry.kind {
        case StatFailed =>
          CatalogErrorPersists(entries, i + 1);
          return Err(StatError(entry.name));
        case NotDirectory =>
        case Dir(meta) =>
          match meta {
            case NoMetaFile =>
              modules := modules[entry.name := DefaultDescriptor(entry.name)];
            case MetaUnreadable =>
            case MetaParsed(metadata) =>
              modules := modules[entry.name := FromMetadata(entry.name, metadata)];
          }
      }
      i := i + 1;
    }
    assert entries[..i] == entries;
    return Ok(modules);
  }
}
