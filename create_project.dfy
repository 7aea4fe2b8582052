/** The step order of `createProject`: catalog, base skeleton, module files in selection order,
    manifest merge, injections in selection order, package manager detection. */
module ProjectCreation {
  import opened Wrappers
  import opened FileTree
  import opened Catalog
  import opened Overlay
  import opened Injector
  import opened Manifest
  import opened PackageManager

  /** Why `createProject` fails: the catalog does not load, a selected key has no catalog entry
      (the `TypeError` of reading a field of `undefined`), or the manifest merge throws. */
  datatype CreateError = CatalogFailed(loadError: LoadError) | UnknownModule(key: string)
                       | ManifestFailed(manifestError: ManifestError)

  /** The module copy loop: the tree it leaves and the unknown key it stopped at, if any.
      A key without a module directory is passed over; one with a directory but no catalog
      entry stops the loop. */
  function CopyModules(tree: Tree, selected: seq<string>, catalog: Catalog, moduleTrees: map<string, Tree>)
    : (Tree, Option<string>)
  {
    if selected == [] then (tree, None)
    else
      var before := CopyModules(tree, selected[..|selected| - 1], catalog, moduleTrees);
      var key := selected[|selected| - 1];
      if before.1.Some? || key !in moduleTrees then before
      else if key !in catalog then (before.0, Some(key))
      else (ModuleOverlay(before.0, moduleTrees[key], catalog[key].copyRules), None)
  }

  /** The injection loop: every selected key must be in the catalog. */
  function InjectModules(tree: Tree, selected: seq<string>, catalog: Catalog): (Tree, Option<string>) {
    if selected == [] then (tree, None)
    else
      var before := InjectModules(tree, selected[..|selected| - 1], catalog);
      var key := selected[|selected| - 1];
      if before.1.Some? then before
      else if key !in catalog then (before.0, Some(key))
      else if catalog[key].injections == None then before
      else (InjectAll(before.0, catalog[key].injections.value), None)
  }

  /** The whole run on the project tree `files`: the tree it leaves and the package manager
      chosen, or the error raised. Nothing is rolled back on an error. */
  function Create(files: Tree, listing: Listing, base: Tree, moduleTrees: map<string, Tree>,
                  selected: seq<string>, parse: string -> Parsed, serialize: PackageJson -> string,
                  cwd: set<Path>)
    : (Tree, Result<PackageManager, CreateError>)
  {
    match LoadCatalog(listing)
    case Err(e) => (files, Err(CatalogFailed(e)))
    case Ok(catalog) =>
      var copied := CopyModules(files + base, selected, catalog, moduleTrees);
      if copied.1.Some? then (copied.0, Err(UnknownModule(copied.1.value)))
      else match ManifestUpdate(copied.0, selected, catalog, parse)
        case Err(e) => (copied.0, Err(ManifestFailed(e)))
        case Ok(pkg) =>
          var injected := InjectModules(copied.0[PackageFile := serialize(pkg)], selected, catalog);
          if injected.1.Some? then (injected.0, Err(UnknownModule(injected.1.value)))
          else (injected.0, Ok(DetectPackageManager(injected.0, cwd)))
  }

  /** A stop in a prefix of the selection is the stop of the whole copy loop. */
  lemma {:induction false} CopyStopPersists(tree: Tree, selected: seq<string>, catalog: Catalog,
                                            moduleTrees: map<string, Tree>, n: nat)
    requires n <= |selected|
    requires CopyModules(tree, selected[..n], catalog, moduleTrees).1.Some?
    ensures CopyModules(tree, selected, catalog, moduleTrees) == CopyModules(tree, selected[..n], catalog, moduleTrees)
    decreases |selected| - n
  {
    if n < |selected| {
      var m := |selected| - 1;
      assert selected[..m][..n] == selected[..n];
      if n < m {
        CopyStopPersists(tree, selected[..m], catalog, moduleTrees, n);
      }
    } else {
      assert selected[..n] == selected;
    }
  }

  /** A stop in a prefix of the selection is the stop of the whole injection loop. */
  lemma {:induction false} InjectStopPersists(tree: Tree, selected: seq<string>, catalog: Catalog, n: nat)
    requires n <= |selected|
    requires InjectModules(tree, selected[..n], catalog).1.Some?
    ensures InjectModules(tree, selected, catalog) == InjectModules(tree, selected[..n], catalog)
    decreases |selected| - n
  {
    if n < |selected| {
      var m := |selected| - 1;
      assert selected[..m][..n] == selected[..n];
      if n < m {
        InjectStopPersists(tree, selected[..m], catalog, n);
      }
    } else {
      assert selected[..n] == selected;
    }
  }

  /** The injection loop stops exactly when some selected key is not in the catalog, and then
      at a selected key that is not in it. */
  lemma {:induction false} InjectStopsAtUnknown(tree: Tree, selected: seq<string>, catalog: Catalog)
    ensures var r := InjectModules(tree, selected, catalog);
      && (r.1.Some? <==> exists i :: 0 <= i < |selected| && selected[i] !in catalog)
      && (r.1.Some? ==> r.1.value in selected && r.1.value !in catalog)
  {
    if selected != [] {
      var m := |selected| - 1;
      InjectStopsAtUnknown(tree, selected[..m], catalog);
      assert forall i :: 0 <= i < m ==> selected[..m][i] == selected[i];
      if exists i :: 0 <= i < |selected| && selected[i] !in catalog {
        var i :| 0 <= i < |selected| && selected[i] !in catalog;
        if i < m {
          assert selected[..m][i] !in catalog;
        }
      }
    }
  }

  /** A copy-loop stop names a selected key with a module directory and no catalog entry. */
  lemma {:induction false} CopyStopsAtUnknown(tree: Tree, selected: seq<string>, catalog: Catalog,
                                              moduleTrees: map<string, Tree>)
    ensures var r := CopyModules(tree, selected, catalog, moduleTrees);
      r.1.Some? ==> r.1.value in selected && r.1.value !in catalog && r.1.value in moduleTrees
  {
    if selected != [] {
      var m := |selected| - 1;
      CopyStopsAtUnknown(tree, selected[..m], catalog, moduleTrees);
      assert forall i :: 0 <= i < m ==> selected[..m][i] == selected[i];
    }
  }

  /** Selecting a key the catalog does not hold always fails, after the catalog has loaded:
      with `UnknownModule` of a selected key outside the catalog, unless the manifest merge
      threw first. */
  lemma UnknownSelectionFails(files: Tree, listing: Listing, base: Tree, moduleTrees: map<string, Tree>,
                              selected: seq<string>, parse: string -> Parsed,
                              serialize: PackageJson -> string, cwd: set<Path>, i: nat)
    requires LoadCatalog(listing).Ok?
    requires i < |selected| && selected[i] !in LoadCatalog(listing).value
    ensures var r := Create(files, listing, base, moduleTrees, selected, parse, serialize, cwd).1;
      && r.Err?
      && (r.error.UnknownModule? ==> r.error.key in selected && r.error.key !in LoadCatalog(listing).value)
      && !r.error.CatalogFailed?
  {
    var catalog := LoadCatalog(listing).value;
    var copied := CopyModules(files + base, selected, catalog, moduleTrees);
    CopyStopsAtUnknown(files + base, selected, catalog, moduleTrees);
    if copied.1.None? && ManifestUpdate(copied.0, selected, catalog, parse).Ok? {
      var pkg := ManifestUpdate(copied.0, selected, catalog, parse).value;
      InjectStopsAtUnknown(copied.0[PackageFile := serialize(pkg)], selected, catalog);
    }
  }

  /** The module copy loop of `createProject`. */
  method CopySelectedModules(project: Directory, selected: seq<string>, catalog: Catalog,
                             moduleTrees: map<string, Tree>)
    returns (stopped: Option<string>)
    modifies project
    ensures (project.files, stopped) == CopyModules(old(project.files), selected, catalog, moduleTrees)
  {
    var i := 0;
    while i < |selected|
      invariant 0 <= i <= |selected|
      invariant CopyModules(old(project.files), selected[..i], catalog, moduleTrees) == (project.files, None)
    {
      var moduleKey := selected[i];
      assert selected[..i + 1][..i] == selected[..i];
      if moduleKey in moduleTrees {
        if moduleKey !in catalog {
          CopyStopPersists(old(project.files), selected, catalog, moduleTrees, i + 1);
          return Some(moduleKey);
        }
        var _ := CopyModuleFiles(project, moduleTrees[moduleKey], catalog[moduleKey].copyRules);
      }
      i := i + 1;
    }
    assert selected[..i] == selected;
    return None;
  }

  /** The injection loop of `createProject`. */
  method InjectSelectedModules(project: Directory, selected: seq<string>, catalog: Catalog)
    returns (stopped: Option<string>)
    modifies project
    ensures (project.files, stopped) == InjectModules(old(project.files), selected, catalog)
  {
    var i := 0;
    while i < |selected|
      invariant 0 <= i <= |selected|
      invariant InjectModules(old(project.files), selected[..i], catalog) == (project.files, None)
    {
      var moduleKey := selected[i];
      assert selected[..i + 1][..i] == selected[..i];
      if moduleKey !in catalog {
        InjectStopPersists(old(project.files), selected, catalog, i + 1);
        return Some(moduleKey);
      }
      if catalog[moduleKey].injections.Some? {
        var _ := ApplyInjections(project, catalog[moduleKey].injections.value);
      }
      i := i + 1;
    }
    assert selected[..i] == selected;
    return None;
  }

  /** `createProject` from loading the catalog to choosing the package manager; the module
      selection (`selected`), the template trees, the JSON codec and the lock files of the
      working directory are inputs. */
  method CreateProject(project: Directory, listing: Listing, base: Tree, moduleTrees: map<string, Tree>,
                       selected: seq<string>, parse: string -> Parsed, serialize: PackageJson -> string,
                       cwd: set<Path>)
    returns (result: Result<PackageManager, CreateError>)
    modifies project
    ensures (project.files, result)
      == Create(old(project.files), listing, base, moduleTrees, selected, parse, serialize, cwd)
  {
    var loaded := LoadModulesMetadata(listing);
    if loaded.Err? {
      return Err(CatalogFailed(loaded.error));
    }
    var catalog := loaded.value;
    project.files := project.files + base;
    var stopped := CopySelectedModules(project, selected, catalog, moduleTrees);
    if stopped.Some? {
      return Err(UnknownModule(stopped.value));
    }
    var manifest := UpdatePackageJson(project, selected, catalog, parse, serialize);
    if manifest.Err? {
      return Err(ManifestFailed(manifest.error));
    }
    stopped := InjectSelectedModules(project, selected, catalog);
    if stopped.Some? {
      return Err(UnknownModule(stopped.value));
    }
    var packageManager := DetectPackageManager(project.files, cwd);
    return Ok(packageManager);
  }
}
