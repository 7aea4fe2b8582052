/** The `package.json` merge of `updatePackageJson`. */
module Manifest {
  import opened Wrappers
  import opened FileTree
  import opened Catalog

  const PackageFile: Path := "package.json"

  /** The three sections a module can contribute to. */
  datatype SectionName = Dependencies | DevDependencies | Scripts

  /** A parsed `package.json`: the three sections (`None` when absent or falsy) and every other
      top-level field, kept as it was read. */
  datatype PackageJson = PackageJson(
    dependencies: Option<Section>,
    devDependencies: Option<Section>,
    scripts: Option<Section>,
    other: map<string, string>)

  /** What parsing the text of `package.json` gives. */
  datatype Parsed = Unparsable | NotAnObject | Object(pkg: PackageJson)

  /** The errors `updatePackageJson` throws before writing anything. */
  datatype ManifestError = ManifestMissing | ManifestUnreadable | ManifestInvalid

  function SectionOf(pkg: PackageJson, s: SectionName): Option<Section> {
    match s
    case Dependencies => pkg.dependencies
    case DevDependencies => pkg.devDependencies
    case Scripts => pkg.scripts
  }

  function ModuleSection(d: Descriptor, s: SectionName): Option<Section> {
    match s
    case Dependencies => d.dependencies
    case DevDependencies => d.devDependencies
    case Scripts => d.scripts
  }

  /** Whether the module selected under `key` sets entry `k` of section `s`. */
  predicate Provides(catalog: Catalog, key: string, s: SectionName, k: string) {
    key in catalog && ModuleSection(catalog[key], s).Some? && k in ModuleSection(catalog[key], s).value
  }

  /** Section `s` after `{ ...section, ...module[s] }` for each selected module in order;
      unknown keys and modules without the section are skipped. */
  function MergeSection(base: Section, selected: seq<string>, catalog: Catalog, s: SectionName): Section {
    if selected == [] then base
    else
      var n := |selected| - 1;
      var before := MergeSection(base, selected[..n], catalog, s);
      var key := selected[n];
      if key in catalog && ModuleSection(catalog[key], s).Some?
      then before + ModuleSection(catalog[key], s).value
      else before
  }

  /** One more selected module: its section, when it has one, is spread over the merge so far. */
  lemma MergeStep(base: Section, selected: seq<string>, catalog: Catalog, s: SectionName, i: nat)
    requires i < |selected|
    ensures var prev := MergeSection(base, selected[..i], catalog, s);
      var key := selected[i];
      MergeSection(base, selected[..i + 1], catalog, s)
        == if key in catalog && ModuleSection(catalog[key], s).Some?
           then prev + ModuleSection(catalog[key], s).value else prev
  {
    assert selected[..i + 1][..i] == selected[..i];
  }

  /** The merged section holds exactly the base keys and the keys some selected module sets. */
  lemma {:induction false} MergeKeys(base: Section, selected: seq<string>, catalog: Catalog, s: SectionName, k: string)
    ensures k in MergeSection(base, selected, catalog, s) <==>
      k in base || exists i :: 0 <= i < |selected| && Provides(catalog, selected[i], s, k)
  {
    if selected != [] {
      var n := |selected| - 1;
      MergeKeys(base, selected[..n], catalog, s, k);
      assert forall i :: 0 <= i < n ==> selected[..n][i] == selected[i];
      if exists i :: 0 <= i < |selected| && Provides(catalog, selected[i], s, k) {
        var i :| 0 <= i < |selected| && Provides(catalog, selected[i], s, k);
        if i < n {
          assert Provides(catalog, selected[..n][i], s, k);
        }
      }
    }
  }

  /** Last write wins: the value of a key is the one from the last selected module setting it. */
  lemma {:induction false} MergeLastWins(base: Section, selected: seq<string>, catalog: Catalog, s: SectionName, i: nat, k: string)
    requires i < |selected|
    requires Provides(catalog, selected[i], s, k)
    requires forall j :: i < j < |selected| ==> !Provides(catalog, selected[j], s, k)
    ensures var r := MergeSection(base, selected, catalog, s);
      k in r && r[k] == ModuleSection(catalog[selected[i]], s).value[k]
  {
    var n := |selected| - 1;
    if i < n {
      assert forall j :: i < j < n ==> selected[..n][j] == selected[j];
      MergeLastWins(base, selected[..n], catalog, s, i, k);
    }
  }

  /** A key no selected module sets keeps its base value. */
  lemma {:induction false} MergeKeepsBase(base: Section, selected: seq<string>, catalog: Catalog, s: SectionName, k: string)
    requires k in base
    requires forall j :: 0 <= j < |selected| ==> !Provides(catalog, selected[j], s, k)
    ensures var r := MergeSection(base, selected, catalog, s);
      k in r && r[k] == base[k]
  {
    if selected != [] {
      var n := |selected| - 1;
      assert forall j :: 0 <= j < n ==> selected[..n][j] == selected[j];
      MergeKeepsBase(base, selected[..n], catalog, s, k);
    }
  }

  /** The manifest after the merge: each section created when missing and merged, the rest
      unchanged. */
  function MergeManifest(pkg: PackageJson, selected: seq<string>, catalog: Catalog): PackageJson {
    PackageJson(
      Some(MergeSection(pkg.dependencies.GetOr(map[]), selected, catalog, Dependencies)),
      Some(MergeSection(pkg.devDependencies.GetOr(map[]), selected, catalog, DevDependencies)),
      Some(MergeSection(pkg.scripts.GetOr(map[]), selected, catalog, Scripts)),
      pkg.other)
  }

  /** The outcome of `updatePackageJson` on a project tree. */
  function ManifestUpdate(tree: Tree, selected: seq<string>, catalog: Catalog, parse: string -> Parsed)
    : Result<PackageJson, ManifestError>
  {
    if PackageFile !in tree then Err(ManifestMissing)
    else match parse(tree[PackageFile])
      case Unparsable => Err(ManifestUnreadable)
      case NotAnObject => Err(ManifestInvalid)
      case Object(pkg) => Ok(MergeManifest(pkg, selected, catalog))
  }

  /** A manifest without a section gets it created empty; with no module selected, every section
      is as read (or empty) and nothing else changes. */
  lemma {:induction false} ManifestNoModules(pkg: PackageJson, catalog: Catalog, s: SectionName)
    ensures SectionOf(MergeManifest(pkg, [], catalog), s) == Some(SectionOf(pkg, s).GetOr(map[]))
    ensures MergeManifest(pkg, [], catalog).other == pkg.other
  {
    match s
    case Dependencies =>
    case DevDependencies =>
    case Scripts =>
  }

  /** `{ ...section, ...extra }`, where a missing `extra` adds nothing. */
  function Spread(section: Section, extra: Option<Section>): Section {
    if extra.Some? then section + extra.value else section
  }

  /** The body of the merge loop for one known module: each section the module has is spread
      over the manifest's section of the same name. */
  method SpreadModule(packageJson: PackageJson, m: Descriptor) returns (r: PackageJson)
    requires packageJson.dependencies.Some? && packageJson.devDependencies.Some? && packageJson.scripts.Some?
    ensures r.other == packageJson.other
    ensures forall s :: SectionOf(r, s) == Some(Spread(SectionOf(packageJson, s).value, ModuleSection(m, s)))
  {
    r := packageJson;
    if m.dependencies.Some? {
      r := r.(dependencies := Some(r.dependencies.value + m.dependencies.value));
    }
    if m.devDependencies.Some? {
      r := r.(devDependencies := Some(r.devDependencies.value + m.devDependencies.value));
    }
    if m.scripts.Some? {
      r := r.(scripts := Some(r.scripts.value + m.scripts.value));
    }
  }

  /** `updatePackageJson`: a missing, unparsable or non-object `package.json` is an error and
      nothing is written; otherwise the sections are merged module by module and written back. */
  method UpdatePackageJson(project: Directory, selected: seq<string>, catalog: Catalog,
                           parse: string -> Parsed, serialize: PackageJson -> string)
    returns (result: Result<PackageJson, ManifestError>)
    modifies project
    ensures result == ManifestUpdate(old(project.files), selected, catalog, parse)
    ensures project.files == if result.Ok? then old(project.files)[PackageFile := serialize(result.value)]
                             else old(project.files)
  {
    if PackageFile !in project.files {
      return Err(ManifestMissing);
    }
    var parsed := parse(project.files[PackageFile]);
    if parsed.Unparsable? {
      return Err(ManifestUnreadable);
    }
    if parsed.NotAnObject? {
      return Err(ManifestInvalid);
    }
    var packageJson := parsed.pkg;
    if packageJson.dependencies == None { packageJson := packageJson.(dependencies := Some(map[])); }
    if packageJson.devDependencies == None { packageJson := packageJson.(devDependencies := Some(map[])); }
    if packageJson.scripts == None { packageJson := packageJson.(scripts := Some(map[])); }
    var start := packageJson;
    assert start.dependencies.value == parsed.pkg.dependencies.GetOr(map[]);
    assert start.devDependencies.value == parsed.pkg.devDependencies.GetOr(map[]);
    assert start.scripts.value == parsed.pkg.scripts.GetOr(map[]);
    var i := 0;
    while i < |selected|
      invariant 0 <= i <= |selected|
      invariant project.files == old(project.files)
      invariant packageJson.other == parsed.pkg.other
      invariant packageJson.dependencies == Some(MergeSection(start.dependencies.value, selected[..i], catalog, Dependencies))
      invariant packageJson.devDependencies == Some(MergeSection(start.devDependencies.value, selected[..i], catalog, DevDependencies))
      invariant packageJson.scripts == Some(MergeSection(start.scripts.value, selected[..i], catalog, Scripts))
    {
      var moduleKey := selected[i];
      MergeStep(start.dependencies.value, selected, catalog, Dependencies, i);
      MergeStep(start.devDependencies.value, selected, catalog, DevDependencies, i);
      MergeStep(start.scripts.value, selected, catalog, Scripts, i);
      if moduleKey in catalog {
        packageJson := SpreadModule(packageJson, catalog[moduleKey]);
      }
      i := i + 1;
    }
    assert selected[..i] == selected;
    assert packageJson == MergeManifest(parsed.pkg, selected, catalog);
    project.files := project.files[PackageFile := serialize(packageJson)];
    return Ok(packageJson);
  }
}
