# create-phobos, modelled in Dafny

`create-phobos` scaffolds a React project. It copies a base template and then, for each selected
module, the module's files. It merges each module's dependencies and scripts into
`package.json`, injects code lines into existing files, and picks the package manager from the
lock files. This project models that pipeline, the command-line front end, and the pieces of
logic the bundled template modules ship:

- the `generate` CLI of the local-cli module (template substitution and output paths);
- the Avatar initials and Typography element choice of the theme-provider module;
- the breakpoint media queries;
- the two light/dark theme state machines.

Layout, one module per file:

| file | module | models |
|---|---|---|
| `wrappers.dfy` | `Wrappers` | `Option` and `Result` |
| `strings.dfy` | `Strings` | `startsWith`, `includes`, `split`/`join` on one character, ASCII `toUpperCase`, `trim()` emptiness |
| `filetree.dfy` | `FileTree` | a directory as a map from relative path to content; the `Directory` object whose files the steps overwrite |
| `catalog.dfy` | `Catalog` | `loadModulesMetadata` |
| `overlay.dfy` | `Overlay` | `copyModuleFiles` |
| `manifest.dfy` | `Manifest` | `updatePackageJson` |
| `injector.dfy` | `Injector` | `applyInjections` |
| `package_manager.dfy` | `PackageManager` | `detectPackageManager` |
| `create_project.dfy` | `ProjectCreation` | `createProject` from catalog to package manager |
| `cli.dfy` | `Cli` | `bin/create-phobos.js` |
| `generator.dfy` | `Generator` | `tools/cli.ts` of the local-cli module |
| `avatar.dfy`, `typography.dfy`, `breakpoints.dfy` | `Avatar`, `Typography`, `Breakpoints` | the theme-provider helpers |
| `browser.dfy` | `Browser` | `localStorage` and the document's root element |
| `theme_names.dfy` | `ThemeNames` | the `light`/`dark` toggle both theme modules use |
| `theme_provider.dfy`, `theme_context.dfy` | `ThemeProvider`, `ThemeContext` | the two theme state machines |

Each step that mutates the project directory in the source is a `method` on a
`FileTree.Directory` and keeps its loop. Each such method is proved equal to a function of the
old tree, and the properties are proved as lemmas about those functions. The file system, the
JSON codec, the prompts and the lock files of the working directory are inputs:

- `Listing`, the module trees and the base tree stand for what `readdir`, `stat`, `readJson`
  and `copy` would find;
- `parse` and `serialize` stand for the `package.json` codec;
- `answer` stands for the name prompt;
- `selected` stands for the module checkbox;
- `cwd` is the set of files in the working directory.

## Model

| member | source | states |
|---|---|---|
| Strings.JoinSplit | src/createProject.js:72-80 | joining the parts of `split('\n')` with `'\n'` gives the content back |
| Strings.SplitJoin | src/createProject.js:72-80 | splitting the join of separator-free parts gives the parts back |
| Catalog.AddEntry | src/createProject.js:18-48 | one listing entry: a failed `stat` is an error; a plain file or an unreadable metadata file adds nothing; a directory adds its own name and leaves every other entry alone |
| Catalog.DefaultDescriptor | src/createProject.js:37-46 | the descriptor of a module directory without `phobos.meta.json`: its key and name, `Módulo <dir>` as description, empty sections, no injections or copy rules (properties in `CatalogEntry`) |
| Catalog.FromMetadata | src/createProject.js:28-31 | `{ key, ...metadata }`: each field the metadata gives wins over `key` and the defaults (properties in `CatalogEntry`) |
| Catalog.LoadCatalog | src/createProject.js:11-56 | the catalog made by folding `AddEntry` over the listing; an unreadable modules directory is an error (properties in `CatalogStatFailure`, `CatalogKeys`, `CatalogErrorPersists`) |
| Catalog.CatalogErrorPersists | src/createProject.js:15-53 | once a `stat` fails, later entries change nothing: the error is rethrown |
| Catalog.CatalogStatFailure | src/createProject.js:18-53 | loading fails exactly when some entry's `stat` fails, and the first such entry names the error |
| Catalog.CatalogEntry | src/createProject.js:22-47 | a directory without metadata gets the defaults (name, `Módulo <dir>`, empty sections, no injections or copy rules); a parsed metadata file is spread over `key`; an unreadable one or a non-directory is left out |
| Catalog.CatalogKeys | src/createProject.js:28-37 | every catalog key is the name of a listed directory that loads |
| Catalog.LoadModulesMetadata | src/createProject.js:11-56 | the loop builds exactly the catalog `LoadCatalog` describes, and an unreadable modules directory is an error |
| Overlay.CopyEntry | src/createProject.js:104-117 | `fs.copy` with overwrite: each module file under the source lands at its rebased place under the destination; paths it does not write keep presence and content |
| Overlay.CopyAll | src/createProject.js:97-107 | the default rule copies every file whose top-level entry is not `phobos.meta.json` to the same path; nothing else changes |
| Overlay.ApplyCopyRule | src/createProject.js:112-120 | one copy rule: `CopyEntry` when the source exists, otherwise nothing (properties in `CopyEntry`) |
| Overlay.ApplyCopyRules | src/createProject.js:111-122 | the rules applied one after another in entry order (properties in `CopyRulesUntouched`, `CopyRulesLastWins`) |
| Overlay.ModuleOverlay | src/createProject.js:96-123 | the default rule for missing or empty copy rules, else the rules in order (implemented by `CopyModuleFiles`) |
| Overlay.RulesReport | src/createProject.js:115-121 | one outcome per rule, a warning exactly when the rule's source is missing |
| Overlay.CopyRulesUntouched | src/createProject.js:111-122 | a project path no rule writes keeps its presence and content |
| Overlay.CopyRulesLastWins | src/createProject.js:111-122 | a path holds the file of the last rule that writes it |
| Overlay.TopLevelEntries | src/createProject.js:99 | every module file lies under one of the listed top-level entries |
| Overlay.CopiedEntriesAll | src/createProject.js:99-106 | copying every top-level entry except the metadata file is the default rule |
| Overlay.CopyTopLevelEntries | src/createProject.js:99-107 | the loop over `readdir` entries leaves the tree `CopyAll` describes |
| Overlay.FollowCopyRules | src/createProject.js:110-122 | the rule loop leaves the tree `ApplyCopyRules` describes and reports each missing source |
| Overlay.CopyModuleFiles | src/createProject.js:96-123 | no rules or an empty rule object means the default rule; otherwise the rules in order |
| Injector.FindIndex | src/createProject.js:75 | the first line containing the anchor, or -1 exactly when no line does |
| Injector.FindIndexInPrefix | src/createProject.js:75 | lines appended after the first match do not move it |
| Injector.InsertAt | src/createProject.js:79 | `splice(k, 0, x)`: `x` at `k`, earlier lines in place, later lines one down |
| Injector.InjectText | src/createProject.js:72-80 | split at `\n`, insert after the first anchor line, join with `\n`; `None` without an anchor line (properties in `InjectMissingAnchor`, `InjectLinePlacement`, `InjectSplice`) |
| Injector.InjectMissingAnchor | src/createProject.js:75-86 | an injection leaves the file alone exactly when no line contains the anchor |
| Injector.InjectLinePlacement | src/createProject.js:72-80 | the insert is the line right after the first anchor line; every other line keeps content and order |
| Injector.InjectSplice | src/createProject.js:72-80 | on the text: a line break and the insert are spliced in at the end of the first anchor line, and the text before and after is unchanged |
| Injector.AnchorSurvives | src/createProject.js:72-80 | after one injection the same anchor line is still the first match |
| Injector.InjectTwice | src/createProject.js:61-91 | applying an injection twice inserts the line twice, one below the other (applying an injection is not idempotent) |
| Injector.InjectEntry | src/createProject.js:63-89 | one entry never creates or deletes a file |
| Injector.InjectOne | src/createProject.js:63-89 | one pass of the entry loop: the tree and the outcome `InjectEntry` and `EntryOutcome` describe |
| Injector.InjectAll | src/createProject.js:62-90 | injections never create or delete files |
| Injector.InjectAllUntouched | src/createProject.js:62-90 | a file no entry targets keeps its content |
| Injector.ApplyInjections | src/createProject.js:61-91 | the entry loop leaves the tree `InjectAll` describes; a missing file or anchor is reported and the next entry runs |
| Manifest.MergeSection | src/createProject.js:152-179 | one section spread module by module in selection order, unknown keys and absent sections skipped (properties in `MergeKeys`, `MergeLastWins`, `MergeKeepsBase`) |
| Manifest.MergeManifest | src/createProject.js:146-179 | the three sections created when falsy and merged, the other fields as read (properties in `ManifestNoModules`) |
| Manifest.ManifestUpdate | src/createProject.js:128-188 | the outcome: missing, unparsable or non-object file is an error, otherwise the merged manifest (implemented by `UpdatePackageJson`) |
| Manifest.MergeKeys | src/createProject.js:152-179 | a merged section holds exactly the base keys and the keys some selected, known module sets |
| Manifest.MergeLastWins | src/createProject.js:157-178 | for a key several modules set, the last module in selection order wins |
| Manifest.MergeKeepsBase | src/createProject.js:146-179 | a key no selected module sets keeps the value `package.json` had |
| Manifest.ManifestNoModules | src/createProject.js:146-149 | missing sections are created empty; other fields are unchanged |
| Manifest.SpreadModule | src/createProject.js:153-176 | one known module: each section it has is spread over the manifest's section, the others and every other field are kept |
| Manifest.UpdatePackageJson | src/createProject.js:128-188 | missing, unparsable or non-object `package.json` is an error and nothing is written; otherwise the merged manifest is written back |
| PackageManager.DetectPackageManager | src/createProject.js:193-203 | the four checks in order: pnpm exactly when the project has `pnpm-lock.yaml`, or has no `yarn.lock` and the working directory has `pnpm-lock.yaml`; yarn exactly when the project has no `pnpm-lock.yaml` and either has `yarn.lock` or the working directory has `yarn.lock` but no `pnpm-lock.yaml`; npm exactly when no lock file is found |
| PackageManager.ProjectLockDecides | src/createProject.js:195-196 | a lock file in the new project decides alone, pnpm first |
| PackageManager.CwdFallback | src/createProject.js:198-202 | without project lock files only the working directory matters: pnpm exactly when it has `pnpm-lock.yaml`, then yarn exactly when it has `yarn.lock` |
| ProjectCreation.CopyModules | src/createProject.js:241-250 | the copy loop over the selected keys, stopping at an unknown key that has a module directory (properties in `CopyStopPersists`, `CopyStopsAtUnknown`) |
| ProjectCreation.InjectModules | src/createProject.js:259-265 | the injection loop over the selected keys, stopping at the first unknown key (properties in `InjectStopPersists`, `InjectStopsAtUnknown`) |
| ProjectCreation.Create | src/createProject.js:208-270 | the whole run from catalog to package manager (properties in `UnknownSelectionFails`; implemented by `CreateProject`) |
| ProjectCreation.CopyStopPersists | src/createProject.js:242-250 | an unknown key with a module directory stops the copy loop for good |
| ProjectCreation.InjectStopPersists | src/createProject.js:260-265 | an unknown key stops the injection loop for good |
| ProjectCreation.InjectStopsAtUnknown | src/createProject.js:260-265 | the injection loop stops exactly when some selected key is not in the catalog |
| ProjectCreation.CopyStopsAtUnknown | src/createProject.js:242-250 | a copy-loop stop names a selected key that has a module directory but no catalog entry |
| ProjectCreation.UnknownSelectionFails | src/createProject.js:208-265 | selecting a key outside a loaded catalog always fails |
| ProjectCreation.CopySelectedModules | src/createProject.js:241-250 | the copy loop leaves the tree `CopyModules` describes |
| ProjectCreation.InjectSelectedModules | src/createProject.js:259-265 | the injection loop leaves the tree `InjectModules` describes |
| ProjectCreation.CreateProject | src/createProject.js:208-270 | the whole run (catalog, base, modules, manifest, injections, package manager) leaves the tree and result `Create` describes |
| Cli.ArgsSpec | bin/create-phobos.js:18-48 | what the argument loop decides: the first exit flag, else the last positional argument and `--all` (implemented by `ParseArgs`; properties in `ExitFlagIgnoresRest`, `LastPositionalWins`) |
| Cli.LastPositional | bin/create-phobos.js:44-47 | no name exactly when no argument is positional |
| Cli.LastPositionalWins | bin/create-phobos.js:44-47 | the name is a positional argument with no positional one after it |
| Cli.FirstExitFlag | bin/create-phobos.js:23-43 | the index of the first version or help flag |
| Cli.ParseArgs | bin/create-phobos.js:18-48 | the argument loop ends as `ArgsSpec`: the first exit flag decides; otherwise the last positional argument and `--all` anywhere |
| Cli.ExitFlagIgnoresRest | bin/create-phobos.js:23-43 | arguments after the first version or help flag are never looked at |
| Cli.ValidateName | bin/create-phobos.js:58-66 | a name is accepted exactly when it is not blank and no such path exists, with the source's two messages |
| Cli.Run | bin/create-phobos.js:10-84 | version and help exactly when their flag comes first; a project is created only under a name that does not exist, the last positional or else the prompt's answer; exit status 0 exactly after version or help, 1 exactly for an existing folder |
| Generator.ReplaceAll | template/modules/local-cli/tools/cli.ts:77 | one global `.replace` of `{{name}}`: a left-to-right scan over non-overlapping occurrences (properties in `ReplaceAllNoMatch`, `ReplaceAllPieces`) |
| Generator.Substitute | template/modules/local-cli/tools/cli.ts:76-78 | the two chained passes (properties in `SecondPassNoop`, `GeneratedText`, `GeneratedIndex`) |
| Generator.ReplaceAllNoMatch | template/modules/local-cli/tools/cli.ts:76-77 | a text without the placeholder is unchanged |
| Generator.ReplaceAllPieces | template/modules/local-cli/tools/cli.ts:76-77 | a text built from placeholder-free pieces gets the name in every placeholder's place and nothing else changes |
| Generator.SecondPassNoop | template/modules/local-cli/tools/cli.ts:76-78 | the second `.replace` changes nothing when the first leaves no placeholder |
| Generator.TemplateFor | template/modules/local-cli/tools/cli.ts:101-132 | the template each command passes: component, hook or page (implemented by `Generate`) |
| Generator.ConcatFree | template/modules/local-cli/tools/cli.ts:76-78 | two placeholder-free texts joined stay free unless the first ends with the start of `{{name}}` and the second starts with its rest |
| Generator.JoinFree | template/modules/local-cli/tools/cli.ts:76-78 | filling separable template parts with a placeholder-free name leaves no placeholder |
| Generator.NameKeepsFree | template/modules/local-cli/tools/cli.ts:76-77 | for a name without `{{name}}`, the first pass over a command's template leaves no placeholder |
| Generator.IndexNameKeepsFree | template/modules/local-cli/tools/cli.ts:85-86 | the same for the index template |
| Generator.ComponentPartsClean | template/modules/local-cli/tools/cli.ts:16-34 | the component template has placeholders only where the source writes `{{name}}` |
| Generator.HookPartsClean | template/modules/local-cli/tools/cli.ts:36-45 | the same for the hook template |
| Generator.PagePartsClean | template/modules/local-cli/tools/cli.ts:47-62 | the same for the page template |
| Generator.IndexPartsClean | template/modules/local-cli/tools/cli.ts:64-66 | the same for the index template |
| Generator.TemplateFirstPass | template/modules/local-cli/tools/cli.ts:76-77 | the first pass over a command's template writes the name at each of its placeholders |
| Generator.IndexFirstPass | template/modules/local-cli/tools/cli.ts:85-86 | the same for the index template |
| Generator.GeneratedText | template/modules/local-cli/tools/cli.ts:76-78 | for every name without `{{name}}` the second pass changes nothing: the main file is the template with the name filled in |
| Generator.GeneratedIndex | template/modules/local-cli/tools/cli.ts:85-87 | the same for `index.ts`, for every name without `{{name}}` |
| Generator.KindDir | template/modules/local-cli/tools/cli.ts:72 | pages go to `pages`, hooks to `hooks`, components to `components` |
| Generator.DirFor | template/modules/local-cli/tools/cli.ts:72 | `src/<pages, hooks or components>/<name>` (properties in `GeneratedPaths`, `KindDirsDistinct`) |
| Generator.MainFile | template/modules/local-cli/tools/cli.ts:80 | `<name>Page.tsx` for a page, otherwise `<name>.tsx` |
| Generator.MainPath | template/modules/local-cli/tools/cli.ts:81 | the main file inside `DirFor` (properties in `GeneratedPaths`) |
| Generator.IndexPath | template/modules/local-cli/tools/cli.ts:89 | `index.ts` inside `DirFor` (properties in `GeneratedPaths`) |
| Generator.GeneratedPaths | template/modules/local-cli/tools/cli.ts:72-89 | both files lie in `src/<dir>/<name>` and are two different files |
| Generator.UnderAgrees | template/modules/local-cli/tools/cli.ts:72 | a path inside a directory starts with that directory's characters |
| Generator.KindDirsDistinct | template/modules/local-cli/tools/cli.ts:72 | different kinds never write into each other's directories |
| Generator.GenerateFile | template/modules/local-cli/tools/cli.ts:68-94 | writes the substituted template to the main file, then the substituted index template to `index.ts` |
| Generator.GenerateFileResult | template/modules/local-cli/tools/cli.ts:76-90 | afterwards both files hold their own text, exactly those two paths are added, and files outside the directory keep their content |
| Generator.Generate | template/modules/local-cli/tools/cli.ts:101-132 | each command passes its own template |
| Avatar.Initials | template/modules/theme-provider/src/components/ui/Avatar/index.tsx:5-12 | `getInitials` as chained in the source: split at `' '`, first two segments, first characters, upper-cased (properties in `InitialsScan`, `InitialsShape`, `DoubleSpaceUsesSlot`) |
| Avatar.FirstChar | template/modules/theme-provider/src/components/ui/Avatar/index.tsx:8 | an empty segment contributes nothing, any other its first character |
| Avatar.FirstSpace | template/modules/theme-provider/src/components/ui/Avatar/index.tsx:7 | the index of the first space, or the length when there is none |
| Avatar.InitialsScan | template/modules/theme-provider/src/components/ui/Avatar/index.tsx:5-12 | the split, map, slice and join chain gives the first character plus the character after the first space, each only if it is not a space, upper-cased |
| Avatar.InitialsShape | template/modules/theme-provider/src/components/ui/Avatar/index.tsx:5-12 | at most two characters, each the upper-case form of a non-space character of the name; absent or empty name gives `""` |
| Avatar.DoubleSpaceUsesSlot | template/modules/theme-provider/src/components/ui/Avatar/index.tsx:7-10 | `"a  b"` gives `"A"` |
| Avatar.AvatarContentOf | template/modules/theme-provider/src/components/ui/Avatar/index.tsx:23-27 | the image when `src` is set, else non-empty children, else the initials of `alt` |
| Typography.Render | template/modules/theme-provider/src/components/ui/Typography/index.tsx:17-24 | a non-empty `as` decides; otherwise the mapped tag, or `p` for an unmapped variant; the variant, `body1` by default, is passed on |
| Typography.RenderedTags | template/modules/theme-provider/src/components/ui/Typography/index.tsx:5-22 | without `as` the element is a heading tag, `p` or `span` |
| Typography.MappingTable | template/modules/theme-provider/src/components/ui/Typography/index.tsx:5-18 | the table `VariantMapping`: headings map to themselves, the default `body1` to `p`, `caption` and `overline` to `span` |
| Breakpoints.Width | template/modules/theme-provider/src/theme/styles/breakpoints.ts:1-7 | the breakpoint table: 0, 600, 900, 1200, 1536 pixels (properties in `WidthsIncrease`) |
| Breakpoints.Up | template/modules/theme-provider/src/theme/styles/breakpoints.ts:11 | `@media (min-width: <width>px)` (properties in `QueryHoldsWidth`, `QueriesDistinct`, `UpDownDiffer`) |
| Breakpoints.Down | template/modules/theme-provider/src/theme/styles/breakpoints.ts:13 | `@media (max-width: <width>px)` (same lemmas) |
| Breakpoints.WidthsIncrease | template/modules/theme-provider/src/theme/styles/breakpoints.ts:1-7 | the table grows strictly from xs to xl |
| Breakpoints.NatToString | template/modules/theme-provider/src/theme/styles/breakpoints.ts:11-13 | a number is written as decimal digits |
| Breakpoints.ParseNatToString | template/modules/theme-provider/src/theme/styles/breakpoints.ts:11-13 | the written digits read back as the number |
| Breakpoints.QueryHoldsWidth | template/modules/theme-provider/src/theme/styles/breakpoints.ts:11-13 | a query holds exactly the key's width between its prefix and `px)` |
| Breakpoints.QueriesDistinct | template/modules/theme-provider/src/theme/styles/breakpoints.ts:11-13 | different keys give different `up` and different `down` queries |
| Breakpoints.UpDownDiffer | template/modules/theme-provider/src/theme/styles/breakpoints.ts:11-13 | for one key `up` and `down` differ only in `min` versus `max` |
| Browser.Storage.GetItem | template/modules/theme-provider/src/theme/provider.tsx:19 | a stored value, or none for a missing key |
| Browser.Storage.SetItem | template/modules/theme-provider/src/theme/provider.tsx:28 | stores one value under one key |
| Browser.Element.SetAttribute | template/modules/theme-dark-light/src/contexts/ThemeContext.tsx:30 | sets one attribute |
| ThemeNames.Toggled | template/modules/theme-provider/src/theme/provider.tsx:27 | the toggle gives light or dark, and dark exactly from light |
| ThemeNames.ToggleChanges | template/modules/theme-dark-light/src/contexts/ThemeContext.tsx:24-31 | a toggle always changes the name, so the `[theme]` effect runs again |
| ThemeNames.ToggleTwice | template/modules/theme-provider/src/theme/provider.tsx:25-31 | two toggles from light or dark return to the start; from any other name they end at dark |
| ThemeProvider.Adoptable | template/modules/theme-provider/src/theme/provider.tsx:19-20 | `savedTheme && themes[savedTheme]`: a non-empty stored value naming a theme (properties in `AdoptableNames`) |
| ThemeProvider.AdoptableNames | template/modules/theme-provider/src/theme/provider.tsx:19-20 | only stored `light` or `dark` passes the mount check |
| ThemeProvider.PhobosThemeProvider.constructor | template/modules/theme-provider/src/theme/provider.tsx:16 | the name starts as `light` |
| ThemeProvider.PhobosThemeProvider.Mount | template/modules/theme-provider/src/theme/provider.tsx:18-23 | a stored name is adopted only when it is a theme, otherwise the name stays; storage is only read; the name stays a theme |
| ThemeProvider.PhobosThemeProvider.ToggleTheme | template/modules/theme-provider/src/theme/provider.tsx:25-31 | flips the name and stores the new name under `theme` |
| ThemeProvider.PhobosThemeProvider.ActiveTheme | template/modules/theme-provider/src/theme/provider.tsx:33 | the dark theme exactly for `dark`, the light one exactly for `light` |
| ThemeContext.InitialTheme | template/modules/theme-dark-light/src/contexts/ThemeContext.tsx:19-22 | any non-empty stored value is taken unchecked; otherwise `light` |
| ThemeContext.PaletteFor | template/modules/theme-dark-light/src/contexts/ThemeContext.tsx:33 | the dark palette exactly for `dark` |
| ThemeContext.UnknownStoredTheme | template/modules/theme-dark-light/src/contexts/ThemeContext.tsx:19-33 | an unrecognised stored value renders light and toggles to light |
| ThemeContext.ThemeContextProvider.constructor | template/modules/theme-dark-light/src/contexts/ThemeContext.tsx:19-22 | the theme starts from storage |
| ThemeContext.ThemeContextProvider.ToggleTheme | template/modules/theme-dark-light/src/contexts/ThemeContext.tsx:24-26 | flips the theme |
| ThemeContext.ThemeContextProvider.SyncEffect | template/modules/theme-dark-light/src/contexts/ThemeContext.tsx:28-31 | afterwards storage `theme` and `data-theme` both hold the theme |
| ThemeContext.ThemeContextProvider.CurrentTheme | template/modules/theme-dark-light/src/contexts/ThemeContext.tsx:33 | the dark palette exactly when the theme is `dark` |
| ThemeContext.ThemeContextProvider.ToggleAndSync | template/modules/theme-dark-light/src/contexts/ThemeContext.tsx:24-31 | after a toggle and its effect, storage and attribute hold the new theme |
| ThemeContext.Mount | template/modules/theme-dark-light/src/contexts/ThemeContext.tsx:18-31 | the first render reads the initial theme and writes it back to storage and attribute |

## Left out

- Real I/O: file system calls, `process.exit`, `console` output, the spinner and colours. Listings, trees, lock files and prompt answers are inputs instead.
- Empty directories, `ensureDir`, path normalisation (`path.join`, `.`, `..`, absolute paths) and `existsSync` on directories are not modelled. Trees are meant to hold files at normalised relative paths, and nothing in the model enforces that.
- Overlay.ApplyCopyRules: copy-rule sources and destinations are taken to be non-empty normalised relative paths other than `.`. A rule onto the project root is not modelled: with destination `""` or `.`, `Rebase` would write keys such as `/App.tsx` or `./App.tsx`, where `path.join` makes the source write `App.tsx`. A rule whose source is `""` or `.` is reported as a missing source, where the source copies the whole module directory, `phobos.meta.json` included.
- Catalog.LoadCatalog: a failing `readJson` of a metadata file is folded into `MetaUnreadable`, so the warning text is not modelled.
- Catalog.FromMetadata: a metadata `key` overrides the directory key, as does the spread in the source. Lookups use the directory name, so that mismatch is kept, not resolved.
- Manifest.UpdatePackageJson: JSON parsing and formatting are the `parse` and `serialize` parameters. Key order, `{ spaces: 2 }` formatting and a failing `writeJson` are not modelled.
- Manifest.PackageJson: a section holding a non-object value, and arrays as the top-level value, are not distinguished beyond what `parse` returns.
- Injector.ApplyInjections: a `readFile` or `writeFile` failure (the caught error at lines 87-89) is not modelled; only missing files and missing anchors are.
- The dependency install (`execSync` of `<pm> install`) and `npx husky install` (src/createProject.js:273-297) run external programs. Their failures are only warnings, so nothing of them is modelled.
- The module checkbox (src/createProject.js:218-229) and its default choices: the selection is an input.
- Printing the summary and next steps (src/createProject.js:299-320) is console output.
- ProjectCreation.Create: the module trees and the catalog listing are independent inputs; nothing ties a selected key's directory to its listing entry.
- The `--all` flag is recorded but has no effect: `createProject` takes only the project name.
- The help and banner texts are not modelled beyond which one is printed; the error path of `main` (exit status 1 after a thrown error) is `CreateError` in this model.
- Cli.Run: inquirer's `default: 'my-phobos-app'` and the re-asking after a failed `validate` are not modelled; the prompt's answer is an input.
- Strings.IsBlank and Strings.Upper: whitespace and case mapping are ASCII only; Unicode `trim` and `toUpperCase` are not modelled.
- Generator.ReplaceAll: `$` patterns in the replacement string (`$&`, `$1`, …) are not modelled; the name is inserted literally.
- Generator.SecondPassNoop: stated on the first pass's output. `NameKeepsFree` and `IndexNameKeepsFree` show that every name without `{{name}}` meets that condition, so `GeneratedText` and `GeneratedIndex` hold for all such names. What the second pass does to a name containing `{{name}}` is not characterised.
- Generator.GenerateFile: `fs.ensureDirSync` and the console output are not modelled, and a name containing `/` is not normalised.
- Typography.Render: a variant naming an inherited object property (`toString`, …) is treated as unmapped; the rendered element is only its tag name.
- ThemeProvider.Adoptable: inherited object property names are treated as absent from `themes`.
- Theme colour tables and React rendering (styles, pages, layout components) are presentational. `ThemeToggle.tsx` and `useThemeToggle.ts` are not part of this model.
- React's scheduling is not modelled: the `[theme]` effect is modelled as running right after the change that triggers it.
