/** The file overlay step of `copyModuleFiles`: how one module's files land in the project. */
module Overlay {
  import opened Wrappers
  import opened FileTree

  /** The module metadata file, never copied by the default rule. */
  const MetaFile: Path := "phobos.meta.json"

  /** `copyRules` in `Object.entries` order: source path in the module, destination in the project. */
  type CopyRules = seq<(Path, Path)>

  /** What one copy rule did; a missing source is only a warning. */
  datatype CopyOutcome = Copied | SourceMissing

  /** `fs.pathExists(source)` inside the module: some file lies at or under it. */
  predicate SourceExists(moduleDir: Tree, source: Path) {
    exists p :: p in moduleDir && Under(p, source)
  }

  /** Copying `source` onto `dest` writes the project path `q`. */
  predicate Writes(moduleDir: Tree, source: Path, dest: Path, q: Path) {
    Under(q, dest) && Rebase(q, dest, source) in moduleDir
  }

  /** Every module file under `source` is written at its rebased place under `dest`. */
  lemma WrittenTargets(moduleDir: Tree, source: Path, dest: Path)
    ensures forall p :: p in moduleDir && Under(p, source) ==>
      Writes(moduleDir, source, dest, Rebase(p, source, dest)) &&
      Rebase(Rebase(p, source, dest), dest, source) == p
  {
    forall p | p in moduleDir && Under(p, source)
      ensures Writes(moduleDir, source, dest, Rebase(p, source, dest))
      ensures Rebase(Rebase(p, source, dest), dest, source) == p
    {
      RebaseInverse(p, source, dest);
    }
  }

  /** `fs.copy(source, dest, { overwrite: true })`: every module file at or under `source`
      lands at the same place relative to `dest`; every other project path keeps its state. */
  function CopyEntry(tree: Tree, moduleDir: Tree, source: Path, dest: Path): (r: Tree)
    ensures forall p :: p in moduleDir && Under(p, source) ==>
      Rebase(p, source, dest) in r && r[Rebase(p, source, dest)] == moduleDir[p]
    ensures forall q :: !Writes(moduleDir, source, dest, q) ==>
      (q in r <==> q in tree) && (q in tree ==> r[q] == tree[q])
  {
    WrittenTargets(moduleDir, source, dest);
    var written := set p | p in moduleDir && Under(p, source) :: Rebase(p, source, dest);
    map q | q in tree.Keys + written ::
      if Writes(moduleDir, source, dest, q) then moduleDir[Rebase(q, dest, source)] else tree[q]
  }

  /** The default rule: every file whose top-level entry is not the metadata file is copied
      to the same path, overwriting; nothing else changes. */
  function CopyAll(tree: Tree, moduleDir: Tree): (r: Tree)
    ensures forall p :: p in moduleDir && Head(p) != MetaFile ==> p in r && r[p] == moduleDir[p]
    ensures forall q :: (q !in moduleDir || Head(q) == MetaFile) ==>
      (q in r <==> q in tree) && (q in tree ==> r[q] == tree[q])
  {
    tree + map p | p in moduleDir && Head(p) != MetaFile :: moduleDir[p]
  }

  /** One rule: copy its source onto its destination when the source exists. */
  function ApplyCopyRule(tree: Tree, moduleDir: Tree, source: Path, dest: Path): Tree {
    if SourceExists(moduleDir, source) then CopyEntry(tree, moduleDir, source, dest) else tree
  }

  /** The explicit rules applied one after another; a rule whose source is missing is skipped. */
  function ApplyCopyRules(tree: Tree, moduleDir: Tree, rules: CopyRules): Tree {
    if rules == [] then tree
    else
      var n := |rules| - 1;
      ApplyCopyRule(ApplyCopyRules(tree, moduleDir, rules[..n]), moduleDir, rules[n].0, rules[n].1)
  }

  /** The whole effect of `copyModuleFiles` on the project tree. */
  function ModuleOverlay(tree: Tree, moduleDir: Tree, copyRules: Option<CopyRules>): Tree {
    if copyRules == None || copyRules.value == [] then CopyAll(tree, moduleDir)
    else ApplyCopyRules(tree, moduleDir, copyRules.value)
  }

  /** The warning report of the explicit rules: one outcome per rule. */
  function RulesReport(moduleDir: Tree, rules: CopyRules): (report: seq<CopyOutcome>)
    ensures |report| == |rules|
    ensures forall i :: 0 <= i < |rules| ==>
      (report[i] == SourceMissing <==> !SourceExists(moduleDir, rules[i].0))
  {
    seq(|rules|, i requires 0 <= i < |rules| =>
      if SourceExists(moduleDir, rules[i].0) then Copied else SourceMissing)
  }

  /** A path that no rule writes keeps its presence and content. */
  lemma {:induction false} CopyRulesUntouched(tree: Tree, moduleDir: Tree, rules: CopyRules, q: Path)
    requires forall i :: 0 <= i < |rules| ==> !Writes(moduleDir, rules[i].0, rules[i].1, q)
    ensures var r := ApplyCopyRules(tree, moduleDir, rules);
      (q in r <==> q in tree) && (q in tree ==> r[q] == tree[q])
  {
    if rules != [] {
      CopyRulesUntouched(tree, moduleDir, rules[..|rules| - 1], q);
    }
  }

  /** A path holds the module file copied by the last rule that writes it, even when
      earlier or later rules had missing sources. */
  lemma {:induction false} CopyRulesLastWins(tree: Tree, moduleDir: Tree, rules: CopyRules, i: nat, q: Path)
    requires i < |rules|
    requires Writes(moduleDir, rules[i].0, rules[i].1, q)
    requires forall j :: i < j < |rules| ==> !Writes(moduleDir, rules[j].0, rules[j].1, q)
    ensures var r := ApplyCopyRules(tree, moduleDir, rules);
      q in r && r[q] == moduleDir[Rebase(q, rules[i].1, rules[i].0)]
  {
    var n := |rules| - 1;
    var (source, dest) := rules[n];
    if i == n {
      var p := Rebase(q, dest, source);
      RebaseInverse(q, dest, source);
      assert SourceExists(moduleDir, source);
    } else {
      CopyRulesLastWins(tree, moduleDir, rules[..n], i, q);
    }
  }

  /** `p` is a module file whose top-level entry is one of `names` and not the metadata file. */
  predicate Picked(moduleDir: Tree, names: set<string>, p: Path) {
    p in moduleDir && Head(p) in names && Head(p) != MetaFile
  }

  /** The files of `moduleDir` whose top-level entry is one of `names` copied over `tree`. */
  ghost function CopiedEntries(tree: Tree, moduleDir: Tree, names: set<string>): Tree {
    tree + map p | p in moduleDir && Picked(moduleDir, names, p) :: moduleDir[p]
  }

  /** Copying a top-level entry onto itself writes exactly the module files of that entry. */
  lemma SelfCopyWrites(moduleDir: Tree, e: string, q: Path)
    requires '/' !in e
    ensures Writes(moduleDir, e, e, q) <==> q in moduleDir && Head(q) == e
  {
    UnderTopLevel(q, e);
    if Under(q, e) {
      assert Rebase(q, e, e) == q;
    }
  }

  /** One path of `CopyEntryStep`. */
  lemma CopyEntryStepAt(tree: Tree, moduleDir: Tree, names: set<string>, e: string, q: Path)
    requires e != MetaFile && '/' !in e
    ensures var r := CopyEntry(CopiedEntries(tree, moduleDir, names), moduleDir, e, e);
      var after := CopiedEntries(tree, moduleDir, names + {e});
      (q in r <==> q in after) && (q in r ==> r[q] == after[q])
  {
    SelfCopyWrites(moduleDir, e, q);
    if q in moduleDir && Head(q) == e {
      UnderTopLevel(q, e);
      assert Rebase(q, e, e) == q;
      assert Picked(moduleDir, names + {e}, q);
    } else {
      assert Picked(moduleDir, names + {e}, q) == Picked(moduleDir, names, q);
    }
  }

  /** Copying one more top-level entry onto itself extends the copied set by that entry. */
  lemma CopyEntryStep(tree: Tree, moduleDir: Tree, names: set<string>, e: string)
    requires e != MetaFile && '/' !in e
    ensures CopyEntry(CopiedEntries(tree, moduleDir, names), moduleDir, e, e)
         == CopiedEntries(tree, moduleDir, names + {e})
  {
    var r := CopyEntry(CopiedEntries(tree, moduleDir, names), moduleDir, e, e);
    var after := CopiedEntries(tree, moduleDir, names + {e});
    forall q
      ensures (q in r <==> q in after) && (q in r ==> r[q] == after[q])
    {
      CopyEntryStepAt(tree, moduleDir, names, e, q);
    }
    assert r.Keys == after.Keys;
  }

  /** Naming the metadata entry copies nothing more. */
  lemma CopiedEntriesSkipMeta(tree: Tree, moduleDir: Tree, names: set<string>)
    ensures CopiedEntries(tree, moduleDir, names + {MetaFile}) == CopiedEntries(tree, moduleDir, names)
  {
    forall p | p in moduleDir
      ensures Picked(moduleDir, names + {MetaFile}, p) == Picked(moduleDir, names, p)
    {
    }
  }

  /** The top-level entries of a module directory (`fs.readdir`). */
  function TopLevelEntries(moduleDir: Tree): (names: set<string>)
    ensures forall p :: p in moduleDir ==> Head(p) in names
  {
    set p | p in moduleDir :: Head(p)
  }

  /** Naming no entry copies nothing. */
  lemma CopiedEntriesNone(tree: Tree, moduleDir: Tree)
    ensures CopiedEntries(tree, moduleDir, {}) == tree
  {
    assert (map p | p in moduleDir && Picked(moduleDir, {}, p) :: moduleDir[p]) == map[];
  }

  /** Naming every top-level entry copies what the default rule copies. */
  lemma CopiedEntriesAll(tree: Tree, moduleDir: Tree, names: set<string>)
    requires forall p :: p in moduleDir ==> Head(p) in names
    ensures CopiedEntries(tree, moduleDir, names) == CopyAll(tree, moduleDir)
  {
    assert (map p | p in moduleDir && Picked(moduleDir, names, p) :: moduleDir[p])
        == (map p | p in moduleDir && Head(p) != MetaFile :: moduleDir[p]);
  }

  /** The default rule as a loop over the module's top-level entries (`fs.readdir`). */
  method CopyTopLevelEntries(project: Directory, moduleDir: Tree)
    modifies project
    ensures project.files == CopyAll(old(project.files), moduleDir)
  {
    var todo := TopLevelEntries(moduleDir);
    ghost var done: set<string> := {};
    CopiedEntriesNone(old(project.files), moduleDir);
    while todo != {}
      invariant todo !! done
      invariant todo + done == TopLevelEntries(moduleDir)
      invariant project.files == CopiedEntries(old(project.files), moduleDir, done)
      decreases todo
    {
      var e :| e in todo;
      if e != MetaFile {
        CopyEntryStep(old(project.files), moduleDir, done, e);
        project.files := CopyEntry(project.files, moduleDir, e, e);
      } else {
        CopiedEntriesSkipMeta(old(project.files), moduleDir, done);
      }
      todo := todo - {e};
      done := done + {e};
    }
    CopiedEntriesAll(old(project.files), moduleDir, done);
  }

  /** One more rule: how the tree and the report move on. */
  lemma CopyRuleStep(tree: Tree, moduleDir: Tree, rules: CopyRules, i: nat)
    requires i < |rules|
    ensures ApplyCopyRules(tree, moduleDir, rules[..i + 1])
      == ApplyCopyRule(ApplyCopyRules(tree, moduleDir, rules[..i]), moduleDir, rules[i].0, rules[i].1)
    ensures RulesReport(moduleDir, rules[..i + 1]) == RulesReport(moduleDir, rules[..i])
      + [if SourceExists(moduleDir, rules[i].0) then Copied else SourceMissing]
  {
    assert rules[..i + 1][..i] == rules[..i];
    var r := RulesReport(moduleDir, rules[..i + 1]);
    var r' := RulesReport(moduleDir, rules[..i]) + [if SourceExists(moduleDir, rules[i].0) then Copied else SourceMissing];
    assert |r| == |r'|;
    forall j | 0 <= j < |r|
      ensures r[j] == r'[j]
    {
      assert rules[..i + 1][j] == rules[j];
      if j < i {
        assert rules[..i][j] == rules[j];
      }
    }
  }

  /** The explicit rules in order; a missing source is reported and skipped. */
  method FollowCopyRules(project: Directory, moduleDir: Tree, rules: CopyRules)
    returns (report: seq<CopyOutcome>)
    modifies project
    ensures project.files == ApplyCopyRules(old(project.files), moduleDir, rules)
    ensures report == RulesReport(moduleDir, rules)
  {
    var i := 0;
    report := [];
    while i < |rules|
      invariant 0 <= i <= |rules|
      invariant project.files == ApplyCopyRules(old(project.files), moduleDir, rules[..i])
      invariant report == RulesReport(moduleDir, rules[..i])
    {
      var source := rules[i].0;
      var dest := rules[i].1;
      CopyRuleStep(old(project.files), moduleDir, rules, i);
      if SourceExists(moduleDir, source) {
        project.files := CopyEntry(project.files, moduleDir, source, dest);
        report := report + [Copied];
      } else {
        report := report + [SourceMissing];
      }
      i := i + 1;
    }
    assert rules[..i] == rules;
  }

  /** `copyModuleFiles`: with no or empty rules copy every top-level entry except the metadata
      file; otherwise follow the rules in order, skipping (and reporting) missing sources. */
  method CopyModuleFiles(project: Directory, moduleDir: Tree, copyRules: Option<CopyRules>)
    returns (report: seq<CopyOutcome>)
    modifies project
    ensures project.files == ModuleOverlay(old(project.files), moduleDir, copyRules)
    ensures report == if copyRules == None then [] else RulesReport(moduleDir, copyRules.value)
  {
    if copyRules == None || copyRules.value == [] {
      CopyTopLevelEntries(project, moduleDir);
      report := [];
    } else {
      report := FollowCopyRules(project, moduleDir, copyRules.value);
    }
  }
}
