/** The text injection step of `applyInjections`: insert a line after an anchor line. */
module Injector {
  import opened Wrappers
  import opened Strings
  import opened FileTree

  /** One `injections` entry: the anchor text `after` and the line `insert` to add below it. */
  datatype Injection = Injection(after: string, insert: string)

  /** `injections` in `Object.entries` order: target file path and what to inject there. */
  type Injections = seq<(Path, Injection)>

  /** What one injection entry did; only `Injected` changes the file. */
  datatype InjectionOutcome = Injected | FileMissing | AnchorMissing

  /** `lines.findIndex(line => line.includes(after))`: the first line holding the anchor, or -1. */
  function FindIndex(lines: seq<string>, after: string): (k: int)
    ensures -1 <= k < |lines|
    ensures k == -1 <==> forall i :: 0 <= i < |lines| ==> !Contains(lines[i], after)
    ensures 0 <= k ==> Contains(lines[k], after)
    ensures 0 <= k ==> forall i :: 0 <= i < k ==> !Contains(lines[i], after)
  {
    if lines == [] then -1
    else if Contains(lines[0], after) then 0
    else
      var k := FindIndex(lines[1..], after);
      if k == -1 then -1 else k + 1
  }

  /** The first match in a prefix is the first match in any extension of it. */
  lemma FindIndexInPrefix(a: seq<string>, b: seq<string>, after: string)
    requires FindIndex(a, after) != -1
    ensures FindIndex(a + b, after) == FindIndex(a, after)
  {
    var k := FindIndex(a, after);
    var k' := FindIndex(a + b, after);
    assert (a + b)[k] == a[k];
    assert k' <= k;
    assert forall i :: 0 <= i < k' ==> (a + b)[i] == a[i];
  }

  /** `lines.splice(k, 0, x)`: `x` becomes element `k`, the lines before it keep their place
      and the lines from `k` on move down by one. */
  function InsertAt(lines: seq<string>, k: nat, x: string): (r: seq<string>)
    requires k <= |lines|
    ensures |r| == |lines| + 1
    ensures r[k] == x
    ensures forall i :: 0 <= i < k ==> r[i] == lines[i]
    ensures forall i :: k < i < |r| ==> r[i] == lines[i - 1]
  {
    lines[..k] + [x] + lines[k..]
  }

  /** The lines of a file, as `content.split('\n')` makes them. */
  function Lines(content: string): seq<string> {
    Split(content, '\n')
  }

  /** The new content of one file for one injection, or `None` when no line holds the anchor
      (the file is then left as it is). */
  function InjectText(content: string, inj: Injection): Option<string> {
    var lines := Lines(content);
    var k := FindIndex(lines, inj.after);
    if k == -1 then None
    else Some(Join(InsertAt(lines, k + 1, inj.insert), '\n'))
  }

  /** Where the first anchor line of `content` ends: the length of the text up to and
      including that line, without its line break. */
  function AnchorLineEnd(content: string, after: string): nat
    requires FindIndex(Lines(content), after) != -1
  {
    |Join(Lines(content)[..FindIndex(Lines(content), after) + 1], '\n')|
  }

  /** An injection fails exactly when no line contains the anchor. */
  lemma InjectMissingAnchor(content: string, inj: Injection)
    ensures InjectText(content, inj) == None <==>
      forall i :: 0 <= i < |Lines(content)| ==> !Contains(Lines(content)[i], inj.after)
  {
  }

  /** On the line array: `insert` lands directly after the first anchor line, every other
      line keeps its content and order, and there is exactly one line more. */
  lemma {:induction false} InjectLinePlacement(content: string, inj: Injection)
    requires FindIndex(Lines(content), inj.after) != -1
    ensures var lines := Lines(content);
      var k := FindIndex(lines, inj.after);
      var r := InsertAt(lines, k + 1, inj.insert);
      && Contains(lines[k], inj.after)
      && (forall i :: 0 <= i < k ==> !Contains(lines[i], inj.after))
      && |r| == |lines| + 1
      && r[..k + 1] == lines[..k + 1]
      && r[k + 1] == inj.insert
      && r[k + 2..] == lines[k + 1..]
      && InjectText(content, inj) == Some(Join(r, '\n'))
  {
    var lines := Lines(content);
    var k := FindIndex(lines, inj.after);
    var r := InsertAt(lines, k + 1, inj.insert);
    assert r == lines[..k + 1] + [inj.insert] + lines[k + 1..];
  }

  /** Joining after a one-line splice is splicing the joined text at the end of line `k`. */
  lemma JoinInsertAfter(lines: seq<string>, k: nat, x: string)
    requires k < |lines|
    ensures var m := |Join(lines[..k + 1], '\n')|;
      && m <= |Join(lines, '\n')|
      && Join(lines, '\n')[..m] == Join(lines[..k + 1], '\n')
      && Join(InsertAt(lines, k + 1, x), '\n')
         == Join(lines, '\n')[..m] + "\n" + x + Join(lines, '\n')[m..]
  {
    var head := lines[..k + 1];
    var tail := lines[k + 1..];
    var jh := Join(head, '\n');
    var r := InsertAt(lines, k + 1, x);
    assert r == head + ([x] + tail);
    JoinAppend(head, [x] + tail, '\n');
    assert lines == head + tail;
    if tail == [] {
      assert lines == head;
      assert Join(lines, '\n')[..|jh|] == jh;
      assert Join([x] + tail, '\n') == x by { assert [x] + tail == [x]; }
    } else {
      JoinAppend(head, tail, '\n');
      JoinAppend([x], tail, '\n');
      var jl := Join(lines, '\n');
      assert jl == jh + "\n" + Join(tail, '\n');
      assert jl[..|jh|] == jh;
      assert jl[|jh|..] == "\n" + Join(tail, '\n');
    }
  }

  /** On the file text: the result is the content with a line break and `insert` spliced in at
      the end of the first anchor line; nothing before or after it changes. */
  lemma InjectSplice(content: string, inj: Injection)
    requires FindIndex(Lines(content), inj.after) != -1
    ensures var m := AnchorLineEnd(content, inj.after);
      && m <= |content|
      && InjectText(content, inj) == Some(content[..m] + "\n" + inj.insert + content[m..])
  {
    var lines := Lines(content);
    var k := FindIndex(lines, inj.after);
    var m := AnchorLineEnd(content, inj.after);
    assert m == |Join(lines[..k + 1], '\n')|;
    assert InjectText(content, inj) == Some(Join(InsertAt(lines, k + 1, inj.insert), '\n'));
    JoinInsertAfter(lines, k, inj.insert);
    JoinSplit(content, '\n');
  }

  /** After one injection the same anchor line is still the first match, ending at the same place. */
  lemma AnchorSurvives(content: string, inj: Injection)
    requires FindIndex(Lines(content), inj.after) != -1
    ensures InjectText(content, inj).Some?
    ensures var once := InjectText(content, inj).value;
      && FindIndex(Lines(once), inj.after) == FindIndex(Lines(content), inj.after)
      && AnchorLineEnd(once, inj.after) == AnchorLineEnd(content, inj.after)
  {
    var lines := Lines(content);
    var k := FindIndex(lines, inj.after);
    var head := lines[..k + 1];
    var m := AnchorLineEnd(content, inj.after);
    assert m <= |content| && content[..m] == Join(head, '\n') by {
      JoinSplit(content, '\n');
      JoinInsertAfter(lines, k, inj.insert);
    }
    var rest := inj.insert + content[m..];
    var once := Join(head, '\n') + "\n" + rest;
    assert InjectText(content, inj) == Some(once) by {
      InjectSplice(content, inj);
      assert content[..m] + "\n" + inj.insert + content[m..] == once;
    }
    assert Lines(once) == head + Lines(rest) by {
      SplitJoinPrefix(head, rest, '\n');
    }
    assert FindIndex(Lines(once), inj.after) == k by {
      FindIndexInPrefix(head, Lines(rest), inj.after);
    }
    assert Lines(once)[..k + 1] == head;
  }

  /** Splicing `x` at the same place of an already spliced text. */
  lemma SpliceTwice(a: string, b: string, x: string)
    ensures var once := a + "\n" + x + b;
      once[..|a|] + "\n" + x + once[|a|..] == a + "\n" + x + "\n" + x + b
  {
    var once := a + "\n" + x + b;
    assert once[..|a|] == a;
    assert once[|a|..] == "\n" + x + b;
  }

  /** Injecting twice is not idempotent: `insert` appears on two consecutive new lines after
      the same anchor line. */
  lemma InjectTwice(content: string, inj: Injection)
    requires FindIndex(Lines(content), inj.after) != -1
    ensures var m := AnchorLineEnd(content, inj.after);
      && m <= |content|
      && InjectText(content, inj).Some?
      && InjectText(InjectText(content, inj).value, inj)
         == Some(content[..m] + "\n" + inj.insert + "\n" + inj.insert + content[m..])
  {
    var m := AnchorLineEnd(content, inj.after);
    InjectSplice(content, inj);
    var a := content[..m];
    var once := a + "\n" + inj.insert + content[m..];
    assert FindIndex(Lines(once), inj.after) != -1 && AnchorLineEnd(once, inj.after) == |a| by {
      AnchorSurvives(content, inj);
    }
    assert InjectText(once, inj) == Some(once[..|a|] + "\n" + inj.insert + once[|a|..]) by {
      InjectSplice(once, inj);
    }
    SpliceTwice(a, content[m..], inj.insert);
  }

  /** The effect of one entry: the target file, when present and holding the anchor, gets the
      line inserted; otherwise nothing changes. */
  function InjectEntry(tree: Tree, target: Path, inj: Injection): (r: Tree)
    ensures r.Keys == tree.Keys
  {
    if target !in tree then tree
    else match InjectText(tree[target], inj)
      case None => tree
      case Some(content) => tree[target := content]
  }

  /** The effect of all injection entries of one module, in entry order. */
  function InjectAll(tree: Tree, injections: Injections): (r: Tree)
    ensures r.Keys == tree.Keys
  {
    if injections == [] then tree
    else
      var n := |injections| - 1;
      InjectEntry(InjectAll(tree, injections[..n]), injections[n].0, injections[n].1)
  }

  /** The outcome of one entry against the tree it sees. */
  function EntryOutcome(tree: Tree, target: Path, inj: Injection): InjectionOutcome {
    if target !in tree then FileMissing
    else if InjectText(tree[target], inj) == None then AnchorMissing
    else Injected
  }

  /** The outcomes of all entries, each against the tree left by the entries before it. */
  ghost function Report(tree: Tree, injections: Injections): (report: seq<InjectionOutcome>)
    ensures |report| == |injections|
  {
    if injections == [] then []
    else
      var n := |injections| - 1;
      Report(tree, injections[..n]) + [EntryOutcome(InjectAll(tree, injections[..n]), injections[n].0, injections[n].1)]
  }

  /** Files that no entry targets are left exactly as they were. */
  lemma {:induction false} InjectAllUntouched(tree: Tree, injections: Injections, p: Path)
    requires forall i :: 0 <= i < |injections| ==> injections[i].0 != p
    ensures p in tree ==> InjectAll(tree, injections)[p] == tree[p]
  {
    if injections != [] {
      InjectAllUntouched(tree, injections[..|injections| - 1], p);
    }
  }

  /** One more entry: how the tree and the report move on. */
  lemma InjectStep(tree: Tree, injections: Injections, i: nat)
    requires i < |injections|
    ensures InjectAll(tree, injections[..i + 1])
      == InjectEntry(InjectAll(tree, injections[..i]), injections[i].0, injections[i].1)
    ensures Report(tree, injections[..i + 1])
      == Report(tree, injections[..i]) + [EntryOutcome(InjectAll(tree, injections[..i]), injections[i].0, injections[i].1)]
  {
    assert injections[..i + 1][..i] == injections[..i];
  }

  /** The body of the injection loop for one entry: a missing file or a missing anchor is only
      reported, otherwise the line is spliced in and the file written back. */
  method InjectOne(project: Directory, target: Path, inj: Injection) returns (outcome: InjectionOutcome)
    modifies project
    ensures project.files == InjectEntry(old(project.files), target, inj)
    ensures outcome == EntryOutcome(old(project.files), target, inj)
  {
    if target !in project.files {
      return FileMissing;
    }
    var lines := Lines(project.files[target]);
    var afterIndex := FindIndex(lines, inj.after);
    if afterIndex == -1 {
      return AnchorMissing;
    }
    lines := InsertAt(lines, afterIndex + 1, inj.insert);
    project.files := project.files[target := Join(lines, '\n')];
    return Injected;
  }

  /** `applyInjections`: for each entry in order, a missing file or a missing anchor is only
      warned about and the next entry is processed. */
  method ApplyInjections(project: Directory, injections: Injections)
    returns (report: seq<InjectionOutcome>)
    modifies project
    ensures project.files == InjectAll(old(project.files), injections)
    ensures report == Report(old(project.files), injections)
  {
    var i := 0;
    report := [];
    while i < |injections|
      invariant 0 <= i <= |injections|
      invariant project.files == InjectAll(old(project.files), injections[..i])
      invariant report == Report(old(project.files), injections[..i])
    {
      InjectStep(old(project.files), injections, i);
      var outcome := InjectOne(project, injections[i].0, injections[i].1);
      report := report + [outcome];
      i := i + 1;
    }
    assert injections[..i] == injections;
  }
}
