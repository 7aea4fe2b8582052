/** The command line of `create-phobos`: argument processing, the name checks and the decision
    to create the project. */
module Cli {
  import opened Wrappers
  import opened Strings

  const NameRequired := "O nome do projeto é obrigatório"
  const NameTaken := "Uma pasta com este nome já existe"

  predicate IsVersionFlag(arg: string) { arg == "--version" || arg == "-v" }
  predicate IsHelpFlag(arg: string) { arg == "--help" || arg == "-h" }
  predicate IsExitFlag(arg: string) { IsVersionFlag(arg) || IsHelpFlag(arg) }

  /** An argument that names the project: anything not starting with `-`, the empty one included. */
  predicate IsPositional(arg: string) { !StartsWith(arg, "-") }

  /** What the argument loop ends with: printing the version or the help (exit status 0), or
      going on with the last positional argument and the `--all` flag. */
  datatype ArgsOutcome = ShowVersion | ShowHelp | Proceed(projectName: Option<string>, all: bool)

  /** The last positional argument, if any. */
  function LastPositional(args: seq<string>): (name: Option<string>)
    ensures name == None <==> forall i :: 0 <= i < |args| ==> !IsPositional(args[i])
  {
    if args == [] then None
    else if IsPositional(args[|args| - 1]) then Some(args[|args| - 1])
    else
      var name := LastPositional(args[..|args| - 1]);
      assert forall i :: 0 <= i < |args| - 1 ==> args[..|args| - 1][i] == args[i];
      name
  }

  /** Argument `i` is positional and no argument after it is. */
  predicate IsLastPositional(args: seq<string>, i: int) {
    0 <= i < |args| && IsPositional(args[i]) && forall j :: i < j < |args| ==> !IsPositional(args[j])
  }

  /** One more argument: how the last positional argument and the `--all` flag move on. */
  lemma ArgsStep(args: seq<string>, i: nat)
    requires i < |args|
    ensures LastPositional(args[..i + 1]) ==
      if IsPositional(args[i]) then Some(args[i]) else LastPositional(args[..i])
    ensures ("--all" in args[..i + 1]) <==> ("--all" in args[..i] || args[i] == "--all")
  {
    assert args[..i + 1][..i] == args[..i];
    assert args[..i + 1] == args[..i] + [args[i]];
  }

  /** The last positional argument wins: every positional argument before it is overwritten. */
  lemma {:induction false} LastPositionalWins(args: seq<string>)
    requires LastPositional(args).Some?
    ensures exists i :: IsLastPositional(args, i) && args[i] == LastPositional(args).value
  {
    var n := |args| - 1;
    if IsPositional(args[n]) {
      assert IsLastPositional(args, n);
    } else {
      var front := args[..n];
      LastPositionalWins(front);
      var i :| IsLastPositional(front, i) && front[i] == LastPositional(front).value;
      assert args[i] == front[i];
      assert forall j :: i < j < n ==> args[j] == front[j];
      assert IsLastPositional(args, i);
    }
  }

  /** The index of the first version or help flag, or `|args|` when there is none. */
  function FirstExitFlag(args: seq<string>): (k: nat)
    ensures k <= |args|
    ensures forall i :: 0 <= i < k ==> !IsExitFlag(args[i])
    ensures k < |args| ==> IsExitFlag(args[k])
  {
    if args == [] then 0
    else if IsExitFlag(args[0]) then 0
    else 1 + FirstExitFlag(args[1..])
  }

  /** The outcome stated without the loop: the first version or help flag decides alone;
      otherwise the last positional argument is the name and `--all` anywhere sets the flag. */
  function ArgsSpec(args: seq<string>): ArgsOutcome {
    var k := FirstExitFlag(args);
    if k < |args| then (if IsVersionFlag(args[k]) then ShowVersion else ShowHelp)
    else Proceed(LastPositional(args), "--all" in args)
  }

  /** The `for` loop over the arguments with its early exits. */
  method ParseArgs(args: seq<string>) returns (outcome: ArgsOutcome)
    ensures outcome == ArgsSpec(args)
  {
    var projectName: Option<string> := None;
    var all := false;
    var i := 0;
    while i < |args|
      invariant 0 <= i <= |args|
      invariant forall j :: 0 <= j < i ==> !IsExitFlag(args[j])
      invariant projectName == LastPositional(args[..i])
      invariant all <==> "--all" in args[..i]
    {
      var arg := args[i];
      ArgsStep(args, i);
      if arg == "--all" {
        all := true;
      } else if arg == "--version" || arg == "-v" {
        FirstExitFlagAt(args, i);
        return ShowVersion;
      } else if arg == "--help" || arg == "-h" {
        FirstExitFlagAt(args, i);
        return ShowHelp;
      } else if !StartsWith(arg, "-") {
        projectName := Some(arg);
      }
      i := i + 1;
    }
    assert args[..i] == args;
    FirstExitFlagAt(args, i);
    outcome := Proceed(projectName, all);
  }

  /** `FirstExitFlag` is the index of the first exit flag. */
  lemma {:induction false} FirstExitFlagAt(args: seq<string>, i: nat)
    requires i <= |args|
    requires forall j :: 0 <= j < i ==> !IsExitFlag(args[j])
    requires i < |args| ==> IsExitFlag(args[i])
    ensures FirstExitFlag(args) == i
  {
    if args != [] && i > 0 {
      FirstExitFlagAt(args[1..], i - 1);
    }
  }

  /** Whatever follows the first version or help flag is never looked at. */
  lemma ExitFlagIgnoresRest(front: seq<string>, flag: string, rest1: seq<string>, rest2: seq<string>)
    requires forall j :: 0 <= j < |front| ==> !IsExitFlag(front[j])
    requires IsExitFlag(flag)
    ensures ArgsSpec(front + [flag] + rest1) == ArgsSpec(front + [flag] + rest2)
    ensures ArgsSpec(front + [flag] + rest1) == if IsVersionFlag(flag) then ShowVersion else ShowHelp
  {
    var a1 := front + [flag] + rest1;
    var a2 := front + [flag] + rest2;
    assert a1[|front|] == flag && a2[|front|] == flag;
    FirstExitFlagAt(a1, |front|);
    FirstExitFlagAt(a2, |front|);
  }

  /** The prompt's `validate`: `None` accepts the input, otherwise the message shown. */
  function ValidateName(input: string, existing: set<string>): (r: Option<string>)
    ensures r == None <==> !IsBlank(input) && input !in existing
    ensures IsBlank(input) ==> r == Some(NameRequired)
    ensures !IsBlank(input) && input in existing ==> r == Some(NameTaken)
  {
    if IsBlank(input) then Some(NameRequired)
    else if input in existing then Some(NameTaken)
    else None
  }

  /** How `main` ends: status 0 after the version or help text, status 1 when the folder
      exists, or a call to `createProject` with the chosen name and options. */
  datatype CliOutcome = PrintVersion | PrintHelp | FolderExists(name: string)
                      | CreateProject(name: string, all: bool)

  function ExitStatus(o: CliOutcome): Option<int> {
    match o
    case PrintVersion => Some(0)
    case PrintHelp => Some(0)
    case FolderExists(_) => Some(1)
    case CreateProject(_, _) => None
  }

  /** `main`: `existing` are the paths that exist in the working directory and `answer` is what
      the name prompt returns when it is asked (an empty name from the arguments counts as none). */
  method Run(args: seq<string>, existing: set<string>, answer: string) returns (outcome: CliOutcome)
    ensures outcome.CreateProject? ==> outcome.name !in existing
    ensures outcome.FolderExists? ==> outcome.name in existing
    ensures ArgsSpec(args) == ShowVersion <==> outcome == PrintVersion
    ensures ArgsSpec(args) == ShowHelp <==> outcome == PrintHelp
    ensures (outcome.CreateProject? || outcome.FolderExists?) ==>
      outcome.name == match LastPositional(args)
                      case Some(n) => if n == "" then answer else n
                      case None => answer
    ensures outcome.CreateProject? ==> outcome.all == ("--all" in args)
    ensures ExitStatus(outcome) == Some(0) <==> ArgsSpec(args).ShowVersion? || ArgsSpec(args).ShowHelp?
    ensures ExitStatus(outcome) == Some(1) <==> outcome.FolderExists?
  {
    var parsed := ParseArgs(args);
    if parsed.ShowVersion? {
      return PrintVersion;
    }
    if parsed.ShowHelp? {
      return PrintHelp;
    }
    var projectName := parsed.projectName;
    if projectName == None || projectName == Some("") {
      projectName := Some(answer);
    }
    if projectName.value in existing {
      return FolderExists(projectName.value);
    }
    return CreateProject(projectName.value, parsed.all);
  }
}
