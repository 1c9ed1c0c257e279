/**
 * The command line of convert2dsk: each argument, lower-cased, is either
 * one of the aliases of the three switches (verbose, version, help) or a
 * path, which is kept in its original spelling and order.
 */
module ProgramArguments {

  const VerboseAliases: set<string> := {"-v", "/v", "--verbose", "/verbose"}
  const VersionAliases: set<string> := {"--version", "/version"}
  const HelpAliases: set<string> := {"-?", "/?", "-h", "/h", "--help", "/help"}

  /** string.ToLower on the ASCII letters; every other character is kept. */
  function ToLowerChar(c: char): char {
    if 'A' <= c <= 'Z' then (c as int + 0x20) as char else c
  }

  function ToLower(s: string): string {
    seq(|s|, i requires 0 <= i < |s| => ToLowerChar(s[i]))
  }

  /** An argument that names none of the switches, in any letter case. */
  predicate IsPath(arg: string) {
    var a := ToLower(arg);
    a !in VerboseAliases && a !in VersionAliases && a !in HelpAliases
  }

  /** The state of a ProgramArgs object, as a value. */
  datatype Parsed = Parsed(verbose: bool, showVersion: bool, showHelp: bool, paths: seq<string>)

  /** What one pass of the loop body does to the state for one argument. */
  function Step(p: Parsed, arg: string): Parsed {
    var a := ToLower(arg);
    if a in VerboseAliases then p.(verbose := true)
    else if a in VersionAliases then p.(showVersion := true)
    else if a in HelpAliases then p.(showHelp := true)
    else p.(paths := p.paths + [arg])
  }

  /** The state after the loop has gone over args from a fresh object. */
  function Parse(args: seq<string>): Parsed
    decreases |args|
  {
    if args == [] then Parsed(false, false, false, [])
    else Step(Parse(args[..|args| - 1]), args[|args| - 1])
  }

  class ProgramArgs {
    var Verbose: bool
    var ShowVersion: bool
    var ShowHelp: bool
    var Paths: seq<string>

    constructor()
      ensures !Verbose && !ShowVersion && !ShowHelp && Paths == []
    {
      Verbose, ShowVersion, ShowHelp, Paths := false, false, false, [];
    }

    /** ParseArgs: a fresh object whose state is the one the arguments set, one by one. */
    static method ParseArgs(args: seq<string>) returns (result: ProgramArgs)
      ensures fresh(result)
      ensures result.Verbose == Parse(args).verbose && result.ShowVersion == Parse(args).showVersion
      ensures result.ShowHelp == Parse(args).showHelp && result.Paths == Parse(args).paths
    {
      result := new ProgramArgs();
      assert args[..0] == [];
      if |args| > 0 {
        for i := 0 to |args|
          invariant Parsed(result.Verbose, result.ShowVersion, result.ShowHelp, result.Paths) == Parse(args[..i])
        {
          assert args[..i + 1][..i] == args[..i];
          var lowered := ToLower(args[i]);
          if lowered in VerboseAliases {
            result.Verbose := true;
          } else if lowered in VersionAliases {
            result.ShowVersion := true;
          } else if lowered in HelpAliases {
            result.ShowHelp := true;
          } else {
            result.Paths := result.Paths + [args[i]];
          }
        }
      }
      assert args[..|args|] == args;
    }
  }

  // ---------------------------------------------------------------------------
  // What the state says about the arguments
  // ---------------------------------------------------------------------------

  /** The state of two runs of arguments one after the other: switches combined, paths concatenated. */
  function Join(p: Parsed, q: Parsed): Parsed {
    Parsed(p.verbose || q.verbose, p.showVersion || q.showVersion, p.showHelp || q.showHelp, p.paths + q.paths)
  }

  /** One more argument after two runs affects only the second run's state. */
  lemma StepJoin(p: Parsed, q: Parsed, arg: string)
    ensures Step(Join(p, q), arg) == Join(p, Step(q, arg))
  {
    assert p.paths + q.paths + [arg] == p.paths + (q.paths + [arg]);
  }

  lemma {:induction false} ParseConcat(a: seq<string>, b: seq<string>)
    ensures Parse(a + b) == Join(Parse(a), Parse(b))
    decreases |b|
  {
    if b == [] {
      assert a + b == a;
      assert Parse(a).paths + [] == Parse(a).paths;
    } else {
      var init, last := b[..|b| - 1], b[|b| - 1];
      assert (a + b)[..|a + b| - 1] == a + init && (a + b)[|a + b| - 1] == last;
      ParseConcat(a, init);
      StepJoin(Parse(a), Parse(init), last);
    }
  }

  /** Each switch is on exactly when some argument, lower-cased, is one of its aliases. */
  lemma {:induction false} ParseSwitches(args: seq<string>)
    ensures Parse(args).verbose <==> exists i :: 0 <= i < |args| && ToLower(args[i]) in VerboseAliases
    ensures Parse(args).showVersion <==> exists i :: 0 <= i < |args| && ToLower(args[i]) in VersionAliases
    ensures Parse(args).showHelp <==> exists i :: 0 <= i < |args| && ToLower(args[i]) in HelpAliases
    decreases |args|
  {
    if args != [] {
      var init := args[..|args| - 1];
      ParseSwitches(init);
      assert forall i :: 0 <= i < |init| ==> init[i] == args[i];
    }
  }

  /** The arguments that are paths, in order and as spelt. */
  function PathArgs(args: seq<string>): seq<string> {
    if args == [] then [] else (if IsPath(args[0]) then [args[0]] else []) + PathArgs(args[1..])
  }

  /** The arguments that are switches, in order. */
  function SwitchArgs(args: seq<string>): seq<string> {
    if args == [] then [] else (if IsPath(args[0]) then [] else [args[0]]) + SwitchArgs(args[1..])
  }

  /** The path arguments and the switch arguments together are all the arguments. */
  lemma {:induction false} PathsAndSwitches(args: seq<string>)
    ensures |PathArgs(args)| + |SwitchArgs(args)| == |args|
    ensures multiset(PathArgs(args)) + multiset(SwitchArgs(args)) == multiset(args)
    decreases |args|
  {
    if args != [] {
      PathsAndSwitches(args[1..]);
      assert [args[0]] + args[1..] == args;
    }
  }

  /** The paths are exactly the arguments that name no switch, in their original order and spelling. */
  lemma {:induction false} ParsePathArgs(args: seq<string>)
    ensures Parse(args).paths == PathArgs(args)
    decreases |args|
  {
    if args != [] {
      var head, rest := args[..1], args[1..];
      assert head + rest == args;
      ParseConcat(head, rest);
      assert head[..0] == [] && head[0] == args[0];
      assert Parse(head).paths == (if IsPath(args[0]) then [args[0]] else []);
      ParsePathArgs(rest);
    }
  }

  /** With the switches, the paths make up all the arguments: every argument is one or the other. */
  lemma ParsePaths(args: seq<string>)
    ensures Parse(args).paths == PathArgs(args)
    ensures |Parse(args).paths| + |SwitchArgs(args)| == |args|
    ensures multiset(Parse(args).paths) + multiset(SwitchArgs(args)) == multiset(args)
  {
    ParsePathArgs(args);
    PathsAndSwitches(args);
  }

  /**
   * The switches depend only on which arguments occur: repeating an
   * argument or reordering the arguments changes none of them.
   */
  lemma SwitchesIgnoreOrder(args: seq<string>, args': seq<string>)
    requires forall a :: a in args <==> a in args'
    ensures Parse(args).verbose == Parse(args').verbose
    ensures Parse(args).showVersion == Parse(args').showVersion
    ensures Parse(args).showHelp == Parse(args').showHelp
  {
    ParseSwitches(args);
    ParseSwitches(args');
    forall i | 0 <= i < |args|
      ensures exists j :: 0 <= j < |args'| && args'[j] == args[i]
    {
      assert args[i] in args';
    }
    forall j | 0 <= j < |args'|
      ensures exists i :: 0 <= i < |args| && args[i] == args'[j]
    {
      assert args'[j] in args;
    }
  }

  /** Upper and lower case spell the same switch: lower-casing an argument first changes nothing. */
  lemma StepIgnoresCase(p: Parsed, arg: string)
    ensures Step(p, ToLower(arg)).verbose == Step(p, arg).verbose
    ensures Step(p, ToLower(arg)).showVersion == Step(p, arg).showVersion
    ensures Step(p, ToLower(arg)).showHelp == Step(p, arg).showHelp
  {
    assert ToLower(ToLower(arg)) == ToLower(arg);
  }
}
