/** The current command-line parser (cli/cli.go): a classifier that turns one
    token and a one-token lookahead into an option kind, a value and a token
    count, and a recursive parser that groups the values by kind. */
module Cli {
  import Wrappers
  import opened Text
  import opened Parsing

  /** `OptionType`: `None` is the zero value, returned only for a token that
      is not recognised. */
  datatype OptionType =
    | None | Arg | BuildArg | Source | Include | Image | TargetDir
    | UpdateFlag | HelpFlag | VersionFlag | Extension | CleanFlag

  /** The `CLI` struct: the program name and the parsed options. */
  datatype CLI = CLI(Filename: string, Options: map<OptionType, seq<string>>)

  /** A successful classification (nil error). */
  function Found(kind: OptionType, value: string, chomped: nat): Classification<OptionType> {
    Classification(kind, value, chomped, Wrappers.None)
  }

  /** Flags whose value is the following token (`^-(a|-arg)$`, ..., `^-C$`). */
  const SeparateValueFlags: map<string, OptionType> := map[
    "-a" := Arg, "--arg" := Arg,
    "-b" := BuildArg, "--build-arg" := BuildArg,
    "-i" := Include, "--include" := Include,
    "-m" := Image, "--image" := Image,
    "-e" := Extension, "--extension" := Extension,
    "-C" := TargetDir]

  /** Prefixes of the `--name=value` forms (`^--arg=(.+)$`, ...). */
  const CombinedPrefixes: map<string, OptionType> := map[
    "--arg=" := Arg, "--build-arg=" := BuildArg, "--include=" := Include,
    "--image=" := Image, "--extension=" := Extension]

  /** Flags that take no value (`^-(-update|u)$`, ..., `^--clean$`). */
  const BooleanFlags: map<string, OptionType> := map[
    "-u" := UpdateFlag, "--update" := UpdateFlag,
    "-h" := HelpFlag, "--help" := HelpFlag,
    "-v" := VersionFlag, "--version" := VersionFlag,
    "--clean" := CleanFlag]

  /** Reading of the source pattern `^[^-_].*\..+`: a first character other
      than `-` and `_` (a newline included), then a dot reached without
      crossing a newline, then one more character that is not a newline. */
  ghost predicate IsSourceToken(opt: string) {
    |opt| >= 1 && opt[0] != '-' && opt[0] != '_' && exists j: nat :: DotTailAt(opt, 1, j)
  }

  ghost predicate IsCombinedForm(opt: string) {
    exists p :: p in CombinedPrefixes && HasValueAfter(opt, p)
  }

  /** The tokens the classifier accepts. */
  ghost predicate Recognized(opt: string) {
    opt in SeparateValueFlags || opt in BooleanFlags || IsCombinedForm(opt) || IsSourceToken(opt)
  }

  /** Hand-coded matcher for `^[^-_].*\..+`. */
  predicate MatchesSourcePattern(opt: string) {
    |opt| >= 1 && opt[0] != '-' && opt[0] != '_' && DotTail(opt, 1)
  }

  /** The matcher accepts exactly the tokens of the reference reading. */
  lemma MatchesSourcePatternCorrect(opt: string)
    ensures MatchesSourcePattern(opt) <==> IsSourceToken(opt)
  {
    DotTailCorrect(opt, 1);
  }

  /** `ArgToOption`: the first pattern of the `switch` that matches decides.
      The six exact value flags and the four exact boolean flags are each
      looked up in their table; being distinct strings, their order within a
      table does not matter. */
  function ArgToOption(opt: string, next: string): (r: Classification<OptionType>)
    ensures r.chomped <= 2
    ensures r.chomped == 0 <==> r.kind == None
    ensures r.chomped == 0 ==> r == Classification(None, "", 0, Wrappers.Some("Unknown option: " + opt))
    ensures r.chomped != 0 ==> r.err == Wrappers.None
  {
    if opt in SeparateValueFlags then Found(SeparateValueFlags[opt], next, 2)
    else if HasValueAfter(opt, "--arg=") then Found(Arg, opt[|"--arg="|..], 1)
    else if HasValueAfter(opt, "--build-arg=") then Found(BuildArg, opt[|"--build-arg="|..], 1)
    else if HasValueAfter(opt, "--include=") then Found(Include, opt[|"--include="|..], 1)
    else if HasValueAfter(opt, "--image=") then Found(Image, opt[|"--image="|..], 1)
    else if HasValueAfter(opt, "--extension=") then Found(Extension, opt[|"--extension="|..], 1)
    else if opt in BooleanFlags then Found(BooleanFlags[opt], "", 1)
    else if MatchesSourcePattern(opt) then Found(Source, opt, 1)
    else Classification(None, "", 0, Wrappers.Some("Unknown option: " + opt))
  }

  lemma SeparateValueFlagClassified(opt: string, next: string)
    requires opt in SeparateValueFlags
    ensures ArgToOption(opt, next) == Found(SeparateValueFlags[opt], next, 2)
  {
  }

  /** No exact flag contains `=`, while every combined form does. */
  lemma ExactFlagsHaveNoEquals(opt: string)
    requires opt in SeparateValueFlags || opt in BooleanFlags
    ensures '=' !in opt && opt[0] == '-'
  {
  }

  /** Every combined prefix is `--`, a name and its only `=`. */
  lemma CombinedPrefixShape(p: string)
    requires p in CombinedPrefixes
    ensures IsNamePrefix(p)
  {
  }

  /** A token without `=` matches none of the `--name=(.+)$` patterns. */
  lemma NoCombinedMatch(opt: string)
    requires '=' !in opt
    ensures !IsCombinedForm(opt)
    ensures !HasValueAfter(opt, "--arg=") && !HasValueAfter(opt, "--build-arg=")
    ensures !HasValueAfter(opt, "--include=") && !HasValueAfter(opt, "--image=")
    ensures !HasValueAfter(opt, "--extension=")
  {
    forall p | p in CombinedPrefixes
      ensures !HasValueAfter(opt, p)
    {
      CombinedPrefixShape(p);
      NoValueWithoutEquals(opt, p);
    }
    assert "--arg=" in CombinedPrefixes && "--build-arg=" in CombinedPrefixes;
    assert "--include=" in CombinedPrefixes && "--image=" in CombinedPrefixes;
    assert "--extension=" in CombinedPrefixes;
  }

  /** No token is both a value flag and a boolean flag. */
  lemma FlagTablesDisjoint()
    ensures SeparateValueFlags.Keys !! BooleanFlags.Keys
  {
  }

  lemma BooleanFlagClassified(opt: string, next: string)
    requires opt in BooleanFlags
    ensures ArgToOption(opt, next) == Found(BooleanFlags[opt], "", 1)
  {
    ExactFlagsHaveNoEquals(opt);
    NoCombinedMatch(opt);
    FlagTablesDisjoint();
  }

  /** A token containing `=` is in neither flag table. */
  lemma NotAnExactFlag(opt: string)
    requires '=' in opt
    ensures opt !in SeparateValueFlags && opt !in BooleanFlags
  {
    if opt in SeparateValueFlags || opt in BooleanFlags {
      ExactFlagsHaveNoEquals(opt);
    }
  }

  /** The classification of a token that only its own `--name=` pattern matches. */
  lemma OwnCombinedFormClassified(opt: string, p: string, next: string)
    requires p in CombinedPrefixes && HasValueAfter(opt, p)
    requires opt !in SeparateValueFlags && opt !in BooleanFlags
    requires forall q :: q in CombinedPrefixes && q != p ==> !HasValueAfter(opt, q)
    ensures ArgToOption(opt, next) == Found(CombinedPrefixes[p], opt[|p|..], 1)
  {
    assert "--arg=" in CombinedPrefixes && "--build-arg=" in CombinedPrefixes;
    assert "--include=" in CombinedPrefixes && "--image=" in CombinedPrefixes;
    if p == "--arg=" {
    } else if p == "--build-arg=" {
    } else if p == "--include=" {
    } else if p == "--image=" {
    } else {
      assert p == "--extension=";
    }
  }

  lemma CombinedFormClassified(p: string, v: string, next: string)
    requires p in CombinedPrefixes && v != [] && '\n' !in v
    ensures ArgToOption(p + v, next) == Found(CombinedPrefixes[p], v, 1)
  {
    var opt := p + v;
    CombinedPrefixShape(p);
    assert opt[..|p|] == p && opt[|p|..] == v && opt[|p| - 1] == '=';
    NotAnExactFlag(opt);
    forall q | q in CombinedPrefixes && q != p
      ensures !HasValueAfter(opt, q)
    {
      CombinedPrefixShape(q);
      OtherNamePrefixNoMatch(p, q, v);
    }
    OwnCombinedFormClassified(opt, p, next);
  }

  /** A token not starting with `-` is no flag and no combined form. */
  lemma NotDashed(opt: string)
    requires |opt| >= 1 && opt[0] != '-'
    ensures opt !in SeparateValueFlags && opt !in BooleanFlags
    ensures !HasValueAfter(opt, "--arg=") && !HasValueAfter(opt, "--build-arg=")
    ensures !HasValueAfter(opt, "--include=") && !HasValueAfter(opt, "--image=")
    ensures !HasValueAfter(opt, "--extension=")
  {
    if opt in SeparateValueFlags || opt in BooleanFlags {
      ExactFlagsHaveNoEquals(opt);
    }
  }

  lemma SourceTokenClassified(opt: string, next: string)
    requires IsSourceToken(opt)
    ensures ArgToOption(opt, next) == Found(Source, opt, 1)
  {
    NotDashed(opt);
    MatchesSourcePatternCorrect(opt);
  }

  lemma UnrecognizedNotConsumed(opt: string, next: string)
    requires !Recognized(opt)
    ensures ArgToOption(opt, next).chomped == 0
  {
    MatchesSourcePatternCorrect(opt);
    assert "--arg=" in CombinedPrefixes && "--build-arg=" in CombinedPrefixes;
    assert "--include=" in CombinedPrefixes && "--image=" in CombinedPrefixes;
    assert "--extension=" in CombinedPrefixes;
  }

  lemma RecognizedConsumed(opt: string, next: string)
    requires Recognized(opt)
    ensures ArgToOption(opt, next).chomped != 0
  {
    if opt in SeparateValueFlags {
      SeparateValueFlagClassified(opt, next);
    } else if opt in BooleanFlags {
      BooleanFlagClassified(opt, next);
    } else if IsCombinedForm(opt) {
      var p :| p in CombinedPrefixes && HasValueAfter(opt, p);
      assert opt == p + opt[|p|..];
      CombinedFormClassified(p, opt[|p|..], next);
    } else {
      SourceTokenClassified(opt, next);
    }
  }

  /** A token is consumed (chomp 1 or 2) exactly when one of the patterns
      recognises it; otherwise the result is `(None, "", 0, "Unknown option: " + opt)`. */
  lemma RecognizedIffConsumed(opt: string, next: string)
    ensures ArgToOption(opt, next).chomped != 0 <==> Recognized(opt)
  {
    if Recognized(opt) {
      RecognizedConsumed(opt, next);
    } else {
      UnrecognizedNotConsumed(opt, next);
    }
  }

  /** Only the value of a separate-token flag depends on the lookahead. */
  lemma LookaheadOnlyFeedsValueFlags(opt: string, next1: string, next2: string)
    ensures ArgToOption(opt, next1).kind == ArgToOption(opt, next2).kind
    ensures ArgToOption(opt, next1).chomped == ArgToOption(opt, next2).chomped
    ensures ArgToOption(opt, next1).chomped != 2 ==> ArgToOption(opt, next1) == ArgToOption(opt, next2)
  {
  }

  // ---------------------------------------------------------------------
  // ParseArgs

  /** Only the value of a separate-token flag depends on the lookahead, as
      the parser's append lemma needs. */
  lemma ArgToOptionValueOnlyFromLookahead()
    ensures ValueOnlyFromLookahead(ArgToOption)
  {
    forall opt, next1, next2 | ArgToOption(opt, next1).chomped < 2
      ensures ArgToOption(opt, next1) == ArgToOption(opt, next2)
    {
      LookaheadOnlyFeedsValueFlags(opt, next1, next2);
    }
  }

  /** `ParseArgs` (cli/cli.go:126-145): the shared recursion with
      `ArgToOption` as the classifier. */
  function ParseArgs(args: seq<string>): (m: map<OptionType, seq<string>>)
    ensures None !in m
    ensures forall k :: k in m ==> m[k] != []
  {
    ParseWithOmits(ArgToOption, args, None);
    ParseWith(ArgToOption, args)
  }

  /** The stream of (kind, value) pairs the parser accepts, left to right. */
  function Steps(args: seq<string>): (s: seq<(OptionType, string)>)
    ensures forall i :: 0 <= i < |s| ==> s[i].0 != None
  {
    StepsWithOmit(ArgToOption, args, None);
    StepsWith(ArgToOption, args)
  }

  /** Every token of `args` is consumed: no unknown token and no value flag
      left without its value. */
  predicate ParsesCompletely(args: seq<string>) {
    ParsesCompletelyWith(ArgToOption, args)
  }

  /** Order preservation: each kind's list is exactly the values of that kind
      in the accepted stream, in left-to-right order, whatever the other
      kinds in between; kinds that never occur are absent. */
  lemma ParseArgsGroupsSteps(args: seq<string>)
    ensures forall k :: Lookup(ParseArgs(args), k) == Select(Steps(args), k)
    ensures forall k :: k in ParseArgs(args) <==> Select(Steps(args), k) != []
  {
    ParseWithGroupsSteps(ArgToOption, args);
  }

  /** Only the order within each kind matters: inputs whose accepted streams
      agree kind by kind parse to the same options. */
  lemma SameSelectionsSameParse(a: seq<string>, b: seq<string>)
    requires forall k :: Select(Steps(a), k) == Select(Steps(b), k)
    ensures ParseArgs(a) == ParseArgs(b)
  {
    assert Steps(a) == StepsWith(ArgToOption, a) && Steps(b) == StepsWith(ArgToOption, b);
    ParseWithSameSelections(ArgToOption, a, b);
  }

  /** Interleaving independence: when `a` parses completely, parsing `a + b`
      gives, for every kind, the values from `a` followed by those from `b`. */
  lemma ParseAppend(a: seq<string>, b: seq<string>)
    requires ParsesCompletely(a)
    ensures ParseArgs(a + b) == Merge(ParseArgs(a), ParseArgs(b))
  {
    ArgToOptionValueOnlyFromLookahead();
    ParseWithAppend(ArgToOption, a, b);
  }

  /** Parsing stops silently at an unrecognised token: the entries of the
      tokens before it are kept, that token and everything after it are dropped. */
  lemma StopsAtUnknownToken(done: seq<string>, bad: string, rest: seq<string>)
    requires ParsesCompletely(done) && !Recognized(bad)
    ensures ParseArgs(done + [bad] + rest) == ParseArgs(done)
  {
    ArgToOptionValueOnlyFromLookahead();
    UnrecognizedNotConsumed(bad, Lookahead([bad] + rest));
    ParseWithStops(ArgToOption, done, bad, rest);
  }

  /** A value flag given as the last token is dropped without an error. */
  lemma DropsTrailingValueFlag(done: seq<string>, flag: string)
    requires ParsesCompletely(done) && flag in SeparateValueFlags
    ensures ParseArgs(done + [flag]) == ParseArgs(done)
  {
    ArgToOptionValueOnlyFromLookahead();
    SeparateValueFlagClassified(flag, "");
    ParseWithDropsTrailing(ArgToOption, done, flag);
  }

  /** `ParseOsArgs`: the first element is the program name, kept unparsed;
      only the others are parsed. Go indexes `args[0]`, so it needs one. */
  function ParseOsArgs(args: seq<string>): (cli: CLI)
    requires |args| >= 1
    ensures cli.Filename == args[0]
    ensures forall k :: Lookup(cli.Options, k) == Select(Steps(args[1..]), k)
    ensures forall k :: k in cli.Options <==> Select(Steps(args[1..]), k) != []
  {
    ParseArgsGroupsSteps(args[1..]);
    CLI(args[0], ParseArgs(args[1..]))
  }

  // ---------------------------------------------------------------------
  // Cases from the package's tests

  lemma UnknownOptionExample()
    ensures ArgToOption("-bad", "Unknown option: -bad") == Classification(None, "", 0, Wrappers.Some("Unknown option: -bad"))
  {
    assert "Unknown option: " + "-bad" == "Unknown option: -bad";
  }

  /** Any first character, one dot and one character after it make a source
      file, so `a.b` is one. */
  lemma SourceExamples()
    ensures ArgToOption("foo.bar", "") == Found(Source, "foo.bar", 1)
    ensures ArgToOption("a.b", "") == Found(Source, "a.b", 1)
  {
    assert DotTailAt("foo.bar", 1, 3);
    SourceTokenClassified("foo.bar", "");
    assert DotTailAt("a.b", 1, 1);
    SourceTokenClassified("a.b", "");
  }

  lemma ArgsExampleLast(t: seq<string>)
    requires t == ["--arg=foobar"]
    ensures Lookup(ParseArgs(t), Arg) == ["foobar"]
  {
    assert "--arg=foobar" == "--arg=" + "foobar";
    CombinedFormClassified("--arg=", "foobar", "");
    assert t[1..] == [] && Lookahead(t) == "";
    ParseWithStep(ArgToOption, t, Found(Arg, "foobar", 1));
  }

  lemma ArgsExampleTail(t: seq<string>)
    requires t == ["--arg", "bar", "--arg=foobar"]
    ensures Lookup(ParseArgs(t), Arg) == ["bar", "foobar"]
  {
    ArgsExampleLast(t[2..]);
    SeparateValueFlagClassified("--arg", "bar");
    assert t[0] == "--arg" && Lookahead(t) == "bar";
    ParseWithStep(ArgToOption, t, Found(Arg, "bar", 2));
  }

  lemma ArgsExampleOptions(args: seq<string>)
    requires args == ["-a", "foo", "--arg", "bar", "--arg=foobar"]
    ensures Lookup(ParseArgs(args), Arg) == ["foo", "bar", "foobar"]
  {
    ArgsExampleTail(args[2..]);
    SeparateValueFlagClassified("-a", "foo");
    assert args[0] == "-a" && Lookahead(args) == "foo";
    ParseWithStep(ArgToOption, args, Found(Arg, "foo", 2));
  }

  /** The three spellings of a runtime argument keep their order. */
  lemma ArgsExample(osArgs: seq<string>)
    requires osArgs == ["filename", "-a", "foo", "--arg", "bar", "--arg=foobar"]
    ensures Lookup(ParseOsArgs(osArgs).Options, Arg) == ["foo", "bar", "foobar"]
  {
    assert ParseOsArgs(osArgs).Options == ParseArgs(osArgs[1..]);
    ArgsExampleOptions(osArgs[1..]);
  }
}
