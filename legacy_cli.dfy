/** The older command-line parser (cli.go): the same design as the current
    one with fewer options (runtime and build arguments, help and version) and
    a stricter source-file pattern. */
module LegacyCli {
  import Wrappers
  import opened Text
  import opened Parsing

  /** `OptionType`: `None` is the zero value, returned only for a token that
      is not recognised. */
  datatype OptionType = None | Arg | BuildArg | Source | HelpFlag | VersionFlag

  /** The `CLI` struct: the program name and the parsed options. */
  datatype CLI = CLI(filename: string, options: map<OptionType, seq<string>>)

  /** A successful classification (nil error). */
  function Found(kind: OptionType, value: string, chomped: nat): Classification<OptionType> {
    Classification(kind, value, chomped, Wrappers.None)
  }

  /** Flags whose value is the following token (`^-(a|-arg)$`, `^-(b|-build-arg)$`). */
  const SeparateValueFlags: map<string, OptionType> := map[
    "-a" := Arg, "--arg" := Arg,
    "-b" := BuildArg, "--build-arg" := BuildArg]

  /** Prefixes of the `--name=value` forms (`^--arg=(.+)$`, `^--build-arg=(.+)$`). */
  const CombinedPrefixes: map<string, OptionType> := map[
    "--arg=" := Arg, "--build-arg=" := BuildArg]

  /** Flags that take no value (`^-(-help|h)$`, `^-(-version|v)$`). */
  const BooleanFlags: map<string, OptionType> := map[
    "-h" := HelpFlag, "--help" := HelpFlag,
    "-v" := VersionFlag, "--version" := VersionFlag]

  /** Reading of the source pattern `^[^-_].+\..+`: a first character other
      than `-` and `_` (a newline included), then at least one character and
      a dot, reached without crossing a newline, then one more character
      that is not a newline. */
  ghost predicate IsSourceToken(opt: string) {
    |opt| >= 1 && opt[0] != '-' && opt[0] != '_' && exists j: nat :: 2 <= j && DotTailAt(opt, 1, j)
  }

  ghost predicate IsCombinedForm(opt: string) {
    exists p :: p in CombinedPrefixes && HasValueAfter(opt, p)
  }

  /** The tokens the classifier accepts. */
  ghost predicate Recognized(opt: string) {
    opt in SeparateValueFlags || opt in BooleanFlags || IsCombinedForm(opt) || IsSourceToken(opt)
  }

  /** Hand-coded matcher for `^[^-_].+\..+`. */
  predicate MatchesSourcePattern(opt: string) {
    |opt| >= 2 && opt[0] != '-' && opt[0] != '_' && opt[1] != '\n' && DotTail(opt, 2)
  }

  /** The matcher accepts exactly the tokens of the reference reading. */
  lemma MatchesSourcePatternCorrect(opt: string)
    ensures MatchesSourcePattern(opt) <==> IsSourceToken(opt)
  {
    DotTailCorrect(opt, 2);
    if MatchesSourcePattern(opt) {
      var j: nat :| DotTailAt(opt, 2, j);
      assert opt[1..j] == [opt[1]] + opt[2..j];
      assert DotTailAt(opt, 1, j);
    }
    if IsSourceToken(opt) {
      var j: nat :| 2 <= j && DotTailAt(opt, 1, j);
      assert opt[1..j] == [opt[1]] + opt[2..j];
      assert opt[1] == opt[1..j][0];
      assert DotTailAt(opt, 2, j);
    }
  }

  /** `GetTypeForOpt`: the first pattern of the `switch` that matches decides.
      The value-flag and boolean-flag cases are looked up in their tables;
      no token is in both, and neither holds a token with `=`, so the order
      between the tables and the combined forms is the source's. */
  function GetTypeForOpt(opt: string, next: string): (r: Classification<OptionType>)
    ensures r.chomped <= 2
    ensures r.chomped == 0 <==> r.kind == None
    ensures r.chomped == 0 ==> r == Classification(None, "", 0, Wrappers.Some("Unknown option: " + opt))
    ensures r.chomped != 0 ==> r.err == Wrappers.None
  {
    if opt in SeparateValueFlags then Found(SeparateValueFlags[opt], next, 2)
    else if HasValueAfter(opt, "--arg=") then Found(Arg, opt[|"--arg="|..], 1)
    else if HasValueAfter(opt, "--build-arg=") then Found(BuildArg, opt[|"--build-arg="|..], 1)
    else if opt in BooleanFlags then Found(BooleanFlags[opt], "", 1)
    else if MatchesSourcePattern(opt) then Found(Source, opt, 1)
    else Classification(None, "", 0, Wrappers.Some("Unknown option: " + opt))
  }

  lemma SeparateValueFlagClassified(opt: string, next: string)
    requires opt in SeparateValueFlags
    ensures GetTypeForOpt(opt, next) == Found(SeparateValueFlags[opt], next, 2)
  {
  }

  /** No exact flag contains `=`, while every combined form does. */
  lemma ExactFlagsHaveNoEquals(opt: string)
    requires opt in SeparateValueFlags || opt in BooleanFlags
    ensures '=' !in opt && opt[0] == '-'
  {
  }

  /** Every combined prefix is `--`, a name and its only `=`. */
  lemma CombinedPrefixShape(p: string)
    requires p in CombinedPrefixes
    ensures IsNamePrefix(p)
  {
  }

  /** A token without `=` matches none of the `--name=(.+)$` patterns. */
  lemma NoCombinedMatch(opt: string)
    requires '=' !in opt
    ensures !IsCombinedForm(opt)
    ensures !HasValueAfter(opt, "--arg=") && !HasValueAfter(opt, "--build-arg=")
  {
    forall p | p in CombinedPrefixes
      ensures !HasValueAfter(opt, p)
    {
      CombinedPrefixShape(p);
      NoValueWithoutEquals(opt, p);
    }
    assert "--arg=" in CombinedPrefixes && "--build-arg=" in CombinedPrefixes;
  }

  /** No token is both a value flag and a boolean flag. */
  lemma FlagTablesDisjoint()
    ensures SeparateValueFlags.Keys !! BooleanFlags.Keys
  {
  }

  lemma BooleanFlagClassified(opt: string, next: string)
    requires opt in BooleanFlags
    ensures GetTypeForOpt(opt, next) == Found(BooleanFlags[opt], "", 1)
  {
    ExactFlagsHaveNoEquals(opt);
    NoCombinedMatch(opt);
    FlagTablesDisjoint();
  }

  /** A token containing `=` is in neither flag table. */
  lemma NotAnExactFlag(opt: string)
    requires '=' in opt
    ensures opt !in SeparateValueFlags && opt !in BooleanFlags
  {
    if opt in SeparateValueFlags || opt in BooleanFlags {
      ExactFlagsHaveNoEquals(opt);
    }
  }

  lemma CombinedFormClassified(p: string, v: string, next: string)
    requires p in CombinedPrefixes && v != [] && '\n' !in v
    ensures GetTypeForOpt(p + v, next) == Found(CombinedPrefixes[p], v, 1)
  {
    var opt := p + v;
    CombinedPrefixShape(p);
    assert opt[..|p|] == p && opt[|p|..] == v && opt[|p| - 1] == '=';
    NotAnExactFlag(opt);
    if p == "--build-arg=" {
      OtherNamePrefixNoMatch(p, "--arg=", v);
    }
  }

  /** A token not starting with `-` is no flag and no combined form. */
  lemma NotDashed(opt: string)
    requires |opt| >= 1 && opt[0] != '-'
    ensures opt !in SeparateValueFlags && opt !in BooleanFlags
    ensures !HasValueAfter(opt, "--arg=") && !HasValueAfter(opt, "--build-arg=")
  {
    if opt in SeparateValueFlags || opt in BooleanFlags {
      ExactFlagsHaveNoEquals(opt);
    }
  }

  lemma SourceTokenClassified(opt: string, next: string)
    requires IsSourceToken(opt)
    ensures GetTypeForOpt(opt, next) == Found(Source, opt, 1)
  {
    NotDashed(opt);
    MatchesSourcePatternCorrect(opt);
  }
  lemma UnrecognizedNotConsumed(opt: string, next: string)
    requires !Recognized(opt)
    ensures GetTypeForOpt(opt, next).chomped == 0
  {
    MatchesSourcePatternCorrect(opt);
    assert "--arg=" in CombinedPrefixes && "--build-arg=" in CombinedPrefixes;
  }

  lemma RecognizedConsumed(opt: string, next: string)
    requires Recognized(opt)
    ensures GetTypeForOpt(opt, next).chomped != 0
  {
    if opt in SeparateValueFlags {
      SeparateValueFlagClassified(opt, next);
    } else if opt in BooleanFlags {
      BooleanFlagClassified(opt, next);
    } else if IsCombinedForm(opt) {
      var p :| p in CombinedPrefixes && HasValueAfter(opt, p);
      assert opt == p + opt[|p|..];
      CombinedFormClassified(p, opt[|p|..], next);
    } else {
      SourceTokenClassified(opt, next);
    }
  }

  /** A token is consumed (chomp 1 or 2) exactly when one of the patterns
      recognises it; otherwise the result is `(None, "", 0, "Unknown option: " + opt)`. */
  lemma RecognizedIffConsumed(opt: string, next: string)
    ensures GetTypeForOpt(opt, next).chomped != 0 <==> Recognized(opt)
  {
    if Recognized(opt) {
      RecognizedConsumed(opt, next);
    } else {
      UnrecognizedNotConsumed(opt, next);
    }
  }

  /** Only the value of a separate-token flag depends on the lookahead. */
  lemma LookaheadOnlyFeedsValueFlags(opt: string, next1: string, next2: string)
    ensures GetTypeForOpt(opt, next1).kind == GetTypeForOpt(opt, next2).kind
    ensures GetTypeForOpt(opt, next1).chomped == GetTypeForOpt(opt, next2).chomped
    ensures GetTypeForOpt(opt, next1).chomped != 2 ==> GetTypeForOpt(opt, next1) == GetTypeForOpt(opt, next2)
  {
  }

  // ---------------------------------------------------------------------
  // ParseArgs

  /** Only the value of a separate-token flag depends on the lookahead, as
      the parser's append lemma needs. */
  lemma GetTypeForOptValueOnlyFromLookahead()
    ensures ValueOnlyFromLookahead(GetTypeForOpt)
  {
    forall opt, next1, next2 | GetTypeForOpt(opt, next1).chomped < 2
      ensures GetTypeForOpt(opt, next1) == GetTypeForOpt(opt, next2)
    {
      LookaheadOnlyFeedsValueFlags(opt, next1, next2);
    }
  }

  /** `ParseArgs` (cli.go:54-72): the shared recursion with `GetTypeForOpt`
      as the classifier. */
  function ParseArgs(args: seq<string>): (m: map<OptionType, seq<string>>)
    ensures None !in m
    ensures forall k :: k in m ==> m[k] != []
  {
    ParseWithOmits(GetTypeForOpt, args, None);
    ParseWith(GetTypeForOpt, args)
  }

  /** The stream of (kind, value) pairs the parser accepts, left to right. */
  function Steps(args: seq<string>): (s: seq<(OptionType, string)>)
    ensures forall i :: 0 <= i < |s| ==> s[i].0 != None
  {
    StepsWithOmit(GetTypeForOpt, args, None);
    StepsWith(GetTypeForOpt, args)
  }

  /** Every token of `args` is consumed: no unknown token and no value flag
      left without its value. */
  predicate ParsesCompletely(args: seq<string>) {
    ParsesCompletelyWith(GetTypeForOpt, args)
  }

  /** Order preservation: each kind's list is exactly the values of that kind
      in the accepted stream, in left-to-right order, whatever the other
      kinds in between; kinds that never occur are absent. */
  lemma ParseArgsGroupsSteps(args: seq<string>)
    ensures forall k :: Lookup(ParseArgs(args), k) == Select(Steps(args), k)
    ensures forall k :: k in ParseArgs(args) <==> Select(Steps(args), k) != []
  {
    ParseWithGroupsSteps(GetTypeForOpt, args);
  }

  /** Interleaving independence: when `a` parses completely, parsing `a + b`
      gives, for every kind, the values from `a` followed by those from `b`. */
  lemma ParseAppend(a: seq<string>, b: seq<string>)
    requires ParsesCompletely(a)
    ensures ParseArgs(a + b) == Merge(ParseArgs(a), ParseArgs(b))
  {
    GetTypeForOptValueOnlyFromLookahead();
    ParseWithAppend(GetTypeForOpt, a, b);
  }

  /** Parsing stops silently at an unrecognised token: the entries of the
      tokens before it are kept, that token and everything after it are dropped. */
  lemma StopsAtUnknownToken(done: seq<string>, bad: string, rest: seq<string>)
    requires ParsesCompletely(done) && !Recognized(bad)
    ensures ParseArgs(done + [bad] + rest) == ParseArgs(done)
  {
    GetTypeForOptValueOnlyFromLookahead();
    UnrecognizedNotConsumed(bad, Lookahead([bad] + rest));
    ParseWithStops(GetTypeForOpt, done, bad, rest);
  }

  /** A value flag given as the last token is dropped without an error. */
  lemma DropsTrailingValueFlag(done: seq<string>, flag: string)
    requires ParsesCompletely(done) && flag in SeparateValueFlags
    ensures ParseArgs(done + [flag]) == ParseArgs(done)
  {
    GetTypeForOptValueOnlyFromLookahead();
    SeparateValueFlagClassified(flag, "");
    ParseWithDropsTrailing(GetTypeForOpt, done, flag);
  }

  /** `ParseOsArgs`: the first element is the program name, kept unparsed;
      only the others are parsed. Go indexes `args[0]`, so it needs one. */
  function ParseOsArgs(args: seq<string>): (cli: CLI)
    requires |args| >= 1
    ensures cli.filename == args[0]
    ensures forall k :: Lookup(cli.options, k) == Select(Steps(args[1..]), k)
    ensures forall k :: k in cli.options <==> Select(Steps(args[1..]), k) != []
  {
    ParseArgsGroupsSteps(args[1..]);
    CLI(args[0], ParseArgs(args[1..]))
  }

  // ---------------------------------------------------------------------
  // Cases from the package's tests

  lemma UnknownOptionExample()
    ensures GetTypeForOpt("-bad", "Unknown option: -bad") == Classification(None, "", 0, Wrappers.Some("Unknown option: -bad"))
  {
    assert "Unknown option: " + "-bad" == "Unknown option: -bad";
  }

  /** A source file needs at least one character between the first one and
      the dot, so `a.b` is not one. */
  lemma SourceExamples()
    ensures GetTypeForOpt("foo.bar", "") == Found(Source, "foo.bar", 1)
    ensures GetTypeForOpt("a.b", "").chomped == 0
  {
    assert DotTailAt("foo.bar", 1, 3);
    SourceTokenClassified("foo.bar", "");
    NotDashed("a.b");
  }

  lemma ArgsExampleLast(t: seq<string>)
    requires t == ["--arg=foobar"]
    ensures Lookup(ParseArgs(t), Arg) == ["foobar"]
  {
    assert "--arg=foobar" == "--arg=" + "foobar";
    CombinedFormClassified("--arg=", "foobar", "");
    assert t[1..] == [] && Lookahead(t) == "";
    ParseWithStep(GetTypeForOpt, t, Found(Arg, "foobar", 1));
  }

  lemma ArgsExampleTail(t: seq<string>)
    requires t == ["--arg", "bar", "--arg=foobar"]
    ensures Lookup(ParseArgs(t), Arg) == ["bar", "foobar"]
  {
    ArgsExampleLast(t[2..]);
    SeparateValueFlagClassified("--arg", "bar");
    assert t[0] == "--arg" && Lookahead(t) == "bar";
    ParseWithStep(GetTypeForOpt, t, Found(Arg, "bar", 2));
  }

  lemma ArgsExampleOptions(args: seq<string>)
    requires args == ["-a", "foo", "--arg", "bar", "--arg=foobar"]
    ensures Lookup(ParseArgs(args), Arg) == ["foo", "bar", "foobar"]
  {
    ArgsExampleTail(args[2..]);
    SeparateValueFlagClassified("-a", "foo");
    assert args[0] == "-a" && Lookahead(args) == "foo";
    ParseWithStep(GetTypeForOpt, args, Found(Arg, "foo", 2));
  }

  /** The three spellings of a runtime argument keep their order. */
  lemma ArgsExample(osArgs: seq<string>)
    requires osArgs == ["filename", "-a", "foo", "--arg", "bar", "--arg=foobar"]
    ensures Lookup(ParseOsArgs(osArgs).options, Arg) == ["foo", "bar", "foobar"]
  {
    assert ParseOsArgs(osArgs).options == ParseArgs(osArgs[1..]);
    ArgsExampleOptions(osArgs[1..]);
  }
}
