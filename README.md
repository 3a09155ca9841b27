# dexec, modelled in Dafny

`dexec` runs a source file inside a Docker container picked from the file's
extension. This project models the parts of it that make decisions on text:

- the command-line classifier and the recursive argument parser. The current
  version lives in `cli/cli.go`. The older, smaller version in `cli.go`
  knows fewer options and has a stricter source-file pattern;
- the list and file-name helpers of `util/util.go`;
- the parsing of the `docker -v` banner in `docker.go` and `dexec.go`, plus
  the extension helper of `dexec.go`.

Every regular expression is written out by hand as a predicate or a
scanner. Each follows Go's RE2 rules: `.` does not match a newline, a
negated class such as `[^-_]` does, `$` anchors only at the end of the
text, `\d` is an ASCII digit, and matching is leftmost-first with greedy
repetition. Each scanner is proved equal to an index-based reading of its
pattern. For the two unanchored patterns, `.*\.(.*)` and `.*\.(.*):.*`, that
equality is proved for text of one line. Across lines, the definition itself
says that the first line holding a match decides, which is Go's
leftmost-first rule.

Modules:

- `Wrappers`: the `Option` type. A Go panic is modelled as `None`.
- `Text`: character classes, pattern pieces, last-index search, the
  line-aware `.*\.(.*)` match, and decimal conversion.
- `Parsing`: the pieces both parsers share. These are the classification
  record, the lookahead, a functional "prepend to the list under a key"
  update, per-key merge of two maps, and selection of one kind's values from
  a stream of accepted (kind, value) steps. It also holds `ParseWith`, the
  recursion of both `ParseArgs` functions, which takes the classifier as a
  parameter, together with its order and append lemmas. The two Go
  `ParseArgs` functions differ only in the classifier they call.
- `Cli` models `cli/cli.go`; `LegacyCli` models `cli.go`.
- `Compat` relates the two parser versions.
- `Util` models `util/util.go`. `AddPrefix` and `JoinStringSlices` are
  methods with loops, as in Go.
- `VersionLine` is the banner pattern shared by `docker.go` and `dexec.go`.
- `Docker` models `docker.go`; `Dexec` models `dexec.go`.

The parse result is `map<OptionType, seq<string>>`. A missing key reads as
the empty list, as a Go nil slice does. Order preservation is stated by
relating `ParseArgs` to `Steps`, the stream of accepted (kind, value) pairs:
for every kind, the list under that kind is that kind's values in the order
the tokens came. `ParseAppend` gives the same result compositionally: parsing
a fully accepted prefix followed by anything merges the two parses kind by
kind.

The classifiers keep the source's order of patterns. The exact flags that
take the next token, and the exact flags that take no value, are looked up
in two tables (`SeparateValueFlags`, `BooleanFlags`) rather than matched one
`case` at a time. The two tables are proved disjoint, and neither holds a token
with `=`. So moving the boolean flags ahead of the `--name=V` forms or behind
them changes no answer.

## Model

| member | source | states |
|---|---|---|
| Cli.ArgToOption | cli/cli.go:67-121 | chomp is at most 2. Chomp 0 happens exactly for kind `None`, and then the result is `(None, "", 0)` with the error "Unknown option: " + opt. Every accepted token carries a nil error. |
| Cli.SeparateValueFlagClassified | cli/cli.go:86-97 | `-a`/`--arg`, `-b`/`--build-arg`, `-i`/`--include`, `-m`/`--image`, `-e`/`--extension` and `-C` give their kind, the next token verbatim and chomp 2 |
| Cli.ExactFlagsHaveNoEquals | cli/cli.go:68-73 | the exact flags contain no `=` and start with `-` |
| Cli.CombinedPrefixShape | cli/cli.go:74-78 | each `--name=` prefix starts with `--` and ends with its only `=` |
| Cli.NoCombinedMatch | cli/cli.go:74-78 | a token without `=` is no combined form: it matches none of the five `--name=(.+)$` patterns |
| Cli.FlagTablesDisjoint | cli/cli.go:68-73 | no token is both a value-taking flag and a boolean flag |
| Cli.NotAnExactFlag | cli/cli.go:68-73 | a token holding `=` is neither a value-taking nor a boolean flag |
| Cli.NotDashed | cli/cli.go:68-78 | a token that does not start with `-` fits no flag pattern and no `--name=` pattern |
| Cli.BooleanFlagClassified | cli/cli.go:108-115 | `-u`/`--update`, `-h`/`--help`, `-v`/`--version` and `--clean` give their kind, value "" and chomp 1, whatever the next token is |
| Cli.CombinedFormClassified | cli/cli.go:98-107 | `--arg=V`, `--build-arg=V`, `--include=V`, `--image=V` and `--extension=V` with non-empty, newline-free V give their kind, V and chomp 1 |
| Cli.OwnCombinedFormClassified | cli/cli.go:98-107 | a token outside both flag tables that matches only its own `--name=` pattern gets that pattern's kind, the text after the prefix and chomp 1 |
| Cli.SourceTokenClassified | cli/cli.go:116-117 | a token whose first character is not `-` or `_`, with a dot reached from the second character without crossing a newline and followed by one more non-newline character, is `Source` with itself as value and chomp 1 |
| Cli.UnrecognizedNotConsumed | cli/cli.go:118-119 | a token that fits no pattern is not consumed |
| Cli.RecognizedConsumed | cli/cli.go:85-117 | a token that fits some pattern is consumed |
| Cli.RecognizedIffConsumed | cli/cli.go:85-120 | a token is consumed if and only if it fits one of the patterns |
| Cli.LookaheadOnlyFeedsValueFlags | cli/cli.go:85-120 | the next token never changes the kind or the chomp. It changes the value only for chomp-2 flags. |
| Cli.ArgToOptionValueOnlyFromLookahead | cli/cli.go:131-140 | whenever a token does not consume the next one, the next token does not change its classification |
| Cli.ParseArgs | cli/cli.go:126-145 | the parse never holds a `None` key or an empty list |
| Cli.Steps | cli/cli.go:136-142 | the accepted stream never contains kind `None` |
| Cli.ParseArgsGroupsSteps | cli/cli.go:142-143 | for every kind, the parsed list is that kind's values in token order. A kind is a key exactly when it has a value. |
| Cli.ParseAppend | cli/cli.go:142-144 | parsing a fully accepted prefix followed by any rest gives the per-kind merge of the two parses |
| Cli.SameSelectionsSameParse | cli/cli.go:142-143 | two inputs whose accepted streams hold the same values of every kind, in the same order, parse to the same options, however the kinds are interleaved |
| Cli.StopsAtUnknownToken | cli/cli.go:138-140 | an unrecognized token after a fully accepted prefix drops itself and everything after it, and keeps the prefix's entries |
| Cli.DropsTrailingValueFlag | cli/cli.go:138-140 | a value-taking flag as the last token is dropped silently |
| Cli.ParseOsArgs | cli/cli.go:150-155 | `Filename` is `args[0]`, and the options group the accepted stream of `args[1..]` per kind, with a kind a key exactly when it has values |
| Cli.UnknownOptionExample | cli/cli_test.go:20-42 | `-bad` gives `(None, "", 0)` and "Unknown option: -bad" |
| Cli.SourceExamples | cli/cli.go:79 | `foo.bar` (the case of `cli/cli_test.go`) and `a.b` are sources, since `.*` before the dot may be empty |
| Cli.ArgsExample | cli/cli_test.go:233-249 | `-a foo --arg bar --arg=foobar` collects `foo`, `bar`, `foobar` under `Arg`, in order |
| Cli.ArgsExampleLast | cli/cli_test.go:233-249 | `--arg=foobar` alone collects `foobar` under `Arg` |
| Cli.ArgsExampleTail | cli/cli_test.go:233-249 | `--arg bar --arg=foobar` collects `bar`, `foobar` under `Arg` |
| Cli.ArgsExampleOptions | cli/cli_test.go:233-249 | `-a foo --arg bar --arg=foobar` parses to `foo`, `bar`, `foobar` under `Arg` |
| Cli.MatchesSourcePatternCorrect | cli/cli.go:79 | the scanner for `^[^-_].*\..+`, with RE2's newline rules, accepts exactly the tokens of the index-based reading `IsSourceToken` |
| LegacyCli.MatchesSourcePatternCorrect | cli.go:30 | the scanner for `^[^-_].+\..+` accepts exactly the tokens with at least one character between the first character and the dot |
| LegacyCli.GetTypeForOpt | cli.go:25-52 | the same four facts as `Cli.ArgToOption`, for the older classifier |
| LegacyCli.SeparateValueFlagClassified | cli.go:35-38 | `-a`/`--arg` and `-b`/`--build-arg` give their kind, the next token and chomp 2 |
| LegacyCli.ExactFlagsHaveNoEquals | cli.go:26-27 | the exact flags contain no `=` and start with `-` |
| LegacyCli.CombinedPrefixShape | cli.go:28-29 | each `--name=` prefix starts with `--` and ends with its only `=` |
| LegacyCli.NoCombinedMatch | cli.go:28-29 | a token without `=` is no combined form: it matches neither `--name=(.+)$` pattern |
| LegacyCli.FlagTablesDisjoint | cli.go:26-32 | no token is both a value-taking flag and a boolean flag |
| LegacyCli.NotAnExactFlag | cli.go:26-32 | a token holding `=` is neither a value-taking nor a boolean flag |
| LegacyCli.NotDashed | cli.go:26-29 | a token that does not start with `-` fits no flag pattern and no `--name=` pattern |
| LegacyCli.BooleanFlagClassified | cli.go:43-46 | `-h`/`--help` and `-v`/`--version` give their kind, value "" and chomp 1 |
| LegacyCli.CombinedFormClassified | cli.go:39-42 | `--arg=V` and `--build-arg=V` with non-empty, newline-free V give their kind, V and chomp 1 |
| LegacyCli.SourceTokenClassified | cli.go:47-48 | a token that fits the stricter source pattern is `Source` with itself as value |
| LegacyCli.UnrecognizedNotConsumed | cli.go:49-50 | a token that fits no pattern is not consumed |
| LegacyCli.RecognizedConsumed | cli.go:34-48 | a token that fits some pattern is consumed |
| LegacyCli.RecognizedIffConsumed | cli.go:34-51 | a token is consumed if and only if it fits one of the patterns |
| LegacyCli.LookaheadOnlyFeedsValueFlags | cli.go:34-51 | the next token affects only the value of chomp-2 flags |
| LegacyCli.GetTypeForOptValueOnlyFromLookahead | cli.go:59-67 | whenever a token does not consume the next one, the next token does not change its classification |
| LegacyCli.ParseArgs | cli.go:54-72 | the parse never holds a `None` key or an empty list |
| LegacyCli.Steps | cli.go:63-69 | the accepted stream never contains kind `None` |
| LegacyCli.ParseArgsGroupsSteps | cli.go:69-71 | for every kind, the parsed list is that kind's values in token order. A kind is a key exactly when it has a value. |
| LegacyCli.ParseAppend | cli.go:69-71 | parsing a fully accepted prefix and a rest is the per-kind merge of the two parses |
| LegacyCli.StopsAtUnknownToken | cli.go:65-67 | an unrecognized token ends the parse, keeping the earlier entries |
| LegacyCli.DropsTrailingValueFlag | cli.go:65-67 | a value-taking flag as the last token is dropped silently |
| LegacyCli.ParseOsArgs | cli.go:74-79 | `filename` is `args[0]`, and the options group the accepted stream of `args[1..]` per kind, with a kind a key exactly when it has values |
| LegacyCli.UnknownOptionExample | cli_test.go:20-42 | `-bad` gives `(None, "", 0)` and "Unknown option: -bad" |
| LegacyCli.SourceExamples | cli.go:30 | `foo.bar` is a source, and `a.b` is not (unlike in the newer parser) |
| LegacyCli.ArgsExample | cli_test.go:215-231 | `-a foo --arg bar --arg=foobar` collects `foo`, `bar`, `foobar` under `Arg`, in order |
| LegacyCli.ArgsExampleLast | cli_test.go:215-231 | `--arg=foobar` alone collects `foobar` under `Arg` |
| LegacyCli.ArgsExampleTail | cli_test.go:215-231 | `--arg bar --arg=foobar` collects `bar`, `foobar` under `Arg` |
| LegacyCli.ArgsExampleOptions | cli_test.go:215-231 | `-a foo --arg bar --arg=foobar` parses to `foo`, `bar`, `foobar` under `Arg` |
| Compat.SeparateFlagsAgree | cli.go:35-38 | the older value flags mean the same to the newer classifier |
| Compat.BooleanFlagsAgree | cli.go:43-46 | the older boolean flags mean the same to the newer classifier |
| Compat.CombinedFormsAgree | cli.go:39-42 | the older `--name=V` forms mean the same to the newer classifier |
| Compat.SourcesAgree | cli.go:47-48 | every older source token is a source to the newer classifier |
| Compat.LegacyTokensKeepTheirMeaning | cli/cli.go:85-120 | every token the older classifier accepts gets the same kind, value and chomp from the newer one |
| Compat.NewerOptionsUnknownToLegacy | cli/cli.go:68-83 | flags added later (`-i`, `-m`, `-e`, `-C`, `-u`, `--clean`, ...) are unknown to the older classifier and known to the newer one |
| Parsing.Prepend | cli/cli.go:143 | the key gains the value at the front of its list, and every other key is unchanged |
| Parsing.Merge | cli/cli.go:142-143 | each key's list is the first map's list followed by the second's |
| Parsing.Select | cli/cli.go:142-143 | one kind's values are a sub-stream, so never longer than the stream |
| Parsing.SelectAppend | cli/cli.go:142-143 | selecting from a concatenated stream concatenates the selections |
| Parsing.EmptyMerge | cli/cli.go:127-129 | merging the empty parse in front changes nothing |
| Parsing.MergeEmpty | cli/cli.go:138-140 | merging the empty parse behind changes nothing |
| Parsing.PrependMerge | cli/cli.go:142-143 | prepending to a merge is prepending to its first part |
| Parsing.SameLookupSameMap | cli/cli.go:142-143 | two parses without empty lists that agree on every kind are equal |
| Parsing.ParseWith | cli/cli.go:126-145 | the parse never holds an empty list |
| Parsing.StepsWith | cli/cli.go:136-142 | the accepted stream has at most one step per token |
| Parsing.ParseWithOmits | cli/cli.go:136-143 | a kind that no consuming classification gives never becomes a key |
| Parsing.StepsWithOmit | cli/cli.go:136-143 | a kind that no consuming classification gives never appears in the accepted stream |
| Parsing.ParseWithGroupsSteps | cli/cli.go:142-143 | for every kind, the parsed list is that kind's values in the accepted stream, in order. A kind is a key exactly when it has a value. |
| Parsing.FirstStepOfAppend | cli/cli.go:131-140 | when `a` is fully accepted and the lookahead feeds only chomp-2 values, parsing `a + b` takes `a`'s first step and continues on the rest of `a` followed by `b`, which is again fully accepted |
| Parsing.ParseWithAppend | cli/cli.go:142-144 | parsing a fully accepted prefix followed by any rest gives the per-kind merge of the two parses |
| Parsing.ParseWithSameSelections | cli/cli.go:142-143 | the parse depends only on each kind's values in stream order, not on how the kinds are interleaved |
| Parsing.ParseWithStops | cli/cli.go:138-140 | a token that consumes nothing, after a fully accepted prefix, drops itself and all that follows, and keeps the prefix's entries |
| Parsing.ParseWithDropsTrailing | cli/cli.go:138-140 | a token that needs the next one, given last, is dropped silently |
| Text.DotTailCorrect | cli/cli.go:79 | the `.*\..+` scanner accepts exactly when some dot, reached without crossing a newline, is followed by a non-newline character |
| Text.NamePrefixesPrefixFree | cli/cli.go:74-78 | no prefix of the form `--name=` is a proper prefix of another |
| Text.NoValueWithoutEquals | cli/cli.go:74-78 | a token without `=` matches no `^--name=(.+)$` pattern |
| Text.OtherNamePrefixNoMatch | cli/cli.go:98-107 | `--name=V` with non-empty V matches no `^--name=(.+)$` pattern of another name, so at most one combined case can fire |
| Text.LastIndex | util/util.go:34-35 | the position found holds the character, and none follows it |
| Text.LastIndexAt | util/util.go:29-33 | a position holding the character with none after it is the one found |
| Text.AfterLastDot | dexec.go:76-77 | the text after the last dot ends the string, follows a dot and holds no dot |
| Text.LineEnd | util/util.go:34-35 | the first line contains no newline and ends at a newline or at the end of the text |
| Text.DotSuffixMatch | dexec.go:76-77 | `.*\.(.*)` matches if and only if there is a dot, and its group holds no dot and no newline |
| Text.DotSuffixMatchOneLine | dexec.go:76-77 | on one line the group is the text after the last dot |
| Text.DotSuffixMatchFirstLine | dexec.go:76-77 | when the text's first line holds a dot, that line decides the match, whatever follows |
| Text.DotSuffixMatchSkipsLine | dexec.go:76-77 | a first line without a dot is skipped, so the first line holding a dot decides the match |
| Text.Decimal | docker.go:27-29 | a natural's decimal rendering is a non-empty digit string |
| Text.DecimalValue | docker.go:27-29 | `strconv.Atoi` on a run of n digits gives a natural below 10^n |
| Text.DecimalFitsInt64 | docker.go:27-29 | a run of at most 18 digits reads as a value of at most 2^63-1, so on a 64-bit platform `Atoi` cannot overflow on it (on a 32-bit platform runs of 10 or more digits can) |
| Text.DecimalRoundTrip | docker.go:27-29 | reading a rendered natural back as a decimal gives the natural |
| Util.AddPrefix | util/util.go:8-14 | the output is twice as long as the input. It holds the prefix at every even index and input element k at index 2k+1. |
| Util.JoinStringSlices | util/util.go:18-24 | the output is the in-order concatenation of the lists |
| Util.ConcatLength | util/util.go:18-24 | the concatenation's length is the sum of the lengths |
| Util.ConcatOfEmpties | util/util.go:19-23 | no lists, or only empty lists, give the empty list |
| Util.ConcatAppend | util/util.go:20-22 | concatenation distributes over splitting the list of lists |
| Util.ConcatExample | util/util_test.go:28-44 | `{foo}`, `{bar}`, `{foobar}` join to `foo`, `bar`, `foobar` |
| Util.PermissionMatch | util/util.go:29-33 | the permission form can match only when the name has a dot and a colon |
| Util.PermissionMatchOneLine | util/util.go:29 | on one line, the unanchored permission pattern is decided by that line |
| Util.PermissionGroupSpec | util/util.go:29-33 | on one line the permission form matches exactly when a colon follows a dot. Its group then lies between a dot and the last colon and holds no dot. |
| Util.ExtractFileExtension | util/util.go:28-36 | `None` (the panic) exactly when the name has no dot |
| Util.ExtractFileExtensionSpec | util/util.go:28-36 | on one line the result holds no dot. With a dot followed later by a colon, it lies between such a dot and the last colon. Otherwise it is the text after the last dot. |
| Util.ExtensionOfPlainName | util/util.go:34-35 | `base.ext` with no colon and no dot in `ext` gives `ext` |
| Util.ExtensionOfNameWithPermission | util/util.go:29-33 | `base.ext:perm` with no dot in `ext` and no colon in `perm` gives `ext` |
| Util.ExtractFileExtensionExamples | util/util_test.go:46-60 | `foo.bar` gives `bar`; `foo` panics |
| Util.ExtractFileExtensionExampleTwoDots | util/util_test.go:46-60 | `foo.bar.foobar` gives `foobar` |
| VersionLine.DigitRunEnd | docker.go:23 | the greedy `\d+` stops at the first non-digit |
| VersionLine.DigitRunEndAt | docker.go:23 | a digit run that ends at a non-digit is the one greedy `\d+` takes |
| VersionLine.MatchVersionLine | docker.go:23-26 | whatever the scanner returns is a match of the banner pattern with those groups |
| VersionLine.ScannedGroupsMatch | docker.go:23 | the three digit runs the scanner finds, with the fixed text around them and the hash, form a match with those runs as groups |
| VersionLine.HeaderLayout | docker.go:23 | where the three numbers sit inside the banner |
| VersionLine.VersionTextFollowsPrefix | dexec.go:24 | the `M.m.p` text follows "Docker version " directly |
| VersionLine.HeaderMatches | docker.go:23 | a banner built from digit runs and a valid 7-character hash matches, whatever follows it |
| VersionLine.MatchVersionLineComplete | docker.go:23-26 | every match of the pattern is the one the scanner finds, so the groups are unique |
| Docker.ExtractDockerVersion | docker.go:22-34 | a result is the three groups of a match of the banner, read as decimals |
| Docker.ExtractDockerVersionComplete | docker.go:25-30 | every matching banner gives its three numbers rather than panicking |
| Docker.ExtractDockerVersionRoundTrip | docker.go:23-29 | rendering M, m, p into the banner with any valid hash and any trailing text parses back to (M, m, p) |
| Docker.IsDockerPresent | docker.go:36-48 | Docker counts as present only when `docker -v` printed something and that output matches the banner pattern |
| Docker.IsDockerPresentIff | docker.go:36-48 | Docker is present exactly when `docker -v` printed a banner that matches the pattern |
| Docker.IsDockerPresentExamples | docker_test.go:11 | "Docker version 1.5.0, build abcdef0" gives (1, 5, 0), and Docker is present |
| Docker.IsDockerAbsentExamples | docker_test.go:12-13 | "Docker version x.y.z, …", "Mangled version string" and a failed command mean absent |
| Dexec.ExtractDockerVersion | dexec.go:23-31 | a result is `M.m.p` built from the groups of a match of the banner |
| Dexec.ExtractDockerVersionComplete | dexec.go:26-27 | every matching banner gives its version text rather than panicking |
| Dexec.ExtractDockerVersionIsInfix | dexec.go:24-27 | the result is the text right after "Docker version " |
| Dexec.AgreesWithDockerPackage | dexec.go:24 | the two version parsers accept the same banners, and this text spells the other's numbers |
| Dexec.TestBannerMatches | dexec_test.go:9 | the test banner matches with groups 1, 5 and 0 |
| Dexec.ExtractDockerVersionExample | dexec_test.go:9 | "Docker version 1.5.0, build a8a31ef" gives "1.5.0" |
| Dexec.GetExtension | dexec.go:75-78 | `None` (the panic) exactly when the name has no dot. The result holds no dot. |
| Dexec.GetExtensionRoundTrip | dexec.go:75-78 | `base.ext` with no dot in `ext` gives `ext` |
| Dexec.GetExtensionAgreesWithUtil | dexec.go:75-78 | on names without a colon, `getExtension` and `util.ExtractFileExtension` agree |

## Left out

- `DisplayHelp` and `DisplayVersion` in `cli/cli.go` and `cli.go` only print to the console.
- `main.go` is not part of this model. It covers container execution, timeouts, terminal handling and the option validation tied to printing.
- Image lookup, volume binding and base-name/permission splitting are not part of this model: their source is not among the modelled files.
- Anything that runs `docker` is left out, because it is process I/O: `GetRawDockerVersion`, `getRawDockerVersion`, `IsDockerRunning`, `RunAnonymousContainer`, `RunDexecContainer`, `run_anonymous_container`, `run_dexec_container`. The same goes for `isDockerPresent` and `main` in `dexec.go`.
- `is_docker_running` in `dexec.go` is a stub with no logic: it always reports `true, "Running"` and runs nothing.
- `Docker.IsDockerPresent` takes what `docker -v` printed as a parameter, with `None` when the command failed. The patchable `GetRawDockerVersion` variable is not modelled.
- Docker.ExtractDockerVersion: numbers are unbounded naturals. The overflow of `strconv.Atoi` is not modelled; Go ignores that error. Go's `int` is 64 bits wide on a 64-bit platform, where only runs longer than 18 digits can overflow; `Text.DecimalFitsInt64` shows shorter runs fit. On a 32-bit platform `int` is 32 bits wide, and runs of 10 or more digits can overflow.
- Go's nil slice and empty slice are not told apart. `AddPrefix` and `JoinStringSlices` of nothing give `[]`, and a missing map key reads as `[]`.
- Strings are sequences of code points. Invalid UTF-8, which Go's regexp reads as U+FFFD, is not modelled.
- The ordering test in `cli/cli_test.go` is not restated as a concrete example. `Cli.ParseArgsGroupsSteps` and `Cli.SameSelectionsSameParse` cover every input of that kind.
- The tests for `-s`/`--specify-image`, and `cli_test.go`'s tests for `-i` and `-C`, refer to options that the code does not define. The model follows the code. `cli_test.go` also calls `ArgToOption`, a name that `cli.go` does not define; the model uses `GetTypeForOpt`, which is what `cli.go` declares.
- Cli.ParseOsArgs and LegacyCli.ParseOsArgs require at least one argument. Go panics on an empty slice there, and the operating system always passes the program name, so that panic is not modelled.
