/** How the two versions of the classifier relate: the current one keeps the
    meaning of every token the older one accepted, and additionally accepts
    the target-directory, include, image, extension, update and clean options
    and sources whose dot comes right after the first character. */
module Compat {
  import Cli
  import LegacyCli
  import opened Text
  import opened Parsing

  /** The option kind of the current version with the same name. */
  function Upgrade(k: LegacyCli.OptionType): Cli.OptionType {
    match k
    case None => Cli.None
    case Arg => Cli.Arg
    case BuildArg => Cli.BuildArg
    case Source => Cli.Source
    case HelpFlag => Cli.HelpFlag
    case VersionFlag => Cli.VersionFlag
  }

  ghost predicate SameMeaning(opt: string, next: string) {
    var o, n := LegacyCli.GetTypeForOpt(opt, next), Cli.ArgToOption(opt, next);
    n == Cli.Found(Upgrade(o.kind), o.value, o.chomped)
  }

  lemma SeparateFlagsAgree(opt: string, next: string)
    requires opt in LegacyCli.SeparateValueFlags
    ensures SameMeaning(opt, next)
  {
    LegacyCli.SeparateValueFlagClassified(opt, next);
    Cli.SeparateValueFlagClassified(opt, next);
  }

  lemma BooleanFlagsAgree(opt: string, next: string)
    requires opt in LegacyCli.BooleanFlags
    ensures SameMeaning(opt, next)
  {
    LegacyCli.BooleanFlagClassified(opt, next);
    Cli.BooleanFlagClassified(opt, next);
  }

  lemma CombinedFormsAgree(p: string, v: string, next: string)
    requires p in LegacyCli.CombinedPrefixes && v != [] && '\n' !in v
    ensures SameMeaning(p + v, next)
  {
    LegacyCli.CombinedFormClassified(p, v, next);
    Cli.CombinedFormClassified(p, v, next);
  }

  lemma SourcesAgree(opt: string, next: string)
    requires LegacyCli.IsSourceToken(opt)
    ensures SameMeaning(opt, next)
  {
    LegacyCli.SourceTokenClassified(opt, next);
    Cli.SourceTokenClassified(opt, next);
  }

  /** A token the older classifier accepts gets the same kind, value and
      token count from the current one. */
  lemma LegacyTokensKeepTheirMeaning(opt: string, next: string)
    requires LegacyCli.GetTypeForOpt(opt, next).chomped != 0
    ensures var o, n := LegacyCli.GetTypeForOpt(opt, next), Cli.ArgToOption(opt, next);
      n == Cli.Found(Upgrade(o.kind), o.value, o.chomped)
  {
    LegacyCli.RecognizedIffConsumed(opt, next);
    if opt in LegacyCli.SeparateValueFlags {
      SeparateFlagsAgree(opt, next);
    } else if opt in LegacyCli.BooleanFlags {
      BooleanFlagsAgree(opt, next);
    } else if LegacyCli.IsCombinedForm(opt) {
      var p :| p in LegacyCli.CombinedPrefixes && HasValueAfter(opt, p);
      assert opt == p + opt[|p|..];
      CombinedFormsAgree(p, opt[|p|..], next);
    } else {
      SourcesAgree(opt, next);
    }
  }

  /** Options of the current version that the older one rejects. */
  lemma NewerOptionsUnknownToLegacy(opt: string, next: string)
    requires opt in Cli.SeparateValueFlags.Keys + Cli.BooleanFlags.Keys
    requires opt !in LegacyCli.SeparateValueFlags.Keys + LegacyCli.BooleanFlags.Keys
    ensures LegacyCli.GetTypeForOpt(opt, next).chomped == 0
    ensures Cli.ArgToOption(opt, next).chomped != 0
  {
    Cli.ExactFlagsHaveNoEquals(opt);
    LegacyCli.NoCombinedMatch(opt);
    LegacyCli.UnrecognizedNotConsumed(opt, next);
    Cli.RecognizedConsumed(opt, next);
  }
}
