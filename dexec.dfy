/** The standalone `dexec` command's helpers (dexec.go). */
module Dexec {
  import opened Wrappers
  import opened Text
  import opened VersionLine
  import Util
  import Docker

  /** `extractDockerVersion`: the `major.minor.patch` text of a `docker -v`
      banner, exactly as written; `None` where the Go code panics. The
      single group `(\d+\.\d+\.\d+)` spans the three runs the numbered
      pattern of docker.go captures separately. */
  function ExtractDockerVersion(rawVersion: string): (r: Option<string>)
    ensures r.Some? ==> exists major, minor, patch ::
      && Matches(rawVersion, major, minor, patch)
      && r.value == major + "." + minor + "." + patch
  {
    match MatchVersionLine(rawVersion)
    case None => None
    case Some((a, b, c)) => Some(a + "." + b + "." + c)
  }

  /** Every banner the pattern accepts yields its version text. */
  lemma ExtractDockerVersionComplete(rawVersion: string, major: string, minor: string, patch: string)
    requires Matches(rawVersion, major, minor, patch)
    ensures ExtractDockerVersion(rawVersion) == Some(major + "." + minor + "." + patch)
  {
    MatchVersionLineComplete(rawVersion, major, minor, patch);
  }

  /** The version text is what the banner holds right after
      "Docker version ", so what follows the hash never leaks into it. */
  lemma ExtractDockerVersionIsInfix(rawVersion: string)
    requires ExtractDockerVersion(rawVersion).Some?
    ensures var v := ExtractDockerVersion(rawVersion).value;
      15 + |v| <= |rawVersion| && rawVersion[15..15 + |v|] == v
  {
    var major, minor, patch :| Matches(rawVersion, major, minor, patch);
    ExtractDockerVersionComplete(rawVersion, major, minor, patch);
    VersionTextFollowsPrefix(rawVersion, major, minor, patch);
  }

  /** Both packages accept the same banners, and the text this one returns
      spells the numbers the other one returns. */
  lemma AgreesWithDockerPackage(rawVersion: string)
    ensures ExtractDockerVersion(rawVersion).Some? <==> Docker.ExtractDockerVersion(rawVersion).Some?
    ensures ExtractDockerVersion(rawVersion).Some? ==>
      exists major, minor, patch ::
        && IsDigits(major) && IsDigits(minor) && IsDigits(patch)
        && ExtractDockerVersion(rawVersion).value == major + "." + minor + "." + patch
        && Docker.ExtractDockerVersion(rawVersion).value
           == (DecimalValue(major), DecimalValue(minor), DecimalValue(patch))
  {
    var m := MatchVersionLine(rawVersion);
    if m.Some? {
      var major, minor, patch := m.value.0, m.value.1, m.value.2;
      assert Matches(rawVersion, major, minor, patch);
      assert ExtractDockerVersion(rawVersion).value == major + "." + minor + "." + patch;
    }
  }

  /** The banner of dexec_test.go matches with groups 1, 5 and 0. */
  lemma TestBannerMatches()
    ensures Matches("Docker version 1.5.0, build a8a31ef", "1", "5", "0")
  {
    assert Header("1", "5", "0") + "a8a31ef" + "" == "Docker version 1.5.0, build a8a31ef";
    HeaderMatches("1", "5", "0", "a8a31ef", "");
  }

  /** The case of dexec_test.go. */
  lemma ExtractDockerVersionExample()
    ensures ExtractDockerVersion("Docker version 1.5.0, build a8a31ef") == Some("1.5.0")
  {
    assert "1" + "." + "5" + "." + "0" == "1.5.0";
    TestBannerMatches();
    ExtractDockerVersionComplete("Docker version 1.5.0, build a8a31ef", "1", "5", "0");
  }

  /** `getExtension`: the text after the last dot of the first line holding
      a dot; `None` where the Go code indexes a missing match and panics. */
  function GetExtension(filename: string): (r: Option<string>)
    ensures r.None? <==> '.' !in filename
    ensures r.Some? ==> '.' !in r.value
  {
    DotSuffixMatch(filename)
  }

  /** Extending a name by a dot and an extension, and taking the extension
      back, gives the extension. */
  lemma GetExtensionRoundTrip(base: string, ext: string)
    requires '\n' !in base + ext && '.' !in ext
    ensures GetExtension(base + "." + ext) == Some(ext)
  {
    var s := base + "." + ext;
    assert s[|base|] == '.';
    DotSuffixMatchOneLine(s);
    assert s[|s| - |ext| - 1] == '.';
  }

  /** Without a permission suffix to strip, the util package's
      `ExtractFileExtension` gives the same answer. */
  lemma GetExtensionAgreesWithUtil(filename: string)
    requires ':' !in filename
    ensures GetExtension(filename) == Util.ExtractFileExtension(filename)
  {
  }
}
