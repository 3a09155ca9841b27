/** Docker version detection of the `dexec` package (docker.go). */
module Docker {
  import opened Wrappers
  import opened Text
  import opened VersionLine

  /** `ExtractDockerVersion`: the three version numbers of a `docker -v`
      banner; `None` where the Go code panics with "Did not match Docker
      version string". */
  function ExtractDockerVersion(rawVersion: string): (r: Option<(nat, nat, nat)>)
    ensures r.Some? ==> exists major, minor, patch ::
      && Matches(rawVersion, major, minor, patch)
      && r.value == (DecimalValue(major), DecimalValue(minor), DecimalValue(patch))
  {
    match MatchVersionLine(rawVersion)
    case None => None
    case Some((a, b, c)) => Some((DecimalValue(a), DecimalValue(b), DecimalValue(c)))
  }

  /** Every banner the pattern accepts yields its three numbers. */
  lemma ExtractDockerVersionComplete(rawVersion: string, major: string, minor: string, patch: string)
    requires Matches(rawVersion, major, minor, patch)
    ensures ExtractDockerVersion(rawVersion) == Some((DecimalValue(major), DecimalValue(minor), DecimalValue(patch)))
  {
    MatchVersionLineComplete(rawVersion, major, minor, patch);
  }

  /** Rendering a version as Docker does and extracting it gives it back,
      whatever the hash and whatever follows it. */
  lemma ExtractDockerVersionRoundTrip(major: nat, minor: nat, patch: nat, hash: string, tail: string)
    requires |hash| == HashLength && forall k :: 0 <= k < |hash| ==> IsLowerAlnum(hash[k])
    ensures ExtractDockerVersion(Header(Decimal(major), Decimal(minor), Decimal(patch)) + hash + tail)
         == Some((major, minor, patch))
  {
    var raw := Header(Decimal(major), Decimal(minor), Decimal(patch)) + hash + tail;
    HeaderMatches(Decimal(major), Decimal(minor), Decimal(patch), hash, tail);
    ExtractDockerVersionComplete(raw, Decimal(major), Decimal(minor), Decimal(patch));
    DecimalRoundTrip(major);
    DecimalRoundTrip(minor);
    DecimalRoundTrip(patch);
  }

  /** `IsDockerPresent`, given what `docker -v` printed (`None` when the
      command failed, which the Go code also recovers from): whether the
      banner parses. */
  function IsDockerPresent(rawVersion: Option<string>): (present: bool)
    ensures present ==> rawVersion.Some? && exists major, minor, patch :: Matches(rawVersion.value, major, minor, patch)
  {
    rawVersion.Some? && ExtractDockerVersion(rawVersion.value).Some?
  }

  /** Docker counts as present exactly when the command printed a banner the
      pattern accepts. */
  lemma IsDockerPresentIff(rawVersion: Option<string>)
    ensures IsDockerPresent(rawVersion) <==>
      rawVersion.Some? && exists major, minor, patch :: Matches(rawVersion.value, major, minor, patch)
  {
    if rawVersion.Some? && exists major, minor, patch :: Matches(rawVersion.value, major, minor, patch) {
      var major, minor, patch :| Matches(rawVersion.value, major, minor, patch);
      ExtractDockerVersionComplete(rawVersion.value, major, minor, patch);
    }
  }

  /** The cases of docker_test.go. */
  lemma IsDockerPresentExamples()
    ensures ExtractDockerVersion("Docker version 1.5.0, build abcdef0") == Some((1, 5, 0))
    ensures IsDockerPresent(Some("Docker version 1.5.0, build abcdef0"))
  {
    assert Header(Decimal(1), Decimal(5), Decimal(0)) + "abcdef0" + "" == "Docker version 1.5.0, build abcdef0";
    ExtractDockerVersionRoundTrip(1, 5, 0, "abcdef0", "");
  }

  lemma IsDockerAbsentExamples()
    ensures !IsDockerPresent(Some("Docker version x.y.z, build abcdef0"))
    ensures !IsDockerPresent(Some("Mangled version string"))
    ensures !IsDockerPresent(None)
  {
    var raw := "Docker version x.y.z, build abcdef0";
    assert raw[15] == 'x';
  }
}
