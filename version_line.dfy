/** The `docker -v` banner pattern shared by docker.go and dexec.go:
    `^Docker version (\d+)\.(\d+)\.(\d+), build [a-z0-9]{7}`. Each digit run
    is followed by a non-digit, so the greedy `\d+` groups are the maximal
    digit runs and the match, when there is one, is unique. */
module VersionLine {
  import opened Wrappers
  import opened Text

  /** The fixed text of the banner up to the build hash. */
  function Header(major: string, minor: string, patch: string): string {
    "Docker version " + major + "." + minor + "." + patch + ", build "
  }

  /** Length of the build hash: `[a-z0-9]{7}`. */
  const HashLength: nat := 7

  /** `raw` matches the pattern with `major`, `minor` and `patch` as its
      three groups. Anything may follow the hash: the pattern has no `$`. */
  ghost predicate Matches(raw: string, major: string, minor: string, patch: string) {
    var h := Header(major, minor, patch);
    && major != [] && minor != [] && patch != []
    && IsDigits(major) && IsDigits(minor) && IsDigits(patch)
    && StartsWith(raw, h)
    && |h| + HashLength <= |raw|
    && forall k :: |h| <= k < |h| + HashLength ==> IsLowerAlnum(raw[k])
  }

  /** End of the longest run of digits starting at `i`. */
  function DigitRunEnd(s: string, i: nat): (j: nat)
    requires i <= |s|
    ensures i <= j <= |s| && IsDigits(s[i..j])
    ensures j < |s| ==> !IsDigit(s[j])
    decreases |s| - i
  {
    if i < |s| && IsDigit(s[i]) then
      var j := DigitRunEnd(s, i + 1);
      assert s[i..j] == [s[i]] + s[i + 1..j];
      j
    else i
  }

  /** A digit run that ends at a non-digit (or at the end) is the longest. */
  lemma {:induction false} DigitRunEndAt(s: string, i: nat, k: nat)
    requires i <= k <= |s| && IsDigits(s[i..k])
    requires k < |s| ==> !IsDigit(s[k])
    ensures DigitRunEnd(s, i) == k
    decreases k - i
  {
    if i < k {
      assert s[i..k][0] == s[i];
      assert s[i + 1..k] == s[i..k][1..];
      DigitRunEndAt(s, i + 1, k);
    }
  }

  /** `[a-z0-9]{7}` at position `i`. */
  predicate HashAt(s: string, i: nat) {
    i + HashLength <= |s| && forall k :: i <= k < i + HashLength ==> IsLowerAlnum(s[k])
  }

  /** Scanner for the pattern, returning the three groups. */
  function MatchVersionLine(raw: string): (r: Option<(string, string, string)>)
    ensures r.Some? ==> Matches(raw, r.value.0, r.value.1, r.value.2)
  {
    if !StartsWith(raw, "Docker version ") then None
    else
      var i0 := |"Docker version "|;
      var j0 := DigitRunEnd(raw, i0);
      if j0 == i0 || j0 == |raw| || raw[j0] != '.' then None
      else
        var j1 := DigitRunEnd(raw, j0 + 1);
        if j1 == j0 + 1 || j1 == |raw| || raw[j1] != '.' then None
        else
          var j2 := DigitRunEnd(raw, j1 + 1);
          if !StartsWith(raw[j2..], ", build ") || !HashAt(raw, j2 + |", build "|) then None
          else
            if j2 == j1 + 1 then None
            else
              ScannedGroupsMatch(raw, j0, j1, j2);
              Some((raw[i0..j0], raw[j0 + 1..j1], raw[j1 + 1..j2]))
  }

  /** The three digit runs the scanner finds, with the text around them,
      make a match of the pattern. */
  lemma ScannedGroupsMatch(raw: string, j0: nat, j1: nat, j2: nat)
    requires StartsWith(raw, "Docker version ")
    requires 15 < j0 && j0 + 1 < j1 && j1 + 1 < j2 <= |raw|
    requires IsDigits(raw[15..j0]) && IsDigits(raw[j0 + 1..j1]) && IsDigits(raw[j1 + 1..j2])
    requires raw[j0] == '.' && raw[j1] == '.'
    requires StartsWith(raw[j2..], ", build ") && HashAt(raw, j2 + 8)
    ensures Matches(raw, raw[15..j0], raw[j0 + 1..j1], raw[j1 + 1..j2])
  {
    var a, b, c := raw[15..j0], raw[j0 + 1..j1], raw[j1 + 1..j2];
    var h := Header(a, b, c);
    HeaderLayout(a, b, c);
    assert raw[..|h|] == h by {
      forall k | 0 <= k < |h| ensures raw[k] == h[k] {
        if k < 15 {
          assert raw[k] == raw[..15][k] && h[k] == h[..15][k];
        } else if k < j0 {
          assert raw[k] == a[k - 15] && h[k] == h[15..j0][k - 15];
        } else if k == j0 {
        } else if k < j1 {
          assert raw[k] == b[k - j0 - 1] && h[k] == h[j0 + 1..j1][k - j0 - 1];
        } else if k == j1 {
        } else if k < j2 {
          assert raw[k] == c[k - j1 - 1] && h[k] == h[j1 + 1..j2][k - j1 - 1];
        } else {
          assert raw[k] == raw[j2..][..8][k - j2] && h[k] == h[j2..][k - j2];
        }
      }
    }
  }

  /** Where the groups sit inside the header. */
  lemma HeaderLayout(major: string, minor: string, patch: string)
    ensures var h := Header(major, minor, patch);
      var j0 := 15 + |major|;
      var j1 := j0 + 1 + |minor|;
      var j2 := j1 + 1 + |patch|;
      && |h| == j2 + 8
      && h[..15] == "Docker version "
      && h[15..j0] == major && h[j0] == '.'
      && h[j0 + 1..j1] == minor && h[j1] == '.'
      && h[j1 + 1..j2] == patch
      && h[j2..] == ", build "
  {
  }

  /** The three runs and their dots sit right after "Docker version ". */
  lemma VersionTextFollowsPrefix(raw: string, major: string, minor: string, patch: string)
    requires Matches(raw, major, minor, patch)
    ensures var v := major + "." + minor + "." + patch;
      15 + |v| <= |raw| && raw[15..15 + |v|] == v
  {
    var h := Header(major, minor, patch);
    var v := major + "." + minor + "." + patch;
    var front := "Docker version " + v;
    assert h == front + ", build ";
    assert raw[..|h|] == h;
    assert raw[..|front|] == h[..|front|] == front;
    assert raw[15..15 + |v|] == front[15..];
  }

  /** A header built from digit runs, followed by a valid hash and any
      tail, matches with those runs as its groups. */
  lemma HeaderMatches(major: string, minor: string, patch: string, hash: string, tail: string)
    requires major != [] && minor != [] && patch != []
    requires IsDigits(major) && IsDigits(minor) && IsDigits(patch)
    requires |hash| == HashLength && forall k :: 0 <= k < |hash| ==> IsLowerAlnum(hash[k])
    ensures Matches(Header(major, minor, patch) + hash + tail, major, minor, patch)
  {
    var h := Header(major, minor, patch);
    var raw := h + hash + tail;
    assert raw[..|h|] == h;
    forall k | |h| <= k < |h| + HashLength ensures IsLowerAlnum(raw[k]) {
      assert raw[k] == hash[k - |h|];
    }
  }

  /** The scanner's answer once its three digit runs are known. */
  lemma ScannerAccepts(raw: string, j0: nat, j1: nat, j2: nat)
    requires StartsWith(raw, "Docker version ")
    requires 15 < j0 < |raw| && DigitRunEnd(raw, 15) == j0 && raw[j0] == '.'
    requires j0 + 1 < j1 < |raw| && DigitRunEnd(raw, j0 + 1) == j1 && raw[j1] == '.'
    requires j1 + 1 < j2 <= |raw| && DigitRunEnd(raw, j1 + 1) == j2
    requires StartsWith(raw[j2..], ", build ") && HashAt(raw, j2 + 8)
    ensures MatchVersionLine(raw) == Some((raw[15..j0], raw[j0 + 1..j1], raw[j1 + 1..j2]))
  {
  }

  /** Every way the pattern matches is the one the scanner finds. */
  lemma MatchVersionLineComplete(raw: string, major: string, minor: string, patch: string)
    requires Matches(raw, major, minor, patch)
    ensures MatchVersionLine(raw) == Some((major, minor, patch))
  {
    var h := Header(major, minor, patch);
    HeaderLayout(major, minor, patch);
    var j0 := 15 + |major|;
    var j1 := j0 + 1 + |minor|;
    var j2 := j1 + 1 + |patch|;
    assert raw[..|h|] == h;
    assert StartsWith(raw, "Docker version ") by {
      assert raw[..15] == h[..15];
    }
    assert raw[15..j0] == major && raw[j0] == '.' by {
      assert raw[15..j0] == h[15..j0];
    }
    DigitRunEndAt(raw, 15, j0);
    assert raw[j0 + 1..j1] == minor && raw[j1] == '.' by {
      assert raw[j0 + 1..j1] == h[j0 + 1..j1];
    }
    DigitRunEndAt(raw, j0 + 1, j1);
    assert raw[j1 + 1..j2] == patch && raw[j2..][..8] == ", build " by {
      assert raw[j1 + 1..j2] == h[j1 + 1..j2];
      assert raw[j2..][..8] == h[j2..];
    }
    assert raw[j2] == ',' by {
      assert raw[j2] == raw[j2..][..8][0];
    }
    DigitRunEndAt(raw, j1 + 1, j2);
    ScannerAccepts(raw, j0, j1, j2);
  }
}
