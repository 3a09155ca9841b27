/** List and file-name helpers (util/util.go). */
module Util {
  import opened Wrappers
  import opened Text

  /** `AddPrefix`: a new list with `prefix` inserted before every element. */
  method AddPrefix(inSlice: seq<string>, prefix: string) returns (outSlice: seq<string>)
    ensures |outSlice| == 2 * |inSlice|
    ensures forall k :: 0 <= k < |inSlice| ==> outSlice[2 * k] == prefix && outSlice[2 * k + 1] == inSlice[k]
  {
    outSlice := [];
    for i := 0 to |inSlice|
      invariant |outSlice| == 2 * i
      invariant forall k :: 0 <= k < i ==> outSlice[2 * k] == prefix && outSlice[2 * k + 1] == inSlice[k]
    {
      outSlice := outSlice + [prefix, inSlice[i]];
    }
  }

  /** The in-order concatenation of a list of lists. */
  function Concat(slices: seq<seq<string>>): seq<string> {
    if slices == [] then [] else Concat(slices[..|slices| - 1]) + slices[|slices| - 1]
  }

  /** The sum of the lengths of a list of lists. */
  function TotalLength(slices: seq<seq<string>>): nat {
    if slices == [] then 0 else TotalLength(slices[..|slices| - 1]) + |slices[|slices| - 1]|
  }

  /** `JoinStringSlices`: the lists concatenated in the order supplied. */
  method JoinStringSlices(slices: seq<seq<string>>) returns (outSlice: seq<string>)
    ensures outSlice == Concat(slices)
  {
    outSlice := [];
    for i := 0 to |slices|
      invariant outSlice == Concat(slices[..i])
    {
      assert slices[..i + 1][..i] == slices[..i];
      outSlice := outSlice + slices[i];
    }
    assert slices[..|slices|] == slices;
  }

  /** The concatenation is as long as the lists together. */
  lemma {:induction false} ConcatLength(slices: seq<seq<string>>)
    ensures |Concat(slices)| == TotalLength(slices)
  {
    if slices != [] {
      ConcatLength(slices[..|slices| - 1]);
    }
  }

  /** Concatenating no lists, or only empty ones, gives the empty list. */
  lemma {:induction false} ConcatOfEmpties(slices: seq<seq<string>>)
    requires forall i :: 0 <= i < |slices| ==> slices[i] == []
    ensures Concat(slices) == []
  {
    if slices != [] {
      ConcatOfEmpties(slices[..|slices| - 1]);
    }
  }

  /** Concatenation distributes over splitting the list of lists. */
  lemma {:induction false} ConcatAppend(a: seq<seq<string>>, b: seq<seq<string>>)
    ensures Concat(a + b) == Concat(a) + Concat(b)
    decreases |b|
  {
    if b == [] {
      assert a + b == a;
    } else {
      assert (a + b)[..|a + b| - 1] == a + b[..|b| - 1];
      ConcatAppend(a, b[..|b| - 1]);
    }
  }

  /** A dot with a colon somewhere after it on the same (newline-free) text. */
  ghost predicate HasPermissionSuffix(line: string) {
    exists i, j :: 0 <= i < j < |line| && line[i] == '.' && line[j] == ':'
  }

  /** `.*\.(.*):.*` on one line, written with indices: the greedy `(.*)` runs
      to the last colon, and the first greedy `.*` stops at the last dot
      before it. */
  function PermissionGroup(line: string): Option<string>
    requires '\n' !in line
  {
    if ':' in line && '.' in line[..LastIndex(line, ':')] then
      var j := LastIndex(line, ':');
      var i := LastIndex(line[..j], '.');
      Some(line[i + 1..j])
    else None
  }

  /** `FindStringSubmatch` of the unanchored `.*\.(.*):.*`: the first line that
      holds a dot followed by a colon decides the match. */
  function PermissionMatch(s: string): (r: Option<string>)
    ensures r.Some? ==> '.' in s && ':' in s
    decreases |s|
  {
    var n := LineEnd(s);
    var g := PermissionGroup(s[..n]);
    if g.Some? then g
    else if n < |s| then
      assert s == s[..n] + [s[n]] + s[n + 1..];
      PermissionMatch(s[n + 1..])
    else None
  }

  /** `ExtractFileExtension`: the permission form's group when it matches
      (`file.txt:ro` gives `txt`), otherwise the text after the last dot;
      `None` where the Go code indexes a missing match and panics. */
  function ExtractFileExtension(filename: string): (r: Option<string>)
    ensures r.None? <==> '.' !in filename
  {
    var p := PermissionMatch(filename);
    if p.Some? then p else DotSuffixMatch(filename)
  }

  /** On one line the permission pattern is decided by that line alone. */
  lemma PermissionMatchOneLine(line: string)
    requires '\n' !in line
    ensures PermissionMatch(line) == PermissionGroup(line)
  {
    assert line[..LineEnd(line)] == line;
  }

  /** The permission group exists exactly when a colon follows a dot; it
      then lies between a dot and the last colon, and holds no dot. */
  lemma PermissionGroupSpec(line: string)
    requires '\n' !in line
    ensures PermissionGroup(line).Some? <==> HasPermissionSuffix(line)
    ensures PermissionGroup(line).Some? ==> var r := PermissionGroup(line).value;
      && '.' !in r
      && exists i, j :: 0 <= i < j < |line| && line[i] == '.' && line[j] == ':'
                        && r == line[i + 1..j] && ':' !in line[j + 1..]
  {
    if HasPermissionSuffix(line) {
      var i0, j0 :| 0 <= i0 < j0 < |line| && line[i0] == '.' && line[j0] == ':';
      var j := LastIndex(line, ':');
      assert j0 <= j;
      assert line[..j][i0] == '.';
    }
    if PermissionGroup(line).Some? {
      var j := LastIndex(line, ':');
      var i := LastIndex(line[..j], '.');
      assert line[i + 1..j] == line[..j][i + 1..];
      assert line[i] == line[..j][i];
    }
  }

  /** On a single line, what the extension is in terms of the positions of
      the dot and colon that the greedy pattern settles on. */
  lemma ExtractFileExtensionSpec(filename: string)
    requires '.' in filename && '\n' !in filename
    ensures ExtractFileExtension(filename).Some?
    ensures var r := ExtractFileExtension(filename).value;
      && '.' !in r
      && (HasPermissionSuffix(filename) ==>
            exists i, j :: 0 <= i < j < |filename| && filename[i] == '.' && filename[j] == ':'
                           && r == filename[i + 1..j] && ':' !in filename[j + 1..])
      && (!HasPermissionSuffix(filename) ==> r == AfterLastDot(filename))
  {
    PermissionMatchOneLine(filename);
    PermissionGroupSpec(filename);
    DotSuffixMatchOneLine(filename);
  }

  /** A name with no permission suffix: the text after the last dot. */
  lemma ExtensionOfPlainName(base: string, ext: string)
    requires '\n' !in base + ext && ':' !in base + ext && '.' !in ext
    ensures ExtractFileExtension(base + "." + ext) == Some(ext)
  {
    var s := base + "." + ext;
    assert s[|base|] == '.';
    ExtractFileExtensionSpec(s);
    assert s[|s| - |ext| - 1] == '.';
  }

  /** A name with a `:permission` suffix: the suffix is stripped first. */
  lemma ExtensionOfNameWithPermission(base: string, ext: string, perm: string)
    requires '\n' !in base + ext + perm && '.' !in ext && ':' !in perm
    ensures ExtractFileExtension(base + "." + ext + ":" + perm) == Some(ext)
  {
    var s := base + "." + ext + ":" + perm;
    var d, c := |base|, |base| + 1 + |ext|;
    assert s[c] == ':' && s[c + 1..] == perm;
    LastIndexAt(s, ':', c);
    var t := s[..c];
    assert t == base + "." + ext;
    assert t[d] == '.' && t[d + 1..] == ext;
    LastIndexAt(t, '.', d);
    PermissionMatchOneLine(s);
    assert s[d + 1..c] == t[d + 1..];
  }

  /** The cases of util/util_test.go, and a name without a dot. */
  lemma ExtractFileExtensionExamples()
    ensures ExtractFileExtension("foo.bar") == Some("bar")
    ensures ExtractFileExtension("foo") == None
  {
    assert "foo" + "." + "bar" == "foo.bar";
    ExtensionOfPlainName("foo", "bar");
  }

  lemma ExtractFileExtensionExampleTwoDots()
    ensures ExtractFileExtension("foo.bar.foobar") == Some("foobar")
  {
    assert "foo.bar" + "." + "foobar" == "foo.bar.foobar";
    ExtensionOfPlainName("foo.bar", "foobar");
  }

  lemma ConcatExample()
    ensures Concat([["foo"], ["bar"], ["foobar"]]) == ["foo", "bar", "foobar"]
  {
    assert [["foo"], ["bar"], ["foobar"]][..2] == [["foo"], ["bar"]];
    assert [["foo"], ["bar"]][..1] == [["foo"]];
  }
}
