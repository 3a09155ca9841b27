/** Character classes and hand-written pieces of the regular expressions the
    Go code compiles with `regexp.MustCompile`. Go's `.` matches any character
    except a newline; `\d` is an ASCII digit. */
module Text {
  import opened Wrappers

  /** `\d` in Go's RE2 syntax. */
  predicate IsDigit(c: char) {
    '0' <= c <= '9'
  }

  /** `[a-z0-9]`. */
  predicate IsLowerAlnum(c: char) {
    'a' <= c <= 'z' || '0' <= c <= '9'
  }

  predicate IsDigits(s: string) {
    forall i :: 0 <= i < |s| ==> IsDigit(s[i])
  }

  predicate StartsWith(s: string, prefix: string) {
    |prefix| <= |s| && s[..|prefix|] == prefix
  }

  /** `^<prefix>(.+)$`: `prefix` followed by a non-empty rest that contains no
      newline (Go's `$` without the `m` flag anchors at the end of the text). */
  predicate HasValueAfter(s: string, prefix: string) {
    |prefix| < |s| && s[..|prefix|] == prefix && '\n' !in s[|prefix|..]
  }

  /** The prefix of a `^--name=(.+)$` pattern: `--`, then a name, then its
      only `=`. */
  predicate IsNamePrefix(p: string) {
    |p| > 2 && p[..2] == "--" && p[|p| - 1] == '=' && '=' !in p[..|p| - 1]
  }

  /** No name prefix is a proper prefix of another. */
  lemma NamePrefixesPrefixFree(p: string, q: string)
    requires IsNamePrefix(p) && IsNamePrefix(q)
    ensures |q| <= |p| && p[..|q|] == q ==> p == q
  {
    if |q| < |p| {
      assert p[..|p| - 1][|q| - 1] == p[|q| - 1];
    }
  }

  /** A token without `=` matches no `^--name=(.+)$` pattern. */
  lemma NoValueWithoutEquals(opt: string, p: string)
    requires IsNamePrefix(p) && '=' !in opt
    ensures !HasValueAfter(opt, p)
  {
    if |p| < |opt| {
      assert opt[..|p|][|p| - 1] == opt[|p| - 1];
    }
  }

  /** `--name=V` with V non-empty matches no other `^--name=(.+)$` pattern. */
  lemma OtherNamePrefixNoMatch(p: string, q: string, v: string)
    requires IsNamePrefix(p) && IsNamePrefix(q) && p != q && v != []
    ensures !HasValueAfter(p + v, q)
  {
    var opt := p + v;
    if |q| <= |p| {
      assert opt[..|q|] == p[..|q|];
      NamePrefixesPrefixFree(p, q);
    } else if |q| < |opt| {
      assert opt[..|q|][..|p|] == p;
      NamePrefixesPrefixFree(q, p);
    }
  }

  /** Reference reading of `.*\..+` matched from position `i` with the dot at
      position `j`: `.*` covers s[i..j] (no newline), then a dot, then `.+`
      needs at least one more character that is not a newline. */
  ghost predicate DotTailAt(s: string, i: nat, j: nat) {
    i <= j && j + 1 < |s| && s[j] == '.' && s[j + 1] != '\n' && '\n' !in s[i..j]
  }

  /** Scanner for `.*\..+` anchored at position `i` (not at the end). */
  predicate DotTail(s: string, i: nat)
    decreases |s| - i
  {
    if i + 1 >= |s| then false
    else if s[i] == '\n' then false
    else if s[i] == '.' && s[i + 1] != '\n' then true
    else DotTail(s, i + 1)
  }

  /** The scanner accepts exactly when some dot position satisfies the
      reference reading of the pattern. */
  lemma {:induction false} DotTailCorrect(s: string, i: nat)
    ensures DotTail(s, i) <==> exists j: nat :: DotTailAt(s, i, j)
    decreases |s| - i
  {
    if i + 1 >= |s| {
    } else if s[i] == '\n' {
      forall j: nat | i < j
        ensures !DotTailAt(s, i, j)
      {
        if j < |s| {
          assert s[i..j][0] == '\n';
        }
      }
    } else if s[i] == '.' && s[i + 1] != '\n' {
      assert s[i..i] == [];
      assert DotTailAt(s, i, i);
    } else {
      DotTailCorrect(s, i + 1);
      if DotTail(s, i + 1) {
        var j: nat :| DotTailAt(s, i + 1, j);
        assert s[i..j] == [s[i]] + s[i + 1..j];
        assert s[i] != '\n' && '\n' !in s[i + 1..j];
        assert DotTailAt(s, i, j);
      }
      if exists j: nat :: DotTailAt(s, i, j) {
        var j: nat :| DotTailAt(s, i, j);
        assert j != i;
        assert s[i..j] == [s[i]] + s[i + 1..j];
        assert DotTailAt(s, i + 1, j);
      }
    }
  }

  /** Index of the last occurrence of `c` in `s`. */
  function LastIndex(s: string, c: char): (i: nat)
    requires c in s
    ensures i < |s| && s[i] == c
    ensures c !in s[i + 1..]
  {
    if s[|s| - 1] == c then |s| - 1
    else
      assert s == s[..|s| - 1] + [s[|s| - 1]];
      var i := LastIndex(s[..|s| - 1], c);
      assert s[i + 1..] == s[..|s| - 1][i + 1..] + [s[|s| - 1]];
      i
  }

  /** A position holding `c` with no `c` after it is the last index of `c`. */
  lemma LastIndexAt(s: string, c: char, k: nat)
    requires k < |s| && s[k] == c && c !in s[k + 1..]
    ensures LastIndex(s, c) == k
  {
    var i := LastIndex(s, c);
    forall m | i < m < |s| ensures s[m] != c {
      assert s[m] == s[i + 1..][m - i - 1];
    }
  }

  /** `.*\.(.*)` on a newline-free string: the text after the last dot. */
  function AfterLastDot(s: string): (r: string)
    requires '.' in s
    ensures |r| < |s| && s[|s| - |r| - 1] == '.' && s[|s| - |r|..] == r
    ensures '.' !in r
  {
    s[LastIndex(s, '.') + 1..]
  }

  /** Length of the first line of `s`: everything before the first newline. */
  function LineEnd(s: string): (n: nat)
    ensures n <= |s| && '\n' !in s[..n]
    ensures n < |s| ==> s[n] == '\n'
  {
    if s == [] || s[0] == '\n' then 0
    else
      var n := LineEnd(s[1..]);
      assert s[..n + 1] == [s[0]] + s[1..][..n];
      n + 1
  }

  /** `FindStringSubmatch` of the unanchored `.*\.(.*)`: since `.` stops at a
      newline, the leftmost match lies in the first line that holds a dot, and
      the greedy `.*` puts the group after that line's last dot. */
  function DotSuffixMatch(s: string): (r: Option<string>)
    ensures r.None? <==> '.' !in s
    ensures r.Some? ==> '.' !in r.value && '\n' !in r.value
    decreases |s|
  {
    var n := LineEnd(s);
    if '.' in s[..n] then
      var r := AfterLastDot(s[..n]);
      assert r == s[..n][|s[..n]| - |r|..];
      Some(r)
    else if n < |s| then
      assert s == s[..n] + [s[n]] + s[n + 1..];
      DotSuffixMatch(s[n + 1..])
    else None
  }

  /** On a single line the group is the text after the last dot. */
  lemma DotSuffixMatchOneLine(s: string)
    requires '.' in s && '\n' !in s
    ensures DotSuffixMatch(s) == Some(AfterLastDot(s))
  {
    assert s[..LineEnd(s)] == s;
  }

  /** A first line holding a dot decides the match; later lines are ignored. */
  lemma DotSuffixMatchFirstLine(line: string, rest: string)
    requires '.' in line && '\n' !in line
    ensures DotSuffixMatch(line + "\n" + rest) == Some(AfterLastDot(line))
  {
    var s := line + "\n" + rest;
    assert s[|line|] == '\n' && s[..|line|] == line;
  }

  /** A first line without a dot is skipped: the match is the rest's. */
  lemma DotSuffixMatchSkipsLine(line: string, rest: string)
    requires '.' !in line && '\n' !in line
    ensures DotSuffixMatch(line + "\n" + rest) == DotSuffixMatch(rest)
  {
    var s := line + "\n" + rest;
    assert s[|line|] == '\n' && s[..|line|] == line;
    assert s[|line| + 1..] == rest;
  }

  /** Decimal digit value of an ASCII digit. */
  function DigitValue(c: char): (d: nat)
    requires IsDigit(c)
    ensures d < 10
  {
    (c as int - '0' as int) as nat
  }

  function DigitChar(d: nat): (c: char)
    requires d < 10
    ensures IsDigit(c) && DigitValue(c) == d
  {
    ('0' as int + d) as char
  }

  /** Ten to the power `n`. */
  function Pow10(n: nat): nat {
    if n == 0 then 1 else 10 * Pow10(n - 1)
  }

  /** `strconv.Atoi` on a run of ASCII digits, as an unbounded natural. A
      run of `n` digits stays below 10^n. */
  function DecimalValue(s: string): (v: nat)
    requires IsDigits(s)
    ensures v < Pow10(|s|)
  {
    if s == [] then 0
    else DecimalValue(s[..|s| - 1]) * 10 + DigitValue(s[|s| - 1])
  }

  lemma {:induction false} Pow10Monotone(m: nat, n: nat)
    requires m <= n
    ensures Pow10(m) <= Pow10(n)
    decreases n - m
  {
    if m < n {
      Pow10Monotone(m, n - 1);
    }
  }

  lemma {:induction false} Pow10Add(m: nat, n: nat)
    ensures Pow10(m + n) == Pow10(m) * Pow10(n)
  {
    if n > 0 {
      Pow10Add(m, n - 1);
      assert Pow10(m + n) == 10 * Pow10(m + n - 1);
    }
  }

  /** A run of at most 18 digits reads as a value that fits Go's 64-bit
      `int`, so `strconv.Atoi` cannot overflow on it. */
  lemma DecimalFitsInt64(s: string)
    requires IsDigits(s) && |s| <= 18
    ensures DecimalValue(s) <= 0x7FFF_FFFF_FFFF_FFFF
  {
    Pow10Monotone(|s|, 18);
    assert Pow10(6) == 1_000_000;
    Pow10Add(6, 6);
    Pow10Add(12, 6);
  }

  /** Canonical decimal rendering of a natural (no leading zeros). */
  function Decimal(n: nat): (s: string)
    ensures s != [] && IsDigits(s)
  {
    if n < 10 then [DigitChar(n)] else Decimal(n / 10) + [DigitChar(n % 10)]
  }

  /** Reading back a rendered natural gives the natural. */
  lemma {:induction false} DecimalRoundTrip(n: nat)
    ensures DecimalValue(Decimal(n)) == n
  {
    if n >= 10 {
      var s := Decimal(n);
      assert s[..|s| - 1] == Decimal(n / 10);
      DecimalRoundTrip(n / 10);
    }
  }
}
