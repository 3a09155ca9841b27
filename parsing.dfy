/** What the two versions of the command-line parser share: the shape of a
    classification, the lookahead token, and the option map from an option
    kind to its ordered list of values (`map[OptionType][]string` in Go). */
module Parsing {
  import opened Wrappers

  /** The four results of the Go classifier: option kind, value, number of
      tokens consumed ("chomped") and a nillable error. */
  datatype Classification<K> = Classification(kind: K, value: string, chomped: nat, err: Option<string>)

  /** The token after the first one, or "" when there is none. */
  function Lookahead(args: seq<string>): string {
    if |args| > 1 then args[1] else ""
  }

  /** Reading an absent key of a Go map yields the nil slice. */
  function Lookup<K>(m: map<K, seq<string>>, k: K): seq<string> {
    if k in m then m[k] else []
  }

  /** `m[k] = append([]string{v}, m[k]...)`: put `v` in front of the values
      of kind `k`. */
  function Prepend<K(!new)>(m: map<K, seq<string>>, k: K, v: string): (r: map<K, seq<string>>)
    ensures r.Keys == m.Keys + {k}
    ensures Lookup(r, k) == [v] + Lookup(m, k)
    ensures forall k' :: k' != k ==> Lookup(r, k') == Lookup(m, k')
  {
    m[k := [v] + Lookup(m, k)]
  }

  /** Per-kind concatenation: the values of `m` before those of `n`. */
  function Merge<K(!new)>(m: map<K, seq<string>>, n: map<K, seq<string>>): (r: map<K, seq<string>>)
    ensures r.Keys == m.Keys + n.Keys
    ensures forall k :: Lookup(r, k) == Lookup(m, k) + Lookup(n, k)
  {
    map k | k in m.Keys + n.Keys :: Lookup(m, k) + Lookup(n, k)
  }

  /** The values of kind `k` in a stream of (kind, value) pairs, in order. */
  function Select<K(==)>(steps: seq<(K, string)>, k: K): (vs: seq<string>)
    ensures |vs| <= |steps|
  {
    if steps == [] then []
    else (if steps[0].0 == k then [steps[0].1] else []) + Select(steps[1..], k)
  }

  lemma {:induction false} SelectAppend<K>(s: seq<(K, string)>, t: seq<(K, string)>, k: K)
    ensures Select(s + t, k) == Select(s, k) + Select(t, k)
  {
    if s == [] {
      assert s + t == t;
    } else {
      assert (s + t)[0] == s[0];
      assert (s + t)[1..] == s[1..] + t;
      SelectAppend(s[1..], t, k);
    }
  }

  /** Merging into an empty map changes nothing. */
  lemma EmptyMerge<K(!new)>(m: map<K, seq<string>>)
    ensures Merge(map[], m) == m
  {
    var r := Merge(map[], m);
    forall k | k in r
      ensures r[k] == m[k]
    {
      assert Lookup(r, k) == [] + Lookup(m, k);
    }
  }

  /** Merging with an empty map changes nothing. */
  lemma MergeEmpty<K(!new)>(m: map<K, seq<string>>)
    ensures Merge(m, map[]) == m
  {
    var r := Merge(m, map[]);
    forall k | k in r
      ensures r[k] == m[k]
    {
      assert Lookup(r, k) == Lookup(m, k) + [];
    }
  }

  /** Map extensionality, stated for the option maps. */
  lemma MapsEqual<K>(m: map<K, seq<string>>, n: map<K, seq<string>>)
    requires forall k :: k in m <==> k in n
    requires forall k :: k in m ==> m[k] == n[k]
    ensures m == n
  {
  }

  lemma PrependMergeAt<K(!new)>(m: map<K, seq<string>>, n: map<K, seq<string>>, k: K, v: string, k': K)
    ensures Lookup(Prepend(Merge(m, n), k, v), k') == Lookup(Merge(Prepend(m, k, v), n), k')
  {
    if k' == k {
      var a, b := Lookup(m, k), Lookup(n, k);
      assert [v] + (a + b) == ([v] + a) + b;
    }
  }

  lemma PrependMergeKeys<K(!new)>(m: map<K, seq<string>>, n: map<K, seq<string>>, k: K, v: string)
    ensures forall x :: x in Prepend(Merge(m, n), k, v) <==> x in Merge(Prepend(m, k, v), n)
  {
  }

  /** Putting a value in front commutes with appending another map's values. */
  lemma PrependMerge<K(!new)>(m: map<K, seq<string>>, n: map<K, seq<string>>, k: K, v: string)
    ensures Prepend(Merge(m, n), k, v) == Merge(Prepend(m, k, v), n)
  {
    var l, r := Prepend(Merge(m, n), k, v), Merge(Prepend(m, k, v), n);
    forall k' | k' in l
      ensures k' in r && l[k'] == r[k']
    {
      PrependMergeAt(m, n, k, v, k');
    }
    PrependMergeKeys(m, n, k, v);
    MapsEqual(l, r);
  }

  /** Two option maps whose lists are never empty are equal when every kind
      has the same values in both. */
  lemma SameLookupSameMap<K>(m: map<K, seq<string>>, n: map<K, seq<string>>)
    requires forall k :: k in m ==> m[k] != []
    requires forall k :: k in n ==> n[k] != []
    requires forall k :: Lookup(m, k) == Lookup(n, k)
    ensures m == n
  {
    forall k | k in m
      ensures k in n && m[k] == n[k]
    {
      assert Lookup(m, k) == Lookup(n, k);
    }
    forall k | k in n
      ensures k in m
    {
      assert Lookup(m, k) == Lookup(n, k);
    }
  }

  // ---------------------------------------------------------------------
  // The recursive `ParseArgs` shared by both versions, given the classifier

  /** A classifier: a token and the token after it (or "") to a classification. */
  type Classifier<K> = (string, string) -> Classification<K>

  /** `ParseArgs`: classify the first token, parse the tokens after the ones
      it consumed, then put its value in front of its kind's list. Parsing
      stops, silently and keeping nothing of the remaining tokens, at a token
      that consumes nothing or at one that would consume more tokens than
      are left. */
  function ParseWith<K(!new)>(classify: Classifier<K>, args: seq<string>): (m: map<K, seq<string>>)
    ensures forall k :: k in m ==> m[k] != []
    decreases |args|
  {
    if |args| == 0 then map[]
    else
      var c := classify(args[0], Lookahead(args));
      if |args| < c.chomped || c.chomped == 0 then map[]
      else Prepend(ParseWith(classify, args[c.chomped..]), c.kind, c.value)
  }

  /** The stream of (kind, value) pairs the parser accepts, left to right. */
  function StepsWith<K>(classify: Classifier<K>, args: seq<string>): (s: seq<(K, string)>)
    ensures |s| <= |args|
    decreases |args|
  {
    if |args| == 0 then []
    else
      var c := classify(args[0], Lookahead(args));
      if |args| < c.chomped || c.chomped == 0 then []
      else [(c.kind, c.value)] + StepsWith(classify, args[c.chomped..])
  }

  /** Every token is consumed: none consumes nothing and none asks for more
      tokens than are left. */
  predicate ParsesCompletelyWith<K>(classify: Classifier<K>, args: seq<string>)
    decreases |args|
  {
    if |args| == 0 then true
    else
      var c := classify(args[0], Lookahead(args));
      0 < c.chomped <= |args| && ParsesCompletelyWith(classify, args[c.chomped..])
  }

  /** The lookahead matters only to classifications that consume it. */
  ghost predicate ValueOnlyFromLookahead<K>(classify: Classifier<K>) {
    forall opt, next1, next2 :: classify(opt, next1).chomped < 2 ==> classify(opt, next1) == classify(opt, next2)
  }

  /** A kind that no consuming classification yields never becomes a key. */
  lemma {:induction false} ParseWithOmits<K(!new)>(classify: Classifier<K>, args: seq<string>, none: K)
    requires forall opt, next :: classify(opt, next).chomped != 0 ==> classify(opt, next).kind != none
    ensures none !in ParseWith(classify, args)
    decreases |args|
  {
    if |args| > 0 {
      var c := classify(args[0], Lookahead(args));
      if c.chomped != 0 && c.chomped <= |args| {
        ParseWithOmits(classify, args[c.chomped..], none);
      }
    }
  }

  /** ... and never appears in the accepted stream. */
  lemma {:induction false} StepsWithOmit<K>(classify: Classifier<K>, args: seq<string>, none: K)
    requires forall opt, next :: classify(opt, next).chomped != 0 ==> classify(opt, next).kind != none
    ensures forall i :: 0 <= i < |StepsWith(classify, args)| ==> StepsWith(classify, args)[i].0 != none
    decreases |args|
  {
    if |args| > 0 {
      var c := classify(args[0], Lookahead(args));
      if c.chomped != 0 && c.chomped <= |args| {
        StepsWithOmit(classify, args[c.chomped..], none);
      }
    }
  }

  /** Order preservation: each kind's list is exactly the values of that kind
      in the accepted stream, in left-to-right order, whatever the other
      kinds in between; kinds that never occur are absent. */
  lemma {:induction false} ParseWithGroupsSteps<K(!new)>(classify: Classifier<K>, args: seq<string>)
    ensures forall k :: Lookup(ParseWith(classify, args), k) == Select(StepsWith(classify, args), k)
    ensures forall k :: k in ParseWith(classify, args) <==> Select(StepsWith(classify, args), k) != []
    decreases |args|
  {
    if |args| > 0 {
      var c := classify(args[0], Lookahead(args));
      if c.chomped != 0 && c.chomped <= |args| {
        ParseWithGroupsSteps(classify, args[c.chomped..]);
        var s := StepsWith(classify, args);
        assert s[1..] == StepsWith(classify, args[c.chomped..]);
      }
    }
  }

  /** One step of the parser on an input whose first token is consumed. */
  lemma ParseWithStep<K(!new)>(classify: Classifier<K>, args: seq<string>, c: Classification<K>)
    requires |args| > 0 && c == classify(args[0], Lookahead(args))
    requires 0 < c.chomped <= |args|
    ensures ParseWith(classify, args) == Prepend(ParseWith(classify, args[c.chomped..]), c.kind, c.value)
  {
  }

  /** The first token of a completely parsed `a` is classified the same way
      in `a + b`, whatever `b` is. */
  lemma FirstStepOfAppend<K(!new)>(classify: Classifier<K>, a: seq<string>, b: seq<string>)
    requires ValueOnlyFromLookahead(classify)
    requires |a| > 0 && ParsesCompletelyWith(classify, a)
    ensures var c := classify(a[0], Lookahead(a));
      && 0 < c.chomped <= |a|
      && ParsesCompletelyWith(classify, a[c.chomped..])
      && ParseWith(classify, a + b) == Prepend(ParseWith(classify, a[c.chomped..] + b), c.kind, c.value)
  {
    var c := classify(a[0], Lookahead(a));
    var ab := a + b;
    assert ab[0] == a[0];
    if |a| > 1 {
      assert Lookahead(ab) == a[1] == Lookahead(a);
    } else {
      assert classify(a[0], Lookahead(a)) == classify(a[0], Lookahead(ab));
    }
    assert ab[c.chomped..] == a[c.chomped..] + b;
    ParseWithStep(classify, ab, c);
  }

  /** Interleaving independence: when `a` parses completely, parsing `a + b`
      gives, for every kind, the values from `a` followed by those from `b`. */
  lemma {:induction false} ParseWithAppend<K(!new)>(classify: Classifier<K>, a: seq<string>, b: seq<string>)
    requires ValueOnlyFromLookahead(classify)
    requires ParsesCompletelyWith(classify, a)
    ensures ParseWith(classify, a + b) == Merge(ParseWith(classify, a), ParseWith(classify, b))
    decreases |a|
  {
    if |a| == 0 {
      assert a + b == b;
      EmptyMerge(ParseWith(classify, b));
    } else {
      var c := classify(a[0], Lookahead(a));
      FirstStepOfAppend(classify, a, b);
      ParseWithAppend(classify, a[c.chomped..], b);
      ParseWithStep(classify, a, c);
      PrependMerge(ParseWith(classify, a[c.chomped..]), ParseWith(classify, b), c.kind, c.value);
    }
  }

  /** Interleaving independence: two inputs whose accepted streams hold the
      same values of every kind, in the same order, parse to the same map,
      however the kinds are interleaved. */
  lemma ParseWithSameSelections<K(!new)>(classify: Classifier<K>, a: seq<string>, b: seq<string>)
    requires forall k :: Select(StepsWith(classify, a), k) == Select(StepsWith(classify, b), k)
    ensures ParseWith(classify, a) == ParseWith(classify, b)
  {
    ParseWithGroupsSteps(classify, a);
    ParseWithGroupsSteps(classify, b);
    SameLookupSameMap(ParseWith(classify, a), ParseWith(classify, b));
  }

  /** Parsing stops silently at a token that consumes nothing: the entries of
      the tokens before it are kept; it and everything after it are dropped. */
  lemma ParseWithStops<K(!new)>(classify: Classifier<K>, done: seq<string>, bad: string, rest: seq<string>)
    requires ValueOnlyFromLookahead(classify) && ParsesCompletelyWith(classify, done)
    requires classify(bad, Lookahead([bad] + rest)).chomped == 0
    ensures ParseWith(classify, done + [bad] + rest) == ParseWith(classify, done)
  {
    assert done + [bad] + rest == done + ([bad] + rest);
    ParseWithAppend(classify, done, [bad] + rest);
    MergeEmpty(ParseWith(classify, done));
  }

  /** A token that needs the next one, given last, is dropped silently. */
  lemma ParseWithDropsTrailing<K(!new)>(classify: Classifier<K>, done: seq<string>, flag: string)
    requires ValueOnlyFromLookahead(classify) && ParsesCompletelyWith(classify, done)
    requires classify(flag, "").chomped == 2
    ensures ParseWith(classify, done + [flag]) == ParseWith(classify, done)
  {
    ParseWithAppend(classify, done, [flag]);
    MergeEmpty(ParseWith(classify, done));
  }
}
