/** The character n-gram statistics of evaluation.py: the sliding window
    `ngrams`, the clipped overlap `trigram_precision` and the repetition
    rates `trigram_repetition`. A `collections.Counter` of n-grams is a
    multiset, and a sum over its keys is a sum over the distinct n-grams in
    order of first appearance. The ratios are exact reals. */
module NGramStats {

  // ---------------------------------------------------------------------
  // ngrams (evaluation.py:4-5)
  // ---------------------------------------------------------------------

  /** The windows of `n` consecutive characters of `s`, left to right. */
  function NGrams(s: string, n: nat): (g: seq<string>)
    ensures |g| == if |s| >= n then |s| - n + 1 else 0
    ensures forall i :: 0 <= i < |g| ==> |g[i]| == n && g[i] == s[i..i + n]
  {
    if |s| >= n then seq(|s| - n + 1, i requires 0 <= i <= |s| - n => s[i..i + n]) else []
  }

  /** `t` sits at position `i` of `s`. */
  predicate OccursAt(t: string, s: string, i: int) {
    0 <= i && i + |t| <= |s| && s[i..i + |t|] == t
  }

  /** A string is an n-gram of `s` exactly when it is a piece of `s` of
      length `n`. */
  lemma NGramsMembers(s: string, n: nat, t: string)
    ensures t in NGrams(s, n) <==> |t| == n && exists i :: OccursAt(t, s, i)
  {
    var g := NGrams(s, n);
    if |t| == n && exists i :: OccursAt(t, s, i) {
      var i :| OccursAt(t, s, i);
      assert g[i] == t;
    }
    if t in g {
      var i :| 0 <= i < |g| && g[i] == t;
      assert OccursAt(t, s, i);
    }
  }

  /** The window slides by one: the n-grams of a text are its first window
      followed by the n-grams of the text without its first character. */
  lemma NGramsSlide(s: string, n: nat)
    requires |s| >= n && s != []
    ensures NGrams(s, n) == [s[..n]] + NGrams(s[1..], n)
  {
    var a, b := NGrams(s, n), [s[..n]] + NGrams(s[1..], n);
    forall i | 0 <= i < |a| ensures a[i] == b[i] {
      if i > 0 { assert s[1..][i - 1..i - 1 + n] == s[i..i + n]; }
    }
  }

  lemma NGramsExamples()
    ensures NGrams("abc", 3) == ["abc"]
    ensures NGrams("ab", 3) == []
    ensures NGrams("abcd", 2) == ["ab", "bc", "cd"]
  {
    var one := NGrams("abc", 3);
    assert |one| == 1 && one[0] == "abc"[0..3] == "abc";
    var g := NGrams("abcd", 2);
    assert g[0] == "ab" && g[1] == "bc" && g[2] == "cd";
  }

  // ---------------------------------------------------------------------
  // Counters: distinct keys and sums over them
  // ---------------------------------------------------------------------

  predicate NoDuplicates(d: seq<string>) {
    forall i, j :: 0 <= i < j < |d| ==> d[i] != d[j]
  }

  /** The keys of `Counter(g)`: each n-gram once, in order of first
      appearance. */
  function Distinct(g: seq<string>): (d: seq<string>)
    ensures forall t :: t in d <==> t in g
    ensures NoDuplicates(d)
    ensures |d| <= |g|
  {
    if g == [] then []
    else
      var d := Distinct(g[..|g| - 1]);
      assert forall t :: t in g <==> t in g[..|g| - 1] || t == g[|g| - 1];
      if g[|g| - 1] in d then d else d + [g[|g| - 1]]
  }

  /** The sum of the counts of `keys` in `m`. */
  function CountSum(keys: seq<string>, m: multiset<string>): nat {
    if keys == [] then 0 else CountSum(keys[..|keys| - 1], m) + m[keys[|keys| - 1]]
  }

  /** `sum(min(cg[t], cr.get(t, 0)) for t in keys)`. */
  function ClippedSum(keys: seq<string>, cg: multiset<string>, cr: multiset<string>): nat {
    if keys == [] then 0
    else
      var t := keys[|keys| - 1];
      ClippedSum(keys[..|keys| - 1], cg, cr) + (if cg[t] <= cr[t] then cg[t] else cr[t])
  }

  /** `sum(max(v - 1, 0) for v in c.values())` over `keys`. */
  function ExcessSum(keys: seq<string>, c: multiset<string>): nat {
    if keys == [] then 0
    else
      var t := keys[|keys| - 1];
      ExcessSum(keys[..|keys| - 1], c) + (if c[t] >= 1 then c[t] - 1 else 0)
  }

  /** `sum(1 for v in c.values() if v > 1)` over `keys`. */
  function RepeatedSum(keys: seq<string>, c: multiset<string>): (k: nat)
    ensures k <= |keys|
  {
    if keys == [] then 0
    else RepeatedSum(keys[..|keys| - 1], c) + (if c[keys[|keys| - 1]] > 1 then 1 else 0)
  }

  /** Counting one more occurrence of `x` adds one to the sum exactly when
      `x` is a key. */
  lemma {:induction false} CountSumAdd(keys: seq<string>, m: multiset<string>, x: string)
    requires NoDuplicates(keys)
    ensures CountSum(keys, m + multiset{x}) == CountSum(keys, m) + (if x in keys then 1 else 0)
  {
    if keys != [] {
      var init := keys[..|keys| - 1];
      assert NoDuplicates(init);
      assert keys == init + [keys[|keys| - 1]];
      CountSumAdd(init, m, x);
    }
  }

  lemma {:induction false} CountSumEmpty(keys: seq<string>)
    ensures CountSum(keys, multiset{}) == 0
  {
    if keys != [] {
      CountSumEmpty(keys[..|keys| - 1]);
    }
  }

  /** The counts of the distinct n-grams add up to the number of n-grams. */
  lemma {:induction false} CountSumOfDistinct(g: seq<string>)
    ensures CountSum(Distinct(g), multiset(g)) == |g|
  {
    if g == [] {
      CountSumEmpty(Distinct(g));
    } else {
      var init, x := g[..|g| - 1], g[|g| - 1];
      assert g == init + [x];
      var d := Distinct(init);
      CountSumOfDistinct(init);
      CountSumAdd(d, multiset(init), x);
      if x !in d {
        assert multiset(init)[x] == 0;
        assert (d + [x])[..|d|] == d;
      }
    }
  }

  /** Summing the counts of distinct keys never counts an element twice. */
  lemma {:induction false} CountSumBound(keys: seq<string>, r: seq<string>)
    requires NoDuplicates(keys)
    ensures CountSum(keys, multiset(r)) <= |r|
  {
    if r == [] {
      CountSumEmpty(keys);
    } else {
      var init := r[..|r| - 1];
      assert r == init + [r[|r| - 1]];
      CountSumBound(keys, init);
      CountSumAdd(keys, multiset(init), r[|r| - 1]);
    }
  }

  /** The clipped sum is at most either side's sum. */
  lemma {:induction false} ClippedSumBound(keys: seq<string>, cg: multiset<string>, cr: multiset<string>)
    ensures ClippedSum(keys, cg, cr) <= CountSum(keys, cg)
    ensures ClippedSum(keys, cg, cr) <= CountSum(keys, cr)
  {
    if keys != [] {
      ClippedSumBound(keys[..|keys| - 1], cg, cr);
    }
  }

  /** Against itself, clipping changes nothing. */
  lemma {:induction false} ClippedSumSelf(keys: seq<string>, c: multiset<string>)
    ensures ClippedSum(keys, c, c) == CountSum(keys, c)
  {
    if keys != [] {
      ClippedSumSelf(keys[..|keys| - 1], c);
    }
  }

  /** Keys the reference never counts contribute nothing. */
  lemma {:induction false} ClippedSumDisjoint(keys: seq<string>, cg: multiset<string>, cr: multiset<string>)
    requires forall t :: t in keys ==> cr[t] == 0
    ensures ClippedSum(keys, cg, cr) == 0
  {
    if keys != [] {
      ClippedSumDisjoint(keys[..|keys| - 1], cg, cr);
    }
  }

  /** For keys that all occur, the excess is the total count minus one per
      key. */
  lemma {:induction false} ExcessSumOfPresent(keys: seq<string>, c: multiset<string>)
    requires forall t :: t in keys ==> c[t] >= 1
    ensures ExcessSum(keys, c) == CountSum(keys, c) - |keys|
  {
    if keys != [] {
      ExcessSumOfPresent(keys[..|keys| - 1], c);
    }
  }

  /** Each repeated key adds at least one to the excess. */
  lemma {:induction false} RepeatedSumBound(keys: seq<string>, c: multiset<string>)
    ensures RepeatedSum(keys, c) <= ExcessSum(keys, c)
  {
    if keys != [] {
      RepeatedSumBound(keys[..|keys| - 1], c);
    }
  }

  /** `a / b` as an exact real. */
  function Ratio(a: nat, b: nat): (q: real)
    requires b > 0
    ensures q * (b as real) == a as real
  {
    (a as real) / (b as real)
  }

  /** A ratio over a positive total grows with its numerator. */
  lemma RatioMonotonic(a: nat, c: nat, b: nat)
    requires b > 0
    ensures a <= c ==> Ratio(a, b) <= Ratio(c, b)
    ensures a < c ==> Ratio(a, b) < Ratio(c, b)
  {
    var x, y, z := a as real, c as real, b as real;
    assert Ratio(a, b) * z == x;
    assert Ratio(c, b) * z == y;
    var d := Ratio(a, b) - Ratio(c, b);
    assert d * z == x - y;
  }

  /** A ratio lies in [0, 1] when the numerator does not exceed the total,
      and below 1 when it is smaller. */
  lemma RatioBounds(a: nat, c: nat, b: nat)
    requires b > 0
    ensures 0.0 <= Ratio(a, b)
    ensures a <= c ==> Ratio(a, b) <= Ratio(c, b)
    ensures a <= b ==> Ratio(a, b) <= 1.0
    ensures a < b ==> Ratio(a, b) < 1.0
    ensures Ratio(0, b) == 0.0 && Ratio(b, b) == 1.0
  {
    assert Ratio(b, b) == 1.0;
    RatioMonotonic(0, a, b);
    RatioMonotonic(a, c, b);
    RatioMonotonic(a, b, b);
  }

  // ---------------------------------------------------------------------
  // trigram_precision (evaluation.py:7-11)
  // ---------------------------------------------------------------------

  /** The clipped count of generated n-grams found in the reference: no more
      than there are n-grams on either side. */
  lemma ClippedNGramsBound(gen: string, ref: string, n: nat)
    ensures var g, r := NGrams(gen, n), NGrams(ref, n);
      ClippedSum(Distinct(g), multiset(g), multiset(r)) <= |g|
      && ClippedSum(Distinct(g), multiset(g), multiset(r)) <= |r|
  {
    var g, r := NGrams(gen, n), NGrams(ref, n);
    ClippedSumBound(Distinct(g), multiset(g), multiset(r));
    CountSumOfDistinct(g);
    CountSumBound(Distinct(g), r);
  }

  /** The share of the generated text's n-grams that the reference also has,
      each counted at most as often as the reference has it; 0 when the
      generated text is shorter than `n`. */
  function TrigramPrecision(gen: string, ref: string, n: nat): (p: real)
    ensures 0.0 <= p <= 1.0
    ensures |gen| < n ==> p == 0.0
  {
    var g, r := NGrams(gen, n), NGrams(ref, n);
    if g == [] then 0.0
    else
      var cg, cr := multiset(g), multiset(r);
      var overlap := ClippedSum(Distinct(g), cg, cr);
      ClippedNGramsBound(gen, ref, n);
      RatioBounds(overlap, overlap, |g|);
      Ratio(overlap, |g|)
  }

  /** A text long enough to have an n-gram matches itself completely. */
  lemma PrecisionSelf(s: string, n: nat)
    requires |s| >= n
    ensures TrigramPrecision(s, s, n) == 1.0
  {
    var g := NGrams(s, n);
    ClippedSumSelf(Distinct(g), multiset(g));
    CountSumOfDistinct(g);
    RatioBounds(|g|, |g|, |g|);
  }

  /** Texts without a common n-gram have precision 0. */
  lemma PrecisionDisjoint(gen: string, ref: string, n: nat)
    requires forall t :: t in NGrams(gen, n) ==> t !in NGrams(ref, n)
    ensures TrigramPrecision(gen, ref, n) == 0.0
  {
    var g, r := NGrams(gen, n), NGrams(ref, n);
    ClippedSumDisjoint(Distinct(g), multiset(g), multiset(r));
    if g != [] {
      RatioBounds(0, 0, |g|);
    }
  }

  // ---------------------------------------------------------------------
  // trigram_repetition (evaluation.py:13-19)
  // ---------------------------------------------------------------------

  /** `(rep_share, rep_unique)`: the share of n-grams that repeat an earlier
      one, and the number of n-grams occurring more than once, both over the
      number of n-grams; `(0, 0)` when the text is shorter than `n`. */
  function TrigramRepetition(gen: string, n: nat): (rep: (real, real))
    ensures |gen| < n ==> rep == (0.0, 0.0)
    ensures 0.0 <= rep.1 <= rep.0 < 1.0
    ensures var g := NGrams(gen, n);
      |gen| >= n ==> |g| > 0 && rep.0 == Ratio(|g| - |Distinct(g)|, |g|)
  {
    var g := NGrams(gen, n);
    if g == [] then (0.0, 0.0)
    else
      var c := multiset(g);
      var total := |g|;
      var keys := Distinct(g);
      var share, unique := ExcessSum(keys, c), RepeatedSum(keys, c);
      RepetitionCounts(g);
      RatioBounds(unique, share, total);
      RatioBounds(share, share, total);
      (Ratio(share, total), Ratio(unique, total))
  }

  /** The excess is the number of n-grams less the number of distinct ones,
      and at least the number of repeated keys. */
  lemma RepetitionCounts(g: seq<string>)
    requires g != []
    ensures ExcessSum(Distinct(g), multiset(g)) == |g| - |Distinct(g)|
    ensures 1 <= |Distinct(g)|
    ensures RepeatedSum(Distinct(g), multiset(g)) <= ExcessSum(Distinct(g), multiset(g))
  {
    var keys, c := Distinct(g), multiset(g);
    assert g[0] in keys;
    ExcessSumOfPresent(keys, c);
    CountSumOfDistinct(g);
    RepeatedSumBound(keys, c);
  }

  /** "aaaaa" has three trigrams, all "aaa": two repeat the first, and one
      kind repeats. */
  lemma RepetitionExample()
    ensures TrigramRepetition("aaaaa", 3) == (Ratio(2, 3), Ratio(1, 3))
  {
    var g := NGrams("aaaaa", 3);
    assert g == ["aaa", "aaa", "aaa"] by {
      assert g[0] == "aaa" && g[1] == "aaa" && g[2] == "aaa";
    }
    DistinctOfRepeats(g);
    var c := multiset(g);
    assert c["aaa"] == 3;
    assert ExcessSum(["aaa"], c) == 2 by { assert ["aaa"][..0] == []; }
    assert RepeatedSum(["aaa"], c) == 1 by { assert ["aaa"][..0] == []; }
  }

  /** Three copies of one n-gram have that n-gram as their only key. */
  lemma DistinctOfRepeats(g: seq<string>)
    requires g == ["aaa", "aaa", "aaa"]
    ensures Distinct(g) == ["aaa"]
  {
    var d := Distinct(g);
    assert "aaa" in d;
  }
}
