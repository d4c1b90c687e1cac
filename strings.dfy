/** Python `str` operations the poem cleaner relies on, over Dafny strings
    (sequences of Unicode code points): whitespace, the strip family, and
    splitting and joining on '\n'. */
module Strings {

  /** Python's `str.isspace()` for one code point. `str.strip`, `str.lstrip`,
      `str.rstrip` (without arguments) and the regular-expression class `\s`
      all use this table: U+0009..U+000D, U+001C..U+001F, U+0020, U+0085,
      U+00A0, U+1680, U+2000..U+200A, U+2028, U+2029, U+202F, U+205F, U+3000. */
  predicate IsSpace(c: char) {
    ('\t' <= c <= '\r') || ('\U{1C}' <= c <= '\U{1F}') || c == ' '
    || c == '\U{85}' || c == '\U{A0}' || c == '\U{1680}'
    || ('\U{2000}' <= c <= '\U{200A}') || c == '\U{2028}' || c == '\U{2029}'
    || c == '\U{202F}' || c == '\U{205F}' || c == '\U{3000}'
  }

  predicate IsNewline(c: char) { c == '\n' }

  predicate IsQuote(c: char) { c == '"' }

  /** Every element of `s` satisfies `p`. */
  predicate Every<T>(s: seq<T>, p: T -> bool) {
    forall i :: 0 <= i < |s| ==> p(s[i])
  }

  /** Length of the longest prefix of `s` whose elements all satisfy `p`. */
  function LeadingRun<T>(s: seq<T>, p: T -> bool): (k: nat)
    ensures k <= |s|
    ensures forall i :: 0 <= i < k ==> p(s[i])
    ensures k < |s| ==> !p(s[k])
  {
    if s != [] && p(s[0]) then 1 + LeadingRun(s[1..], p) else 0
  }

  /** Length of the longest suffix of `s` whose elements all satisfy `p`. */
  function TrailingRun<T>(s: seq<T>, p: T -> bool): (k: nat)
    ensures k <= |s|
    ensures forall i :: |s| - k <= i < |s| ==> p(s[i])
    ensures k < |s| ==> !p(s[|s| - k - 1])
  {
    if s != [] && p(s[|s| - 1]) then 1 + TrailingRun(s[..|s| - 1], p) else 0
  }

  /** The leading run of a concatenation stops inside the first part unless
      that part is one run entirely. */
  lemma {:induction false} LeadingRunAppend<T>(a: seq<T>, b: seq<T>, p: T -> bool)
    ensures LeadingRun(a + b, p) == if LeadingRun(a, p) < |a| then LeadingRun(a, p) else |a| + LeadingRun(b, p)
  {
    if a != [] {
      assert (a + b)[1..] == a[1..] + b;
      LeadingRunAppend(a[1..], b, p);
    } else {
      assert a + b == b;
    }
  }

  /** The characters of `s` that are not whitespace, in order. */
  function NonSpace(s: string): (r: string)
    ensures |r| <= |s|
  {
    if s == [] then [] else (if IsSpace(s[0]) then [] else [s[0]]) + NonSpace(s[1..])
  }

  lemma {:induction false} NonSpaceAppend(a: string, b: string)
    ensures NonSpace(a + b) == NonSpace(a) + NonSpace(b)
  {
    if a != [] {
      var h := if IsSpace(a[0]) then [] else [a[0]];
      assert (a + b)[0] == a[0] && (a + b)[1..] == a[1..] + b;
      NonSpaceAppend(a[1..], b);
      assert h + (NonSpace(a[1..]) + NonSpace(b)) == (h + NonSpace(a[1..])) + NonSpace(b);
    } else {
      assert a + b == b;
    }
  }

  lemma {:induction false} NonSpaceOfSpaces(s: string)
    requires Every(s, IsSpace)
    ensures NonSpace(s) == []
  {
    if s != [] {
      NonSpaceOfSpaces(s[1..]);
    }
  }

  /** `s.lstrip()`: drops leading whitespace and nothing else. */
  function LStrip(s: string): (r: string)
    ensures |r| <= |s| && r == s[|s| - |r|..]
    ensures forall i :: 0 <= i < |s| - |r| ==> IsSpace(s[i])
    ensures r == [] || !IsSpace(r[0])
  {
    s[LeadingRun(s, IsSpace)..]
  }

  /** `s.rstrip()`: drops trailing whitespace and nothing else. */
  function RStrip(s: string): (r: string)
    ensures |r| <= |s| && r == s[..|r|]
    ensures forall i :: |r| <= i < |s| ==> IsSpace(s[i])
    ensures r == [] || !IsSpace(r[|r| - 1])
  {
    s[..|s| - TrailingRun(s, IsSpace)]
  }

  /** `s.strip()`: the text between the leading and the trailing whitespace. */
  function Strip(s: string): (r: string)
    ensures |r| <= |s|
    ensures r == [] <==> Every(s, IsSpace)
    ensures r != [] ==> !IsSpace(r[0]) && !IsSpace(r[|r| - 1])
  {
    var t := RStrip(s);
    assert Every(t, IsSpace) ==> t == [];
    LStrip(t)
  }

  lemma RStripKeepsEvery(s: string, p: char -> bool)
    requires Every(s, p)
    ensures Every(RStrip(s), p)
  {
    var r := RStrip(s);
    forall i | 0 <= i < |r| ensures p(r[i]) { assert r[i] == s[i]; }
  }

  /** Stripping removes whitespace only. */
  lemma StripKeepsNonSpace(s: string)
    ensures NonSpace(Strip(s)) == NonSpace(s)
  {
    var t := RStrip(s);
    assert s == t + s[|t|..];
    NonSpaceAppend(t, s[|t|..]);
    NonSpaceOfSpaces(s[|t|..]);
    var r := LStrip(t);
    assert t == t[..|t| - |r|] + r;
    NonSpaceAppend(t[..|t| - |r|], r);
    NonSpaceOfSpaces(t[..|t| - |r|]);
  }

  /** `s.startswith(prefix)`. */
  predicate StartsWith(s: string, prefix: string) {
    |prefix| <= |s| && s[..|prefix|] == prefix
  }

  /** Python's `s.split('\n')`: the pieces between newlines, always at least one. */
  function Split(s: string): (ls: seq<string>)
    ensures |ls| >= 1
    ensures forall i :: 0 <= i < |ls| ==> '\n' !in ls[i]
  {
    if s == [] then [[]]
    else
      var rest := Split(s[1..]);
      if s[0] == '\n' then [[]] + rest else [[s[0]] + rest[0]] + rest[1..]
  }

  /** The first piece of a split is the text up to its first newline. */
  lemma {:induction false} SplitFirstPrefix(s: string)
    ensures |Split(s)[0]| <= |s| && Split(s)[0] == s[..|Split(s)[0]|]
    ensures |Split(s)[0]| < |s| ==> s[|Split(s)[0]|] == '\n'
  {
    if s != [] && s[0] != '\n' {
      SplitFirstPrefix(s[1..]);
    }
  }

  /** Python's `'\n'.join(ls)`. */
  function Join(ls: seq<string>): (s: string)
  {
    if ls == [] then []
    else if |ls| == 1 then ls[0]
    else ls[0] + "\n" + Join(ls[1..])
  }

  /** Joining the pieces of a split gives back the text. */
  lemma {:induction false} JoinSplit(s: string)
    ensures Join(Split(s)) == s
  {
    if s != [] {
      var rest := Split(s[1..]);
      JoinSplit(s[1..]);
      if s[0] == '\n' {
        assert Split(s) == [[]] + rest;
        assert s == [] + "\n" + s[1..];
      } else {
        var ls := Split(s);
        assert ls == [[s[0]] + rest[0]] + rest[1..];
        if |rest| == 1 {
          assert s == [s[0]] + rest[0];
        } else {
          assert ls[1..] == rest[1..];
          assert Join(rest) == rest[0] + "\n" + Join(rest[1..]);
          assert s == [s[0]] + Join(rest);
        }
      }
    }
  }

  lemma {:induction false} SplitNoNewline(s: string)
    requires '\n' !in s
    ensures Split(s) == [s]
  {
    if s != [] {
      SplitNoNewline(s[1..]);
      assert s == [s[0]] + s[1..];
    }
  }

  /** A piece without a newline, followed by one, is the first piece of the split. */
  lemma {:induction false} SplitAfterLine(a: string, t: string)
    requires '\n' !in a
    ensures Split(a + "\n" + t) == [a] + Split(t)
  {
    if a == [] {
      assert a + "\n" + t == "\n" + t;
      assert ("\n" + t)[1..] == t;
    } else {
      var s := a + "\n" + t;
      assert s[1..] == a[1..] + "\n" + t;
      SplitAfterLine(a[1..], t);
      assert [s[0]] + a[1..] == a;
    }
  }

  /** Splitting newline-free lines joined by newlines gives the lines back. */
  lemma {:induction false} SplitJoin(ls: seq<string>)
    requires ls != []
    requires forall i :: 0 <= i < |ls| ==> '\n' !in ls[i]
    ensures Split(Join(ls)) == ls
  {
    if |ls| == 1 {
      SplitNoNewline(ls[0]);
    } else {
      SplitJoin(ls[1..]);
      SplitAfterLine(ls[0], Join(ls[1..]));
      assert [ls[0]] + ls[1..] == ls;
    }
  }

  /** Every piece of a split holds only characters of the text. */
  lemma {:induction false} SplitKeepsEvery(s: string, p: char -> bool)
    requires Every(s, p)
    ensures forall i :: 0 <= i < |Split(s)| ==> Every(Split(s)[i], p)
  {
    if s != [] {
      SplitKeepsEvery(s[1..], p);
    }
  }

  /** A join holds only characters of its pieces and newlines. */
  lemma {:induction false} JoinKeepsEvery(ls: seq<string>, p: char -> bool)
    requires p('\n')
    requires forall i :: 0 <= i < |ls| ==> Every(ls[i], p)
    ensures Every(Join(ls), p)
  {
    if |ls| > 1 {
      JoinKeepsEvery(ls[1..], p);
    }
  }
}
