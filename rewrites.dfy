/** The text rewrites of the poem cleaner (data/poems/clean.py). Each regular
    expression substitution is written out as the scan that Python's `re.sub`
    performs: leftmost match first, then the search resumes after the match. */
module Rewrites {
  import opened Wrappers
  import opened Strings

  /** A run of `k` newline characters. */
  function Newlines(k: nat): (r: string)
    ensures |r| == k && Every(r, IsNewline)
  {
    seq(k, _ => '\n')
  }

  // ---------------------------------------------------------------------
  // Line endings (clean.py:35)
  // ---------------------------------------------------------------------

  /** `s.replace('\r\n', '\n')`: non-overlapping occurrences, left to right. */
  function ReplaceCrLf(s: string): (r: string)
    ensures |r| <= |s|
  {
    if |s| >= 2 && s[0] == '\r' && s[1] == '\n' then "\n" + ReplaceCrLf(s[2..])
    else if s == [] then []
    else [s[0]] + ReplaceCrLf(s[1..])
  }

  /** `s.replace('\r', '\n')`. */
  function ReplaceCr(s: string): (r: string)
    ensures |r| == |s| && '\r' !in r
    ensures '\r' !in s ==> r == s
  {
    seq(|s|, i requires 0 <= i < |s| => if s[i] == '\r' then '\n' else s[i])
  }

  /** Both replacements of clean.py:35, in their order. */
  function NormalizeNewlines(s: string): (r: string)
    ensures |r| <= |s| && '\r' !in r
    ensures '\r' !in s ==> r == s
  {
    ReplaceCrLfNoCr(s);
    ReplaceCr(ReplaceCrLf(s))
  }

  /** Without a CR the CRLF replacement changes nothing. */
  lemma {:induction false} ReplaceCrLfNoCr(s: string)
    ensures '\r' !in s ==> ReplaceCrLf(s) == s
  {
    if s != [] && '\r' !in s {
      assert '\r' !in s[1..] by { assert forall c :: c in s[1..] ==> c in s; }
      ReplaceCrLfNoCr(s[1..]);
      assert s == [s[0]] + s[1..];
    }
  }

  lemma ReplaceCrAppend(a: string, b: string)
    ensures ReplaceCr(a + b) == ReplaceCr(a) + ReplaceCr(b)
  {
    var l, r := ReplaceCr(a + b), ReplaceCr(a) + ReplaceCr(b);
    forall i | 0 <= i < |l| ensures l[i] == r[i] {
      if i < |a| { assert (a + b)[i] == a[i]; } else { assert (a + b)[i] == b[i - |a|]; }
    }
  }

  /** The scan of `replace('\r\n', ...)` never runs over the end of `a` unless
      a CR ends `a` and an LF starts `b`. */
  lemma {:induction false} ReplaceCrLfAppend(a: string, b: string)
    requires a == [] || b == [] || a[|a| - 1] != '\r' || b[0] != '\n'
    ensures ReplaceCrLf(a + b) == ReplaceCrLf(a) + ReplaceCrLf(b)
    decreases |a|, 1
  {
    if a == [] {
      assert a + b == b;
    } else if |a| >= 2 && a[0] == '\r' && a[1] == '\n' {
      ReplaceCrLfAppendPair(a, b);
    } else {
      ReplaceCrLfAppendChar(a, b);
    }
  }

  /** A character that does not open a CRLF pair is copied. */
  lemma ReplaceCrLfCons(c: char, s: string)
    requires c != '\r' || s == [] || s[0] != '\n'
    ensures ReplaceCrLf([c] + s) == [c] + ReplaceCrLf(s)
  {
    assert ([c] + s)[1..] == s;
  }

  /** A CRLF pair becomes one LF. */
  lemma ReplaceCrLfPair(s: string)
    ensures ReplaceCrLf("\r\n" + s) == "\n" + ReplaceCrLf(s)
  {
    assert ("\r\n" + s)[2..] == s;
  }

  /** The step of `ReplaceCrLfAppend` where `a` starts with a CRLF pair. */
  lemma {:induction false} ReplaceCrLfAppendPair(a: string, b: string)
    requires |a| >= 2 && a[0] == '\r' && a[1] == '\n'
    requires b == [] || a[|a| - 1] != '\r' || b[0] != '\n'
    ensures ReplaceCrLf(a + b) == ReplaceCrLf(a) + ReplaceCrLf(b)
    decreases |a|, 0
  {
    var rest := a[2..];
    assert a == "\r\n" + rest;
    assert a + b == "\r\n" + (rest + b);
    ReplaceCrLfAppend(rest, b);
    ReplaceCrLfPair(rest);
    ReplaceCrLfPair(rest + b);
    Regroup("\n", ReplaceCrLf(rest), ReplaceCrLf(b));
  }

  /** The step of `ReplaceCrLfAppend` where `a` does not start with a CRLF
      pair: its first character is copied. */
  lemma {:induction false} ReplaceCrLfAppendChar(a: string, b: string)
    requires a != [] && !(|a| >= 2 && a[0] == '\r' && a[1] == '\n')
    requires b == [] || a[|a| - 1] != '\r' || b[0] != '\n'
    ensures ReplaceCrLf(a + b) == ReplaceCrLf(a) + ReplaceCrLf(b)
    decreases |a|, 0
  {
    var c, rest := a[0], a[1..];
    assert a == [c] + rest;
    assert a + b == [c] + (rest + b);
    ReplaceCrLfAppend(rest, b);
    ReplaceCrLfCons(c, rest);
    if rest == [] {
      assert rest + b == b;
    } else {
      assert (rest + b)[0] == rest[0];
    }
    ReplaceCrLfCons(c, rest + b);
    Regroup([c], ReplaceCrLf(rest), ReplaceCrLf(b));
  }

  /** Each CRLF pair becomes one LF, whatever surrounds it. */
  lemma CrLfBecomesNewline(a: string, b: string)
    ensures NormalizeNewlines(a + "\r\n" + b) == NormalizeNewlines(a) + "\n" + NormalizeNewlines(b)
  {
    var t := "\r\n" + b;
    assert a + "\r\n" + b == a + t;
    var x, y := ReplaceCrLf(a), ReplaceCrLf(b);
    ReplaceCrLfAppend(a, t);
    ReplaceCrLfPair(b);
    assert ReplaceCrLf(a + t) == x + ("\n" + y);
    ReplaceCrAppend(x, "\n" + y);
    ReplaceCrAppend("\n", y);
    assert ReplaceCr("\n") == "\n";
    Regroup(ReplaceCr(x), "\n", ReplaceCr(y));
  }

  /** A CR that is not followed by an LF becomes one LF. */
  lemma LoneCrBecomesNewline(a: string, b: string)
    requires b == [] || b[0] != '\n'
    ensures NormalizeNewlines(a + "\r" + b) == NormalizeNewlines(a) + "\n" + NormalizeNewlines(b)
  {
    var t := "\r" + b;
    assert a + "\r" + b == a + t;
    var x, y := ReplaceCrLf(a), ReplaceCrLf(b);
    ReplaceCrLfAppend(a, t);
    ReplaceCrLfCons('\r', b);
    assert ReplaceCrLf(a + t) == x + ("\r" + y);
    ReplaceCrAppend(x, "\r" + y);
    ReplaceCrAppend("\r", y);
    assert ReplaceCr("\r") == "\n";
    Regroup(ReplaceCr(x), "\n", ReplaceCr(y));
  }

  // ---------------------------------------------------------------------
  // Block comments: re.sub(r"/\*.*?\*/", "", s, flags=re.DOTALL) (clean.py:39)
  // ---------------------------------------------------------------------

  predicate OpensAt(s: string, i: nat) {
    i + 2 <= |s| && s[i] == '/' && s[i + 1] == '*'
  }

  predicate ClosesAt(s: string, i: nat) {
    i + 2 <= |s| && s[i] == '*' && s[i + 1] == '/'
  }

  ghost predicate NoOpener(s: string) {
    forall i: nat :: !OpensAt(s, i)
  }

  ghost predicate NoCloser(s: string) {
    forall i: nat :: !ClosesAt(s, i)
  }

  /** The nearest "*" "/" pair starting at or after `j`: what the lazy `.*?`
      stops at. */
  function CommentEnd(s: string, j: nat): (r: Option<nat>)
    decreases |s| - j
    ensures r.Some? ==> j <= r.value && ClosesAt(s, r.value)
    ensures r.Some? ==> forall m: nat :: j <= m < r.value ==> !ClosesAt(s, m)
    ensures r.None? ==> forall m: nat :: j <= m ==> !ClosesAt(s, m)
  {
    if j + 2 > |s| then None
    else if ClosesAt(s, j) then Some(j)
    else CommentEnd(s, j + 1)
  }

  /** Deletes, scanning left to right, each opener together with everything
      up to and including the nearest closer after it. An opener with no
      closer after it is kept, and the scan moves on by one character. */
  function StripBlockComments(s: string): (r: string)
    ensures |r| <= |s|
    decreases |s|
  {
    if s == [] then []
    else if OpensAt(s, 0) && CommentEnd(s, 2).Some? then StripBlockComments(s[CommentEnd(s, 2).value + 2..])
    else [s[0]] + StripBlockComments(s[1..])
  }

  /** A prefix in which no opener starts passes through unchanged. */
  lemma {:induction false} StripBlockCommentsPlainPrefix(a: string, t: string)
    requires NoOpener(a)
    requires t != [] && t[0] == '/'
    ensures StripBlockComments(a + t) == a + StripBlockComments(t)
  {
    if a != [] {
      var s := a + t;
      assert !OpensAt(s, 0) by {
        if |a| >= 2 { assert !OpensAt(a, 0); } else { assert s[1] == '/'; }
      }
      assert s[1..] == a[1..] + t;
      assert NoOpener(a[1..]) by {
        forall i: nat ensures !OpensAt(a[1..], i) { assert !OpensAt(a, i + 1); }
      }
      assert StripBlockComments(s) == [s[0]] + StripBlockComments(s[1..]);
      StripBlockCommentsPlainPrefix(a[1..], t);
      assert s[0] == a[0];
      Regroup([a[0]], a[1..], StripBlockComments(t));
      assert a == [a[0]] + a[1..];
    } else {
      assert a + t == t;
    }
  }

  /** Text without any opener is left unchanged. */
  lemma {:induction false} NoOpenerUnchanged(s: string)
    requires NoOpener(s)
    ensures StripBlockComments(s) == s
  {
    if s != [] {
      assert !OpensAt(s, 0);
      assert NoOpener(s[1..]) by {
        forall i: nat ensures !OpensAt(s[1..], i) { assert !OpensAt(s, i + 1); }
      }
      NoOpenerUnchanged(s[1..]);
    }
  }

  /** Text without any closer is left unchanged: an unmatched opener stays. */
  lemma {:induction false} NoCloserUnchanged(s: string)
    requires NoCloser(s)
    ensures StripBlockComments(s) == s
  {
    if s != [] {
      assert NoCloser(s[1..]) by {
        forall i: nat ensures !ClosesAt(s[1..], i) { assert !ClosesAt(s, i + 1); }
      }
      NoCloserUnchanged(s[1..]);
      if |s| >= 2 {
        assert CommentEnd(s, 2).None?;
      }
    }
  }

  /** The leftmost opener is deleted together with everything up to and
      including the nearest closer after it; the scan then resumes. */
  lemma RemovesLeftmostComment(a: string, c: string, b: string)
    requires NoOpener(a) && NoCloser(c)
    ensures StripBlockComments(a + "/*" + c + "*/" + b) == a + StripBlockComments(b)
  {
    var t := "/*" + c + "*/" + b;
    assert a + "/*" + c + "*/" + b == a + t;
    StripBlockCommentsPlainPrefix(a, t);
    var k := 2 + |c|;
    FirstCloserAfter(c, b);
    assert OpensAt(t, 0);
    assert t[k + 2..] == b;
  }

  /** The lazy `.*?` after an opener stops at the first closer: the one
      that follows a closer-free `c`. */
  lemma FirstCloserAfter(c: string, b: string)
    requires NoCloser(c)
    ensures CommentEnd("/*" + c + "*/" + b, 2) == Some(2 + |c|)
  {
    var t := "/*" + c + "*/" + b;
    var k := 2 + |c|;
    assert t == "/*" + c + ("*/" + b);
    assert t[k] == '*' && t[k + 1] == '/';
    assert ClosesAt(t, k);
    forall m: nat | 2 <= m < k ensures !ClosesAt(t, m) {
      if m + 1 < k {
        assert t[m] == c[m - 2] && t[m + 1] == c[m - 1];
        assert !ClosesAt(c, m - 2);
      } else {
        assert t[m + 1] == '*';
      }
    }
  }

  lemma UnmatchedOpenerAlone(c: string)
    requires NoCloser(c)
    ensures StripBlockComments("/*" + c) == "/*" + c
  {
    var t := "/*" + c;
    forall m: nat | 2 <= m ensures !ClosesAt(t, m) {
      assert !ClosesAt(c, m - 2);
      if m + 2 <= |t| { assert t[m] == c[m - 2] && t[m + 1] == c[m - 1]; }
    }
    assert CommentEnd(t, 2).None?;
    var u := t[1..];
    assert u == "*" + c && u[1..] == c;
    assert StripBlockComments(u) == "*" + StripBlockComments(c);
    NoCloserUnchanged(c);
  }

  /** An opener with no closer anywhere after it is kept. */
  lemma UnmatchedOpenerKept(a: string, c: string)
    requires NoOpener(a) && NoCloser(c)
    ensures StripBlockComments(a + "/*" + c) == a + "/*" + c
  {
    assert a + "/*" + c == a + ("/*" + c);
    StripBlockCommentsPlainPrefix(a, "/*" + c);
    UnmatchedOpenerAlone(c);
  }

  /** One pass is not enough to leave no comment behind: deleting an inner
      comment can join an outer slash and star into a new complete comment. */
  lemma SinglePassCanLeaveComment()
    ensures StripBlockComments("//**/*x*/") == "/*x*/"
  {
    var s := "//**/*x*/";
    assert !OpensAt(s, 0);
    var t := s[1..];
    assert OpensAt(t, 0);
    assert ClosesAt(t, 2);
    assert CommentEnd(t, 2) == Some(2);
    assert t[4..] == "*x*/";
    assert NoOpener("*x*/") by {
      forall i: nat ensures !OpensAt("*x*/", i) {}
    }
    NoOpenerUnchanged("*x*/");
  }

  // ---------------------------------------------------------------------
  // CSV quote artefacts (clean.py:42-43)
  // ---------------------------------------------------------------------

  predicate IsQuoteOrSpace(c: char) { IsQuote(c) || IsSpace(c) }

  /** `re.sub(r'^"+\s*', '', s)`: the leading quotes and the whitespace after them. */
  function StripLeadingQuotes(s: string): (r: string)
    ensures |r| <= |s| && r == s[|s| - |r|..]
    ensures r == s <==> (s == [] || s[0] != '"')
    ensures forall i :: 0 <= i < |s| - |r| ==> IsQuoteOrSpace(s[i])
    ensures r != s ==> r == [] || !IsSpace(r[0])
  {
    var q := LeadingRun(s, IsQuote);
    if q == 0 then s else LStrip(s[q..])
  }

  /** The text without its trailing quotes and the whitespace just before them. */
  function DropQuotedTail(t: string): (r: string)
    ensures |r| <= |t| && r == t[..|r|]
    ensures forall i :: |r| <= i < |t| ==> IsQuoteOrSpace(t[i])
    ensures t != [] && t[|t| - 1] == '"' ==> |r| < |t|
  {
    RStrip(t[..|t| - TrailingRun(t, IsQuote)])
  }

  /** `re.sub(r'\s*"+$', '', s)`. Python's `$` matches at the end of the text
      and also just before a final newline, which then stays. */
  function StripTrailingQuotes(s: string): (r: string)
    ensures |r| <= |s|
    ensures '"' !in s ==> r == s
    ensures s != [] && s[|s| - 1] == '"' ==>
              |r| < |s| && r == s[..|r|] && forall i :: |r| <= i < |s| ==> IsQuoteOrSpace(s[i])
    ensures |s| >= 2 && s[|s| - 1] == '\n' && s[|s| - 2] == '"' ==>
              1 <= |r| < |s| && r == s[..|r| - 1] + "\n" && forall i :: |r| - 1 <= i < |s| - 1 ==> IsQuoteOrSpace(s[i])
  {
    if s != [] && s[|s| - 1] == '"' then DropQuotedTail(s)
    else if |s| >= 2 && s[|s| - 1] == '\n' && s[|s| - 2] == '"' then DropQuotedTail(s[..|s| - 1]) + "\n"
    else s
  }

  // ---------------------------------------------------------------------
  // Blank-line collapse (clean.py:62-63)
  // ---------------------------------------------------------------------

  /** `re.sub(r'\n\n', '\n', s)`: non-overlapping pairs, left to right. */
  function CollapsePairs(s: string): (r: string)
    ensures |r| <= |s|
  {
    if |s| < 2 then s
    else if s[0] == '\n' && s[1] == '\n' then "\n" + CollapsePairs(s[2..])
    else [s[0]] + CollapsePairs(s[1..])
  }

  /** The number of newlines `s` starts with. */
  function LeadingNewlines(s: string): (k: nat)
    ensures k <= |s|
  {
    if s != [] && s[0] == '\n' then 1 + LeadingNewlines(s[1..]) else 0
  }

  lemma {:induction false} LeadingNewlinesStop(s: string)
    ensures forall i :: 0 <= i < LeadingNewlines(s) ==> s[i] == '\n'
    ensures LeadingNewlines(s) < |s| ==> s[LeadingNewlines(s)] != '\n'
  {
    if s != [] && s[0] == '\n' { LeadingNewlinesStop(s[1..]); }
  }

  lemma {:induction false} LeadingNewlinesAppend(a: string, b: string)
    ensures LeadingNewlines(a + b) == if LeadingNewlines(a) < |a| then LeadingNewlines(a) else |a| + LeadingNewlines(b)
  {
    if a != [] {
      assert (a + b)[1..] == a[1..] + b;
      LeadingNewlinesAppend(a[1..], b);
    } else {
      assert a + b == b;
    }
  }

  lemma {:induction false} LeadingNewlinesOfNewlines(m: nat)
    ensures LeadingNewlines(Newlines(m)) == m
  {
    if m > 0 {
      assert Newlines(m)[1..] == Newlines(m - 1);
      LeadingNewlinesOfNewlines(m - 1);
    }
  }

  /** `re.sub(r'\n\n\n+', '\n\n', s)`: each maximal run of three or more
      newlines (the `+` is greedy) becomes exactly two. */
  function CollapseRuns(s: string): string
    decreases |s|
  {
    if s == [] then []
    else
      var k := LeadingNewlines(s);
      if k >= 3 then "\n\n" + CollapseRuns(s[k..]) else [s[0]] + CollapseRuns(s[1..])
  }

  /** The second pass empties nothing and keeps a first character that is
      not a newline. */
  lemma CollapseRunsFirst(s: string)
    ensures CollapseRuns(s) == [] <==> s == []
    ensures s != [] && s[0] != '\n' ==> CollapseRuns(s)[0] == s[0]
  {
  }

  /** A leading run of three or more newlines comes out as two; a shorter
      one is kept. */
  lemma {:induction false} CollapseRunsLeading(s: string)
    ensures LeadingNewlines(CollapseRuns(s)) == if LeadingNewlines(s) >= 3 then 2 else LeadingNewlines(s)
    decreases |s|
  {
    if s != [] {
      var k := LeadingNewlines(s);
      if k >= 3 {
        var t := CollapseRuns(s[k..]);
        LeadingNewlinesStop(s);
        CollapseRunsFirst(s[k..]);
        assert LeadingNewlines(t) == 0;
        LeadingNewlinesAppend("\n\n", t);
      } else {
        CollapseRunsLeading(s[1..]);
        LeadingNewlinesAppend([s[0]], CollapseRuns(s[1..]));
      }
    }
  }

  /** Both passes of clean.py:62-63, in their order. The result holds no
      three newlines in a row. */
  function CollapseBlankLines(s: string): (r: string)
    ensures NoTripleNewline(r)
  {
    CollapseRunsNoTriple(CollapsePairs(s));
    CollapseRuns(CollapsePairs(s))
  }

  /** No three newlines in a row. */
  predicate NoTripleNewline(s: string) {
    forall i :: 0 <= i < |s| - 2 ==> !(s[i] == '\n' && s[i + 1] == '\n' && s[i + 2] == '\n')
  }

  /** After the second pass no run of three or more newlines remains. */
  lemma {:induction false} CollapseRunsNoTriple(s: string)
    ensures NoTripleNewline(CollapseRuns(s))
    decreases |s|
  {
    if s != [] {
      var k := LeadingNewlines(s);
      var r := CollapseRuns(s);
      if k >= 3 {
        var t := CollapseRuns(s[k..]);
        CollapseRunsNoTriple(s[k..]);
        LeadingNewlinesStop(s);
        CollapseRunsFirst(s[k..]);
        assert r == "\n\n" + t;
        NoTriplePair(t);
      } else {
        var t := CollapseRuns(s[1..]);
        CollapseRunsNoTriple(s[1..]);
        assert r == [s[0]] + t;
        CollapseRunsLeading(s[1..]);
        NoTripleCons(s[0], t);
      }
    }
  }

  /** Two newlines in front of a text that starts with no newline make no
      triple. */
  lemma NoTriplePair(t: string)
    requires NoTripleNewline(t) && (t == [] || t[0] != '\n')
    ensures NoTripleNewline("\n\n" + t)
  {
    var r := "\n\n" + t;
    forall i | 0 <= i < |r| - 2 ensures !(r[i] == '\n' && r[i + 1] == '\n' && r[i + 2] == '\n') {
      if i >= 2 { assert r[i] == t[i - 2] && r[i + 1] == t[i - 1] && r[i + 2] == t[i]; }
      else { assert r[2] == t[0]; }
    }
  }

  /** A character in front of a text makes no triple when it is not a
      newline or the text starts with at most one. */
  lemma NoTripleCons(c: char, t: string)
    requires NoTripleNewline(t) && (c != '\n' || LeadingNewlines(t) <= 1)
    ensures NoTripleNewline([c] + t)
  {
    var r := [c] + t;
    forall i | 0 <= i < |r| - 2 ensures !(r[i] == '\n' && r[i + 1] == '\n' && r[i + 2] == '\n') {
      if i >= 1 { assert r[i] == t[i - 1] && r[i + 1] == t[i] && r[i + 2] == t[i + 1]; }
      else if c == '\n' {
        assert r[1] == t[0] && r[2] == t[1];
        if t[0] == '\n' { assert t[1..][0] == t[1]; }
      }
    }
  }

  /** The first pass halves a run of newlines, rounding up. */
  lemma {:induction false} CollapsePairsNewlines(k: nat)
    ensures CollapsePairs(Newlines(k)) == Newlines((k + 1) / 2)
  {
    if k >= 2 {
      assert Newlines(k)[2..] == Newlines(k - 2);
      CollapsePairsNewlines(k - 2);
      assert "\n" + Newlines((k - 1) / 2) == Newlines((k + 1) / 2);
    }
  }

  /** The pair scan never runs over the end of `a` unless a newline ends `a`
      and another starts `b`. */
  lemma {:induction false} CollapsePairsAppend(a: string, b: string)
    requires a == [] || b == [] || a[|a| - 1] != '\n' || b[0] != '\n'
    ensures CollapsePairs(a + b) == CollapsePairs(a) + CollapsePairs(b)
  {
    if a == [] {
      assert a + b == b;
    } else if |a| == 1 {
      if b != [] {
        assert (a + b)[1..] == b;
      } else {
        assert a + b == a;
      }
    } else if a[0] == '\n' && a[1] == '\n' {
      assert (a + b)[2..] == a[2..] + b;
      CollapsePairsAppend(a[2..], b);
      Regroup("\n", CollapsePairs(a[2..]), CollapsePairs(b));
    } else {
      assert (a + b)[1..] == a[1..] + b;
      CollapsePairsAppend(a[1..], b);
      Regroup([a[0]], CollapsePairs(a[1..]), CollapsePairs(b));
    }
  }

  /** The first pass empties nothing and keeps a first character that is
      not a newline. */
  lemma CollapsePairsFirst(s: string)
    ensures CollapsePairs(s) == [] <==> s == []
    ensures s != [] && s[0] != '\n' ==> CollapsePairs(s)[0] == s[0]
  {
  }

  lemma CollapsePairsLast(x: string)
    requires x != [] && x[|x| - 1] != '\n'
    ensures CollapsePairs(x) != [] && CollapsePairs(x)[|CollapsePairs(x)| - 1] == x[|x| - 1]
  {
    var c := x[|x| - 1];
    CollapsePairsAppend(x[..|x| - 1], [c]);
    assert x[..|x| - 1] + [c] == x;
  }

  /** The run scan never runs over the end of `a` unless a newline ends `a`
      and another starts `b`. */
  lemma LeadingNewlinesBounded(a: string, b: string)
    requires a != []
    requires b == [] || a[|a| - 1] != '\n' || b[0] != '\n'
    ensures LeadingNewlines(a + b) == LeadingNewlines(a)
  {
    LeadingNewlinesAppend(a, b);
    if LeadingNewlines(a) == |a| {
      LeadingNewlinesStop(a);
      assert a[|a| - 1] == '\n';
      assert b == [] || LeadingNewlines(b) == 0;
    }
  }

  lemma {:induction false} CollapseRunsAppend(a: string, b: string)
    requires a == [] || b == [] || a[|a| - 1] != '\n' || b[0] != '\n'
    ensures CollapseRuns(a + b) == CollapseRuns(a) + CollapseRuns(b)
    decreases |a|, 1
  {
    if a == [] {
      assert a + b == b;
    } else {
      LeadingNewlinesBounded(a, b);
      CollapseRunsAppendStep(a, b);
    }
  }

  /** One step of the scan over `a + b`, the rest by induction. */
  lemma {:induction false} CollapseRunsAppendStep(a: string, b: string)
    requires a != []
    requires b == [] || a[|a| - 1] != '\n' || b[0] != '\n'
    requires LeadingNewlines(a + b) == LeadingNewlines(a)
    ensures CollapseRuns(a + b) == CollapseRuns(a) + CollapseRuns(b)
    decreases |a|, 0
  {
    var k := LeadingNewlines(a);
    var j := if k >= 3 then k else 1;
    var a' := a[j..];
    assert (a + b)[j..] == a' + b;
    assert a' == [] || a'[|a'| - 1] == a[|a| - 1];
    CollapseRunsAppend(a', b);
    var head := if k >= 3 then "\n\n" else [a[0]];
    CollapseRunsUnfold(a + b, j, head);
    CollapseRunsUnfold(a, j, head);
    Regroup(head, CollapseRuns(a'), CollapseRuns(b));
  }

  lemma Regroup(h: string, x: string, y: string)
    ensures h + (x + y) == (h + x) + y
  {
  }

  /** One step of the scan, as an equation. */
  lemma CollapseRunsUnfold(s: string, j: nat, head: string)
    requires s != []
    requires j == if LeadingNewlines(s) >= 3 then LeadingNewlines(s) else 1
    requires head == if LeadingNewlines(s) >= 3 then "\n\n" else [s[0]]
    ensures CollapseRuns(s) == head + CollapseRuns(s[j..])
  {
  }

  lemma CollapseRunsNewlines(m: nat)
    ensures CollapseRuns(Newlines(m)) == Newlines(if m >= 3 then 2 else m)
  {
    LeadingNewlinesOfNewlines(m);
    if m >= 3 {
      assert Newlines(m)[m..] == [];
    } else if m == 2 {
      assert Newlines(2)[1..] == Newlines(1);
      LeadingNewlinesOfNewlines(1);
    }
  }

  /** The first pass on a maximal run: the run is halved (rounding up), the
      text on either side is treated on its own. */
  lemma CollapsePairsRun(x: string, k: nat, y: string)
    requires x == [] || x[|x| - 1] != '\n'
    requires y == [] || y[0] != '\n'
    ensures CollapsePairs(x + Newlines(k) + y) == CollapsePairs(x) + Newlines((k + 1) / 2) + CollapsePairs(y)
  {
    var n := Newlines(k);
    assert x + n + y == x + (n + y);
    CollapsePairsAppend(x, n + y);
    CollapsePairsAppend(n, y);
    CollapsePairsNewlines(k);
    Regroup(CollapsePairs(x), Newlines((k + 1) / 2), CollapsePairs(y));
  }

  /** The second pass on a maximal run of m >= 1 newlines. */
  lemma CollapseRunsRun(x: string, m: nat, y: string)
    requires m >= 1
    requires x == [] || x[|x| - 1] != '\n'
    requires y == [] || y[0] != '\n'
    ensures CollapseRuns(x + Newlines(m) + y) == CollapseRuns(x) + Newlines(if m >= 3 then 2 else m) + CollapseRuns(y)
  {
    var n := Newlines(m);
    assert x + n + y == x + (n + y);
    assert (n + y)[0] == '\n';
    CollapseRunsAppend(x, n + y);
    assert n[|n| - 1] == '\n';
    CollapseRunsAppend(n, y);
    CollapseRunsNewlines(m);
    Regroup(CollapseRuns(x), Newlines(if m >= 3 then 2 else m), CollapseRuns(y));
  }

  /** A maximal run of k newlines comes out of both passes as one newline
      when k is 1 or 2 and as two newlines (one blank line) when k >= 3; the
      text on either side is collapsed on its own. */
  lemma CollapseBlankLinesRun(x: string, k: nat, y: string)
    requires k >= 1
    requires x == [] || x[|x| - 1] != '\n'
    requires y == [] || y[0] != '\n'
    ensures CollapseBlankLines(x + Newlines(k) + y)
         == CollapseBlankLines(x) + Newlines(if k <= 2 then 1 else 2) + CollapseBlankLines(y)
  {
    var m := (k + 1) / 2;
    CollapsePairsRun(x, k, y);
    var x', y' := CollapsePairs(x), CollapsePairs(y);
    if x != [] { CollapsePairsLast(x); }
    CollapsePairsFirst(y);
    CollapseRunsRun(x', m, y');
  }

  /** Collapsing is not idempotent: three newlines become two, and a second
      application turns those two into one. */
  lemma CollapseNotIdempotent()
    ensures CollapseBlankLines("a\n\n\nb") == "a\n\nb"
    ensures CollapseBlankLines("a\n\nb") == "a\nb"
  {
    assert "a\n\n\nb" == "a" + Newlines(3) + "b";
    assert "a\n\nb" == "a" + Newlines(2) + "b";
    CollapseBlankLinesRun("a", 3, "b");
    CollapseBlankLinesRun("a", 2, "b");
    assert CollapseBlankLines("a") == "a";
    assert CollapseBlankLines("b") == "b";
  }

  // ---------------------------------------------------------------------
  // Control characters (clean.py:66-69)
  // ---------------------------------------------------------------------

  /** A character survives clean.py:68: a newline, a tab, or one outside
      Unicode's general category C. */
  predicate KeptChar(isControl: char -> bool, c: char) {
    c == '\n' || c == '\t' || !isControl(c)
  }

  /** Keeps exactly the kept characters, in order. */
  function RemoveControl(isControl: char -> bool, s: string): (r: string)
    ensures |r| <= |s|
    ensures forall i :: 0 <= i < |r| ==> KeptChar(isControl, r[i])
    ensures forall c :: multiset(r)[c] == if KeptChar(isControl, c) then multiset(s)[c] else 0
  {
    if s == [] then []
    else
      assert s == [s[0]] + s[1..];
      (if KeptChar(isControl, s[0]) then [s[0]] else []) + RemoveControl(isControl, s[1..])
  }

  /** Characters are filtered one by one: the kept characters of a
      concatenation are those of each part, in order. */
  lemma {:induction false} RemoveControlAppend(isControl: char -> bool, a: string, b: string)
    ensures RemoveControl(isControl, a + b) == RemoveControl(isControl, a) + RemoveControl(isControl, b)
  {
    if a == [] {
      assert a + b == b;
    } else {
      var h := if KeptChar(isControl, a[0]) then [a[0]] else [];
      assert (a + b)[0] == a[0] && (a + b)[1..] == a[1..] + b;
      RemoveControlAppend(isControl, a[1..], b);
      Regroup(h, RemoveControl(isControl, a[1..]), RemoveControl(isControl, b));
    }
  }

  // ---------------------------------------------------------------------
  // Final per-line right trim (clean.py:72)
  // ---------------------------------------------------------------------

  function RStripAll(ls: seq<string>): (r: seq<string>)
    ensures |r| == |ls|
    ensures forall i :: 0 <= i < |r| ==> r[i] == RStrip(ls[i])
  {
    seq(|ls|, i requires 0 <= i < |ls| => RStrip(ls[i]))
  }

  /** `'\n'.join(part.rstrip() for part in s.split('\n'))`: the text keeps
      its number of lines. */
  function RStripLines(s: string): (r: string)
    ensures |Split(r)| == |Split(s)|
  {
    SplitJoin(RStripAll(Split(s)));
    Join(RStripAll(Split(s)))
  }

  /** No line of the result ends in whitespace, the result has as many lines
      as the text, and it holds no character the text lacks except newlines. */
  lemma RStripLinesShape(s: string, p: char -> bool)
    requires Every(s, p) && p('\n')
    ensures var r := RStripLines(s);
      |Split(r)| == |Split(s)|
      && (forall i :: 0 <= i < |Split(r)| ==> Split(r)[i] == RStrip(Split(s)[i]))
      && (forall i :: 0 <= i < |Split(r)| ==> Split(r)[i] == [] || !IsSpace(Split(r)[i][|Split(r)[i]| - 1]))
      && Every(r, p)
  {
    var ls := RStripAll(Split(s));
    SplitJoin(ls);
    SplitKeepsEvery(s, p);
    forall i | 0 <= i < |ls| ensures Every(ls[i], p) {
      RStripKeepsEvery(Split(s)[i], p);
    }
    JoinKeepsEvery(ls, p);
  }

  /** No line of `s` ends in whitespace. */
  predicate LinesTrimmed(s: string) {
    var lines := Split(s);
    forall i :: 0 <= i < |lines| ==> lines[i] == [] || !IsSpace(lines[i][|lines[i]| - 1])
  }

  /** No line of the result ends in whitespace. */
  lemma RStripLinesTrimmed(s: string)
    ensures LinesTrimmed(RStripLines(s))
  {
    SplitJoin(RStripAll(Split(s)));
  }

  // ---------------------------------------------------------------------
  // Title whitespace: re.sub(r'\s+', ' ', s) (clean.py:84)
  // ---------------------------------------------------------------------

  /** Each maximal whitespace run becomes a single space. */
  function CollapseSpaces(s: string): (r: string)
    ensures |r| <= |s|
    decreases |s|
  {
    if s == [] then []
    else
      var k := LeadingRun(s, IsSpace);
      if k > 0 then " " + CollapseSpaces(s[k..]) else [s[0]] + CollapseSpaces(s[1..])
  }

  /** Collapsing empties nothing, and the result starts and ends with
      whitespace exactly when the text does. */
  lemma {:induction false} CollapseSpacesEnds(s: string)
    ensures CollapseSpaces(s) == [] <==> s == []
    ensures s != [] ==> (IsSpace(CollapseSpaces(s)[0]) <==> IsSpace(s[0]))
    ensures s != [] ==> (IsSpace(CollapseSpaces(s)[|CollapseSpaces(s)| - 1]) <==> IsSpace(s[|s| - 1]))
    decreases |s|
  {
    if s != [] {
      var k := LeadingRun(s, IsSpace);
      var r := CollapseSpaces(s);
      if k > 0 {
        var t := CollapseSpaces(s[k..]);
        assert r == " " + t;
        if k < |s| {
          CollapseSpacesEnds(s[k..]);
          assert s[k..][|s[k..]| - 1] == s[|s| - 1];
        } else {
          assert IsSpace(s[|s| - 1]);
        }
      } else {
        var t := CollapseSpaces(s[1..]);
        assert r == [s[0]] + t;
        if |s| > 1 {
          CollapseSpacesEnds(s[1..]);
          assert s[1..][|s[1..]| - 1] == s[|s| - 1];
        }
      }
    }
  }

  /** Every whitespace character is a plain space with no whitespace right
      after it. */
  predicate SingleSpaced(r: string) {
    forall i :: 0 <= i < |r| && IsSpace(r[i]) ==> r[i] == ' ' && (i + 1 < |r| ==> !IsSpace(r[i + 1]))
  }

  /** Collapsing leaves only single plain spaces. */
  lemma {:induction false} CollapseSpacesSingle(s: string)
    ensures SingleSpaced(CollapseSpaces(s))
    decreases |s|
  {
    if s != [] {
      var k := LeadingRun(s, IsSpace);
      var r := CollapseSpaces(s);
      if k > 0 {
        var t := CollapseSpaces(s[k..]);
        assert r == " " + t;
        CollapseSpacesSingle(s[k..]);
        if k < |s| {
          CollapseSpacesEnds(s[k..]);
          assert !IsSpace(s[k..][0]);
        }
        forall i | 0 <= i < |r| && IsSpace(r[i]) ensures r[i] == ' ' && (i + 1 < |r| ==> !IsSpace(r[i + 1])) {
          if i > 0 { assert r[i] == t[i - 1]; assert IsSpace(t[i - 1]); assert i + 1 < |r| ==> r[i + 1] == t[i]; }
          else { assert 1 < |r| ==> r[1] == t[0]; }
        }
      } else {
        var t := CollapseSpaces(s[1..]);
        assert r == [s[0]] + t;
        CollapseSpacesSingle(s[1..]);
        forall i | 0 <= i < |r| && IsSpace(r[i]) ensures r[i] == ' ' && (i + 1 < |r| ==> !IsSpace(r[i + 1])) {
          assert i > 0;
          assert r[i] == t[i - 1];
          assert IsSpace(t[i - 1]);
          assert i + 1 < |r| ==> r[i + 1] == t[i];
        }
      }
    }
  }

  /** Collapsing changes whitespace only. */
  lemma {:induction false} CollapseSpacesNonSpace(s: string)
    ensures NonSpace(CollapseSpaces(s)) == NonSpace(s)
    decreases |s|
  {
    if s != [] {
      var k := LeadingRun(s, IsSpace);
      var j := if k > 0 then k else 1;
      var head := if k > 0 then " " else [s[0]];
      var t := CollapseSpaces(s[j..]);
      CollapseSpacesUnfold(s, j, head);
      CollapseSpacesNonSpace(s[j..]);
      assert s == s[..j] + s[j..];
      NonSpaceAppend(s[..j], s[j..]);
      NonSpaceAppend(head, t);
      if k > 0 {
        NonSpaceOfSpaces(s[..j]);
        NonSpaceOfSpaces(head);
      } else {
        assert s[..j] == head;
      }
    }
  }

  /** No whitespace anywhere in `s`. */
  predicate Spaceless(s: string) {
    forall i :: 0 <= i < |s| ==> !IsSpace(s[i])
  }

  /** A text without whitespace is left as it is. */
  lemma {:induction false} CollapseSpacesSpaceless(s: string)
    requires Spaceless(s)
    ensures CollapseSpaces(s) == s
    decreases |s|
  {
    if s != [] {
      assert LeadingRun(s, IsSpace) == 0;
      CollapseSpacesSpaceless(s[1..]);
      assert s == [s[0]] + s[1..];
    }
  }

  /** A whitespace run in front of a text that does not start with
      whitespace becomes one space. */
  lemma SpaceRunBecomesSpace(w: string, y: string)
    requires w != [] && Every(w, IsSpace)
    requires y == [] || !IsSpace(y[0])
    ensures CollapseSpaces(w + y) == " " + CollapseSpaces(y)
  {
    LeadingRunAppend(w, y, IsSpace);
    assert LeadingRun(w, IsSpace) == |w|;
    assert LeadingRun(y, IsSpace) == 0;
    assert (w + y)[|w|..] == y;
  }

  /** One step of the scan, as an equation. */
  lemma CollapseSpacesUnfold(s: string, j: nat, head: string)
    requires s != []
    requires j == if LeadingRun(s, IsSpace) > 0 then LeadingRun(s, IsSpace) else 1
    requires head == if LeadingRun(s, IsSpace) > 0 then " " else [s[0]]
    ensures CollapseSpaces(s) == head + CollapseSpaces(s[j..])
  {
  }

  /** Collapsing works piece by piece when the cut is not inside a
      whitespace run. */
  lemma {:induction false} CollapseSpacesAppend(a: string, b: string)
    requires a == [] || b == [] || !IsSpace(a[|a| - 1]) || !IsSpace(b[0])
    ensures CollapseSpaces(a + b) == CollapseSpaces(a) + CollapseSpaces(b)
    decreases |a|, 1
  {
    if a == [] {
      assert a + b == b;
    } else if b == [] {
      assert a + b == a;
    } else {
      LeadingRunAppend(a, b, IsSpace);
      if LeadingRun(a, IsSpace) < |a| {
        CollapseSpacesAppendStep(a, b);
      } else {
        assert IsSpace(a[|a| - 1]);
        SpaceRunBecomesSpace(a, b);
        assert a + [] == a;
        SpaceRunBecomesSpace(a, []);
      }
    }
  }

  /** One step of the scan over `a + b` that stays inside `a`, the rest by
      induction. */
  lemma {:induction false} CollapseSpacesAppendStep(a: string, b: string)
    requires a != []
    requires b == [] || !IsSpace(a[|a| - 1]) || !IsSpace(b[0])
    requires LeadingRun(a + b, IsSpace) == LeadingRun(a, IsSpace) < |a|
    ensures CollapseSpaces(a + b) == CollapseSpaces(a) + CollapseSpaces(b)
    decreases |a|, 0
  {
    var k := LeadingRun(a, IsSpace);
    var j := if k > 0 then k else 1;
    var a' := a[j..];
    assert (a + b)[j..] == a' + b;
    assert a' == [] || a'[|a'| - 1] == a[|a| - 1];
    CollapseSpacesAppend(a', b);
    var head := if k > 0 then " " else [a[0]];
    assert (a + b)[0] == a[0];
    CollapseSpacesUnfold(a + b, j, head);
    CollapseSpacesUnfold(a, j, head);
    Regroup(head, CollapseSpaces(a'), CollapseSpaces(b));
  }

  /** Each maximal whitespace run becomes one space in its place, and the
      text on either side is collapsed on its own. */
  lemma CollapseSpacesRun(x: string, w: string, y: string)
    requires w != [] && Every(w, IsSpace)
    requires x == [] || !IsSpace(x[|x| - 1])
    requires y == [] || !IsSpace(y[0])
    ensures CollapseSpaces(x + w + y) == CollapseSpaces(x) + " " + CollapseSpaces(y)
  {
    SpaceRunBecomesSpace(w, y);
    assert x + w + y == x + (w + y);
    CollapseSpacesAppend(x, w + y);
    Regroup(CollapseSpaces(x), " ", CollapseSpaces(y));
  }

  /** Two words with whitespace between them come out as the two words with
      one space between them. */
  lemma CollapseTwoWords(x: string, w: string, y: string)
    requires x != [] && Spaceless(x) && y != [] && Spaceless(y)
    requires w != [] && Every(w, IsSpace)
    ensures CollapseSpaces(x + w + y) == x + " " + y
  {
    CollapseSpacesRun(x, w, y);
    CollapseSpacesSpaceless(x);
    CollapseSpacesSpaceless(y);
  }
}
