/**
 * Models of the Python `str` operations that the text analyzer is built from:
 * `str.split()` with no separator, `str.split(sep)` with a one-character
 * separator, `str.strip()`, `str.lower()` and `str.replace(a, b)` with
 * one-character arguments.
 *
 * Text is `seq<char>`. Dafny's `char` is a Unicode scalar value, so `|s|` is
 * Python's `len(s)` for every string made of scalar values; a Python string
 * holding a lone surrogate code point has no counterpart here. Whitespace
 * and case are ASCII only.
 */
module PyStr {

  // ------------------------------------------------------------------------
  // Characters
  // ------------------------------------------------------------------------

  /** ASCII whitespace: space, tab, line feed, carriage return, vertical tab, form feed. */
  predicate IsSpace(c: char) {
    c == ' ' || c == '\t' || c == '\n' || c == '\r' || c == '\U{B}' || c == '\U{C}'
  }

  /** No character of `s` is whitespace. */
  predicate NoSpace(s: string) {
    forall i :: 0 <= i < |s| ==> !IsSpace(s[i])
  }

  /** Every character of `s` is whitespace (the empty string included). */
  predicate Blank(s: string) {
    forall i :: 0 <= i < |s| ==> IsSpace(s[i])
  }

  /** Neither end of `s` is whitespace. */
  predicate Trimmed(s: string) {
    s == [] || (!IsSpace(s[0]) && !IsSpace(s[|s| - 1]))
  }

  predicate IsUpper(c: char) {
    'A' <= c <= 'Z'
  }

  /** ASCII lower-casing of one character. */
  function LowerChar(c: char): (d: char)
    ensures !IsUpper(d)
    ensures d != c ==> IsUpper(c) && d as int == c as int + 32
    ensures IsSpace(d) <==> IsSpace(c)
  {
    if IsUpper(c) then (c as int + 32) as char else c
  }

  // ------------------------------------------------------------------------
  // str.lower()
  // ------------------------------------------------------------------------

  /** `s.lower()`, with ASCII case mapping. */
  function Lower(s: string): (r: string)
    ensures |r| == |s|
    ensures forall i :: 0 <= i < |s| ==> r[i] == LowerChar(s[i])
  {
    seq(|s|, i requires 0 <= i < |s| => LowerChar(s[i]))
  }

  /** Lower-casing twice is lower-casing once. */
  lemma LowerIdempotent(s: string)
    ensures Lower(Lower(s)) == Lower(s)
  {
    assert forall i :: 0 <= i < |s| ==> Lower(Lower(s))[i] == Lower(s)[i];
  }

  /** Lower-casing commutes with taking a prefix and with dropping one. */
  lemma LowerSlice(s: string, k: nat)
    requires k <= |s|
    ensures Lower(s)[..k] == Lower(s[..k])
    ensures Lower(s)[k..] == Lower(s[k..])
  {
    assert forall i :: 0 <= i < k ==> Lower(s)[..k][i] == Lower(s[..k])[i];
    assert forall i :: 0 <= i < |s| - k ==> Lower(s)[k..][i] == Lower(s[k..])[i];
  }

  // ------------------------------------------------------------------------
  // str.count(c) for a one-character c
  // ------------------------------------------------------------------------

  /** `s.count(c)`: the number of occurrences of `c` in `s`. */
  function Count(s: string, c: char): (n: nat)
    ensures n <= |s|
  {
    if s == [] then 0 else (if s[0] == c then 1 else 0) + Count(s[1..], c)
  }

  /** `c` occurs in `s` exactly when its count is positive. */
  lemma {:induction false} CountZero(s: string, c: char)
    ensures Count(s, c) == 0 <==> c !in s
    decreases |s|
  {
    if s != [] {
      CountZero(s[1..], c);
      assert s == [s[0]] + s[1..];
    }
  }

  /** Counting distributes over concatenation. */
  lemma {:induction false} CountAppend(a: string, b: string, c: char)
    ensures Count(a + b, c) == Count(a, c) + Count(b, c)
    decreases |a|
  {
    if a == [] {
      assert a + b == b;
    } else {
      assert (a + b)[1..] == a[1..] + b;
      CountAppend(a[1..], b, c);
    }
  }

  // ------------------------------------------------------------------------
  // str.replace(a, b) for one-character a and b
  // ------------------------------------------------------------------------

  /** `s.replace(a, b)` where `a` and `b` are single characters. */
  function ReplaceChar(s: string, a: char, b: char): (r: string)
    ensures |r| == |s|
    ensures forall i :: 0 <= i < |s| ==> r[i] == (if s[i] == a then b else s[i])
  {
    if s == [] then [] else [if s[0] == a then b else s[0]] + ReplaceChar(s[1..], a, b)
  }

  /** Replacement works character by character, so it distributes over concatenation. */
  lemma ReplaceCharAppend(s: string, t: string, a: char, b: char)
    ensures ReplaceChar(s + t, a, b) == ReplaceChar(s, a, b) + ReplaceChar(t, a, b)
  {
    var l, r := ReplaceChar(s + t, a, b), ReplaceChar(s, a, b) + ReplaceChar(t, a, b);
    forall i | 0 <= i < |l| ensures l[i] == r[i] {
      if i < |s| {
        assert (s + t)[i] == s[i];
      } else {
        assert (s + t)[i] == t[i - |s|];
      }
    }
    PointwiseEqual(l, r);
  }

  lemma PointwiseEqual<T>(l: seq<T>, r: seq<T>)
    requires |l| == |r|
    requires forall i :: 0 <= i < |l| ==> l[i] == r[i]
    ensures l == r
  {
  }

  /** After replacing `a` by a different `b`, no `a` is left, every former `a` is now a `b`, and every other character keeps its count. */
  lemma {:induction false} ReplaceCharCounts(s: string, a: char, b: char, c: char)
    requires a != b
    ensures Count(ReplaceChar(s, a, b), c)
         == if c == a then 0
            else if c == b then Count(s, a) + Count(s, b)
            else Count(s, c)
    decreases |s|
  {
    if s != [] {
      ReplaceCharCounts(s[1..], a, b, c);
    }
  }

  // ------------------------------------------------------------------------
  // str.split() with no separator
  // ------------------------------------------------------------------------

  /** Length of the longest whitespace-free prefix of `s`. */
  function TokenLength(s: string): (k: nat)
    ensures k <= |s|
  {
    if s == [] || IsSpace(s[0]) then 0 else 1 + TokenLength(s[1..])
  }

  /** The first token is whitespace-free and ends at whitespace or at the end of `s`. */
  lemma {:induction false} TokenLengthSpec(s: string)
    ensures NoSpace(s[..TokenLength(s)])
    ensures TokenLength(s) < |s| ==> IsSpace(s[TokenLength(s)])
    decreases |s|
  {
    if s != [] && !IsSpace(s[0]) {
      var p := s[1..];
      TokenLengthSpec(p);
      var k := TokenLength(p);
      var n := k + 1;
      assert k < |p| ==> s[n] == p[k];
      forall i | 0 <= i < n
        ensures !IsSpace(s[..n][i])
      {
        if i > 0 {
          assert s[..n][i] == p[..k][i - 1];
        }
      }
    }
  }

  /**
   * `s.split()`: skip whitespace, take a maximal run of non-whitespace as one
   * token, repeat. Leading and trailing whitespace produce no empty tokens.
   */
  function Split(s: string): (words: seq<string>)
    ensures |words| <= |s|
    decreases |s|
  {
    if s == [] then []
    else if IsSpace(s[0]) then Split(s[1..])
    else
      var k := TokenLength(s);
      [s[..k]] + Split(s[k..])
  }

  /** Every token is non-empty and free of whitespace. */
  lemma {:induction false} SplitTokens(s: string)
    ensures forall i :: 0 <= i < |Split(s)| ==> Split(s)[i] != [] && NoSpace(Split(s)[i])
    decreases |s|
  {
    if s != [] {
      if IsSpace(s[0]) {
        SplitTokens(s[1..]);
      } else {
        var k := TokenLength(s);
        TokenLengthSpec(s);
        SplitTokens(s[k..]);
        var w, rest := s[..k], Split(s[k..]);
        assert Split(s) == [w] + rest;
        forall i | 0 <= i < |[w] + rest| ensures ([w] + rest)[i] != [] && NoSpace(([w] + rest)[i]) {
          if i > 0 {
            assert ([w] + rest)[i] == rest[i - 1];
          }
        }
      }
    }
  }

  /** Position `i` begins a maximal run of non-whitespace characters. */
  predicate WordStart(s: string, i: nat)
    requires i < |s|
  {
    !IsSpace(s[i]) && (i == 0 || IsSpace(s[i - 1]))
  }

  /** Number of positions in `s[i..]` at which a maximal non-whitespace run of `s` begins. */
  function WordStartsFrom(s: string, i: nat): nat
    requires i <= |s|
    decreases |s| - i
  {
    if i == |s| then 0 else (if WordStart(s, i) then 1 else 0) + WordStartsFrom(s, i + 1)
  }

  /** Number of maximal runs of non-whitespace characters in `s`. */
  function WordRuns(s: string): nat {
    WordStartsFrom(s, 0)
  }

  /** Inside a whitespace-free stretch no run begins. */
  lemma {:induction false} NoStartInsideWord(s: string, i: nat, j: nat)
    requires 0 < i <= j <= |s|
    requires NoSpace(s[i - 1..j])
    ensures WordStartsFrom(s, i) == WordStartsFrom(s, j)
    decreases j - i
  {
    if i < j {
      assert s[i - 1] == s[i - 1..j][0] && s[i] == s[i - 1..j][1];
      assert s[i..j] == s[i - 1..j][1..];
      NoStartInsideWord(s, i + 1, j);
    }
  }

  lemma {:induction false} SplitCountsRunsFrom(s: string, i: nat)
    requires i <= |s|
    requires i == 0 || IsSpace(s[i - 1])
    ensures |Split(s[i..])| == WordStartsFrom(s, i)
    decreases |s| - i, 1
  {
    if i == |s| {
      SplitAtEnd(s, i);
    } else if IsSpace(s[i]) {
      SplitCountsSpace(s, i);
    } else {
      SplitCountsToken(s, i);
    }
  }

  lemma {:induction false} SplitCountsSpace(s: string, i: nat)
    requires i < |s| && IsSpace(s[i])
    ensures |Split(s[i..])| == WordStartsFrom(s, i)
    decreases |s| - i, 0
  {
    SkipSpace(s, i);
    SplitCountsRunsFrom(s, i + 1);
  }

  lemma {:induction false} SplitCountsToken(s: string, i: nat)
    requires i < |s| && !IsSpace(s[i])
    requires i == 0 || IsSpace(s[i - 1])
    ensures |Split(s[i..])| == WordStartsFrom(s, i)
    decreases |s| - i, 0
  {
    var k := SkipWord(s, i);
    if i + k < |s| {
      SplitCountsSpace(s, i + k);
    } else {
      SplitAtEnd(s, i + k);
    }
  }

  lemma SplitAtEnd(s: string, i: nat)
    requires i == |s|
    ensures |Split(s[i..])| == 0
  {
  }

  /** A whitespace character at `i` starts no run and contributes no token. */
  lemma SkipSpace(s: string, i: nat)
    requires i < |s| && IsSpace(s[i])
    ensures Split(s[i..]) == Split(s[i + 1..])
    ensures WordStartsFrom(s, i) == WordStartsFrom(s, i + 1)
  {
    assert s[i..][1..] == s[i + 1..];
  }

  /** A run starting at `i` is one token, of some length `k` that ends at whitespace or at the end. */
  lemma SkipToken(s: string, i: nat) returns (k: nat)
    requires i < |s| && !IsSpace(s[i])
    ensures 1 <= k && i + k <= |s|
    ensures NoSpace(s[i..i + k])
    ensures i + k < |s| ==> IsSpace(s[i + k])
    ensures |Split(s[i..])| == 1 + |Split(s[i + k..])|
  {
    var t := s[i..];
    k := TokenLength(t);
    TokenLengthSpec(t);
    assert t[0] == s[i];
    assert k < |t| ==> t[k] == s[i + k];
    assert t[k..] == s[i + k..];
    assert t[..k] == s[i..i + k];
  }

  /** A run starting at `i` right after whitespace is one token and one run start. */
  lemma SkipWord(s: string, i: nat) returns (k: nat)
    requires i < |s| && !IsSpace(s[i])
    requires i == 0 || IsSpace(s[i - 1])
    ensures 1 <= k && i + k <= |s|
    ensures i + k < |s| ==> IsSpace(s[i + k])
    ensures |Split(s[i..])| == 1 + |Split(s[i + k..])|
    ensures WordStartsFrom(s, i) == 1 + WordStartsFrom(s, i + k)
  {
    k := SkipToken(s, i);
    SkipRun(s, i, k);
  }

  /** A whitespace-free stretch starting after whitespace holds exactly one run start. */
  lemma SkipRun(s: string, i: nat, k: nat)
    requires i < |s| && 1 <= k && i + k <= |s|
    requires i == 0 || IsSpace(s[i - 1])
    requires NoSpace(s[i..i + k])
    ensures WordStartsFrom(s, i) == 1 + WordStartsFrom(s, i + k)
  {
    assert s[i] == s[i..i + k][0];
    assert s[i..i + k] == s[i + 1 - 1..i + k];
    NoStartInsideWord(s, i + 1, i + k);
  }

  /** `s.split()` yields exactly one token per maximal run of non-whitespace characters. */
  lemma SplitCountsRuns(s: string)
    ensures |Split(s)| == WordRuns(s)
  {
    assert s[0..] == s;
    SplitCountsRunsFrom(s, 0);
  }

  /** An empty or all-whitespace string splits into no tokens, and only such a string does. */
  lemma {:induction false} SplitEmptyIffBlank(s: string)
    ensures Split(s) == [] <==> Blank(s)
    decreases |s|
  {
    if s != [] {
      if IsSpace(s[0]) {
        SplitEmptyIffBlank(s[1..]);
        assert Blank(s) <==> Blank(s[1..]) by {
          if Blank(s[1..]) {
            forall i | 0 <= i < |s| ensures IsSpace(s[i]) {
              if i > 0 { assert s[i] == s[1..][i - 1]; }
            }
          }
        }
      }
    }
  }

  /** Splitting at a whitespace character splits the two sides independently. */
  lemma {:induction false} SplitAtSpace(a: string, c: char, b: string)
    requires IsSpace(c)
    ensures Split(a + [c] + b) == Split(a) + Split(b)
    decreases |a|
  {
    var s := a + [c] + b;
    if a == [] {
      assert s[1..] == b;
    } else if IsSpace(a[0]) {
      assert s[1..] == a[1..] + [c] + b;
      SplitAtSpace(a[1..], c, b);
    } else {
      var k := TokenLength(a);
      TokenLengthOfPrefix(a, c, b);
      assert s[..k] == a[..k];
      assert s[k..] == a[k..] + [c] + b;
      SplitAtSpace(a[k..], c, b);
    }
  }

  /** The first token of `a + [c] + b` lies inside `a` when `c` is whitespace. */
  lemma {:induction false} TokenLengthOfPrefix(a: string, c: char, b: string)
    requires IsSpace(c)
    ensures TokenLength(a + [c] + b) == TokenLength(a)
    decreases |a|
  {
    var s := a + [c] + b;
    if a != [] && !IsSpace(a[0]) {
      assert s[1..] == a[1..] + [c] + b;
      TokenLengthOfPrefix(a[1..], c, b);
    }
  }

  /** A non-empty whitespace-free string is a single token. */
  lemma SplitWord(w: string)
    requires w != [] && NoSpace(w)
    ensures Split(w) == [w]
  {
    var k := TokenLength(w);
    TokenLengthSpec(w);
    assert k == |w|;
    assert w[..k] == w && w[k..] == [];
  }

  /** Every token takes at least one character and every two tokens are separated by one, so there are at most (|s| + 1) / 2 tokens. */
  lemma {:induction false} SplitBound(s: string)
    ensures 2 * |Split(s)| <= |s| + 1
    decreases |s|
  {
    if s != [] {
      if IsSpace(s[0]) {
        SplitBound(s[1..]);
      } else {
        var k := TokenLength(s);
        TokenLengthSpec(s);
        var rest := s[k..];
        if rest != [] {
          assert IsSpace(rest[0]);
          assert rest == [] + [rest[0]] + rest[1..];
          SplitAtSpace([], rest[0], rest[1..]);
          SplitBound(rest[1..]);
        }
      }
    }
  }

  /** `" ".join(words)`. */
  function JoinSpace(words: seq<string>): string {
    if words == [] then []
    else if |words| == 1 then words[0]
    else words[0] + " " + JoinSpace(words[1..])
  }

  /** Joining two non-empty lists of words is joining each and putting one space between. */
  lemma {:induction false} JoinSpaceAppend(a: seq<string>, b: seq<string>)
    requires a != [] && b != []
    ensures JoinSpace(a + b) == JoinSpace(a) + " " + JoinSpace(b)
    decreases |a|
  {
    if |a| == 1 {
      assert (a + b)[1..] == b;
    } else {
      JoinSpaceAppend(a[1..], b);
      assert (a + b)[1..] == a[1..] + b;
    }
  }

  /** Tokens joined by single spaces split back into the same tokens. */
  lemma {:induction false} SplitJoinSpace(words: seq<string>)
    requires forall i :: 0 <= i < |words| ==> words[i] != [] && NoSpace(words[i])
    ensures Split(JoinSpace(words)) == words
    decreases |words|
  {
    if |words| == 1 {
      SplitWord(words[0]);
    } else if |words| > 1 {
      SplitJoinSpace(words[1..]);
      SplitWord(words[0]);
      SplitAtSpace(words[0], ' ', JoinSpace(words[1..]));
      assert words == [words[0]] + words[1..];
    }
  }

  /** The first token of `Lower(s)` has the same length as the first token of `s`. */
  lemma {:induction false} TokenLengthLower(s: string)
    ensures TokenLength(Lower(s)) == TokenLength(s)
    decreases |s|
  {
    if s != [] {
      LowerSlice(s, 1);
      assert Lower(s)[0] == LowerChar(s[0]);
      TokenLengthLower(s[1..]);
    }
  }

  /** Lower-casing does not change where tokens begin and end; the tokens of `Lower(s)` are the lower-cased tokens of `s`. */
  lemma {:induction false} SplitLower(s: string)
    ensures |Split(Lower(s))| == |Split(s)|
    ensures forall i :: 0 <= i < |Split(s)| ==> Split(Lower(s))[i] == Lower(Split(s)[i])
    decreases |s|
  {
    if s != [] {
      var l := Lower(s);
      assert l[0] == LowerChar(s[0]);
      if IsSpace(s[0]) {
        LowerSlice(s, 1);
        SplitLower(s[1..]);
      } else {
        var k := TokenLength(s);
        TokenLengthLower(s);
        LowerSlice(s, k);
        assert Split(l) == [Lower(s[..k])] + Split(Lower(s[k..]));
        assert Split(s) == [s[..k]] + Split(s[k..]);
        SplitLower(s[k..]);
      }
    }
  }

  // ------------------------------------------------------------------------
  // str.strip() with no argument
  // ------------------------------------------------------------------------

  /** `s.lstrip()`. */
  function StripStart(s: string): (r: string)
    ensures |r| <= |s|
  {
    if s != [] && IsSpace(s[0]) then StripStart(s[1..]) else s
  }

  /** lstrip removes a whitespace-only prefix, and what it leaves does not start with whitespace. */
  lemma {:induction false} StripStartSpec(s: string)
    ensures StripStart(s) == s[|s| - |StripStart(s)|..]
    ensures Blank(s[..|s| - |StripStart(s)|])
    ensures StripStart(s) == [] || !IsSpace(StripStart(s)[0])
    decreases |s|
  {
    if s != [] && IsSpace(s[0]) {
      var p := s[1..];
      StripStartSpec(p);
      var n := |s| - |StripStart(p)|;
      assert p[n - 1..] == s[n..];
      forall i | 0 <= i < n
        ensures IsSpace(s[..n][i])
      {
        if i > 0 {
          assert s[..n][i] == p[..n - 1][i - 1];
        }
      }
    }
  }

  /** `s.rstrip()`. */
  function StripEnd(s: string): (r: string)
    ensures |r| <= |s|
  {
    if s != [] && IsSpace(s[|s| - 1]) then StripEnd(s[..|s| - 1]) else s
  }

  /** rstrip removes a whitespace-only suffix, and what it leaves does not end with whitespace. */
  lemma {:induction false} StripEndSpec(s: string)
    ensures StripEnd(s) == s[..|StripEnd(s)|]
    ensures Blank(s[|StripEnd(s)|..])
    ensures StripEnd(s) == [] || !IsSpace(StripEnd(s)[|StripEnd(s)| - 1])
    decreases |s|
  {
    if s != [] && IsSpace(s[|s| - 1]) {
      var p := s[..|s| - 1];
      StripEndSpec(p);
      var m := |StripEnd(p)|;
      assert p[..m] == s[..m];
      forall j | 0 <= j < |s| - m
        ensures IsSpace(s[m..][j])
      {
        if m + j < |s| - 1 {
          assert s[m..][j] == p[m..][j];
        }
      }
    }
  }

  /** `s` is `r` with the whitespace-only margins `s[..lo]` and `s[lo + |r|..]` around it. */
  predicate Margins(s: string, lo: nat, r: string) {
    lo + |r| <= |s| && Blank(s[..lo]) && s[lo..lo + |r|] == r && Blank(s[lo + |r|..])
  }

  /** `s.strip()`: `s` with its leading and trailing whitespace removed. */
  function Strip(s: string): (r: string)
    ensures Trimmed(r)
  {
    StripStartSpec(s);
    StripEndSpec(StripStart(s));
    StripEnd(StripStart(s))
  }

  /** Strip removes exactly a whitespace-only margin at each end. */
  lemma StripMargins(s: string)
    ensures exists lo: nat :: Margins(s, lo, Strip(s))
  {
    var t := StripStart(s);
    var r := StripEnd(t);
    var lo := |s| - |t|;
    StripStartSpec(s);
    StripEndSpec(t);
    MarginsOf(s, lo, t, r);
    assert Margins(s, lo, Strip(s));
  }

  lemma MarginsOf(s: string, lo: nat, t: string, r: string)
    requires lo <= |s| && t == s[lo..] && Blank(s[..lo])
    requires |r| <= |t| && r == t[..|r|] && Blank(t[|r|..])
    ensures Margins(s, lo, r)
  {
    assert s[lo..lo + |r|] == t[..|r|];
    assert s[lo + |r|..] == t[|r|..];
  }

  /** Strip leaves nothing exactly when the string is all whitespace. */
  lemma StripEmptyIff(s: string)
    ensures Strip(s) == [] <==> Blank(s)
  {
    var t := StripStart(s);
    var r := StripEnd(t);
    var lo := |s| - |t|;
    StripStartSpec(s);
    StripEndSpec(t);
    if r == [] {
      assert t == [];
      assert s[..lo] == s;
    } else {
      assert t == s[lo..];
      assert r == t[..|r|];
      assert s[lo] == r[0];
    }
  }

  // ------------------------------------------------------------------------
  // str.split(sep) with a one-character separator
  // ------------------------------------------------------------------------

  /** Index of the first `c` in `s`, or `|s|` if there is none. */
  function Find(s: string, c: char): (k: nat)
    ensures k <= |s|
  {
    if s == [] || s[0] == c then 0 else 1 + Find(s[1..], c)
  }

  /** `Find` gives the first occurrence of `c`, or `|s|` when there is none. */
  lemma {:induction false} FindSpec(s: string, c: char)
    ensures forall i :: 0 <= i < Find(s, c) ==> s[i] != c
    ensures Find(s, c) < |s| ==> s[Find(s, c)] == c
    decreases |s|
  {
    if s != [] && s[0] != c {
      var p := s[1..];
      FindSpec(p, c);
      var k := Find(p, c);
      assert k < |p| ==> s[k + 1] == p[k];
      forall i | 0 <= i < k + 1
        ensures s[i] != c
      {
        if i > 0 {
          assert s[i] == p[i - 1];
        }
      }
    }
  }

  /** `s.split(sep)`: the pieces between occurrences of `sep`, empty pieces included. */
  function SplitOn(s: string, sep: char): (pieces: seq<string>)
    ensures pieces != []
    decreases |s|
  {
    var k := Find(s, sep);
    if k == |s| then [s] else [s[..k]] + SplitOn(s[k + 1..], sep)
  }

  /** There is one more piece than there are separators. */
  lemma {:induction false} SplitOnLength(s: string, sep: char)
    ensures |SplitOn(s, sep)| == Count(s, sep) + 1
    decreases |s|
  {
    var k := Find(s, sep);
    FindSpec(s, sep);
    if k == |s| {
      assert s[..k] == s;
      CountZero(s, sep);
    } else {
      SplitOnLength(s[k + 1..], sep);
      assert s == s[..k] + ([sep] + s[k + 1..]);
      CountAppend(s[..k], [sep] + s[k + 1..], sep);
      CountZero(s[..k], sep);
      assert ([sep] + s[k + 1..])[1..] == s[k + 1..];
    }
  }

  /** No piece of `s.split(sep)` contains `sep`. */
  lemma {:induction false} SplitOnPieces(s: string, sep: char)
    ensures forall i :: 0 <= i < |SplitOn(s, sep)| ==> sep !in SplitOn(s, sep)[i]
    decreases |s|
  {
    var k := Find(s, sep);
    FindSpec(s, sep);
    if k < |s| {
      SplitOnPieces(s[k + 1..], sep);
    } else {
      assert s[..k] == s;
    }
  }

  /** `sep.join(pieces)`. */
  function JoinOn(pieces: seq<string>, sep: char): string {
    if pieces == [] then []
    else if |pieces| == 1 then pieces[0]
    else pieces[0] + [sep] + JoinOn(pieces[1..], sep)
  }

  /** Joining the pieces of `s.split(sep)` with `sep` gives back `s`. */
  lemma {:induction false} JoinSplitOn(s: string, sep: char)
    ensures JoinOn(SplitOn(s, sep), sep) == s
    decreases |s|
  {
    var k := Find(s, sep);
    FindSpec(s, sep);
    if k < |s| {
      var rest := SplitOn(s[k + 1..], sep);
      assert SplitOn(s, sep) == [s[..k]] + rest;
      assert ([s[..k]] + rest)[1..] == rest;
      JoinSplitOn(s[k + 1..], sep);
      assert s == s[..k] + [sep] + s[k + 1..];
    } else {
      assert s[..k] == s;
    }
  }

  /** The first separator of `a + [sep] + b` is the first separator of `a`, or the one just after `a`. */
  lemma {:induction false} FindOfPrefix(a: string, sep: char, b: string)
    ensures Find(a + [sep] + b, sep) == Find(a, sep)
    decreases |a|
  {
    if a != [] && a[0] != sep {
      assert (a + [sep] + b)[1..] == a[1..] + [sep] + b;
      FindOfPrefix(a[1..], sep, b);
    }
  }

  /** Splitting at a separator splits the two sides independently. */
  lemma {:induction false} SplitOnAt(a: string, sep: char, b: string)
    ensures SplitOn(a + [sep] + b, sep) == SplitOn(a, sep) + SplitOn(b, sep)
    decreases |a|
  {
    var k := Find(a, sep);
    if k == |a| {
      SplitOnFirst(a, sep, b);
    } else {
      SplitOnAt(a[k + 1..], sep, b);
      SplitOnAtStep(a, sep, b, k);
    }
  }

  /** A separator at the very end yields one more, empty, piece. */
  lemma SplitOnTrailing(s: string, sep: char)
    ensures SplitOn(s + [sep], sep) == SplitOn(s, sep) + [[]]
  {
    SplitOnAt(s, sep, []);
    AppendNothing(s + [sep], []);
  }

  lemma AppendNothing<T>(x: seq<T>, y: seq<T>)
    requires |y| == 0
    ensures x + y == x
  {
  }

  lemma SplitOnAtStep(a: string, sep: char, b: string, k: nat)
    requires k == Find(a, sep) < |a|
    requires SplitOn(a[k + 1..] + [sep] + b, sep) == SplitOn(a[k + 1..], sep) + SplitOn(b, sep)
    ensures SplitOn(a + [sep] + b, sep) == SplitOn(a, sep) + SplitOn(b, sep)
  {
    SplitOnLater(a, sep, b, k);
    ConsAssoc(a[..k], SplitOn(a[k + 1..], sep), SplitOn(b, sep));
  }

  lemma ConsAssoc<T>(z: T, x: seq<T>, y: seq<T>)
    ensures [z] + (x + y) == ([z] + x) + y
  {
  }

  lemma SplitOnFirst(a: string, sep: char, b: string)
    requires Find(a, sep) == |a|
    ensures SplitOn(a + [sep] + b, sep) == [a] + SplitOn(b, sep)
    ensures SplitOn(a, sep) == [a]
  {
    var s := a + [sep] + b;
    FindOfPrefix(a, sep, b);
    assert s[..|a|] == a && s[|a| + 1..] == b;
    assert a[..|a|] == a;
  }

  lemma SplitOnLater(a: string, sep: char, b: string, k: nat)
    requires k == Find(a, sep) < |a|
    ensures SplitOn(a + [sep] + b, sep) == [a[..k]] + SplitOn(a[k + 1..] + [sep] + b, sep)
    ensures SplitOn(a, sep) == [a[..k]] + SplitOn(a[k + 1..], sep)
  {
    var s := a + [sep] + b;
    FindOfPrefix(a, sep, b);
    SplitOnStep(s, sep, k);
    SplitOnStep(a, sep, k);
    SlicesAround(a, sep, b, k);
  }

  /** Before the first separator at `k` lies the first piece. */
  lemma SplitOnStep(s: string, sep: char, k: nat)
    requires k == Find(s, sep) < |s|
    ensures SplitOn(s, sep) == [s[..k]] + SplitOn(s[k + 1..], sep)
  {
  }

  lemma SlicesAround<T>(a: seq<T>, c: T, b: seq<T>, k: nat)
    requires k < |a|
    ensures (a + [c] + b)[..k] == a[..k]
    ensures (a + [c] + b)[k + 1..] == a[k + 1..] + [c] + b
  {
  }

  /** A string without the separator is a single piece. */
  lemma SplitOnNone(s: string, sep: char)
    requires sep !in s
    ensures SplitOn(s, sep) == [s]
  {
    var k := Find(s, sep);
    FindSpec(s, sep);
    assert k == |s|;
    assert s[..k] == s;
  }

  /** Pieces without the separator, joined with it, split back into the same pieces. */
  lemma {:induction false} SplitOnJoin(pieces: seq<string>, sep: char)
    requires |pieces| >= 1
    requires forall i :: 0 <= i < |pieces| ==> sep !in pieces[i]
    ensures SplitOn(JoinOn(pieces, sep), sep) == pieces
    decreases |pieces|
  {
    SplitOnNone(pieces[0], sep);
    if |pieces| > 1 {
      SplitOnJoin(pieces[1..], sep);
      SplitOnAt(pieces[0], sep, JoinOn(pieces[1..], sep));
      assert pieces == [pieces[0]] + pieces[1..];
    }
  }
}
