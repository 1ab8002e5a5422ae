/**
 * The text analysis routine `analyze_text` of the Insight-Agent service
 * (app/main.py): word count, character count, sentence count and a
 * lexicon-based sentiment score, all computed from the request text alone.
 *
 * The sentiment score is kept as the exact fraction
 * (positive hits - negative hits) / max(token count, 1); the service
 * rounds its floating-point value to two decimals, which is not modelled.
 */
module Analyzer {
  import opened PyStr

  function Max(a: nat, b: nat): nat {
    if a >= b then a else b
  }

  // ------------------------------------------------------------------------
  // Sentence detection
  // ------------------------------------------------------------------------

  /** The characters that end a sentence. */
  predicate IsTerminator(c: char) {
    c == '.' || c == '!' || c == '?'
  }

  predicate NoTerminator(s: string) {
    forall i :: 0 <= i < |s| ==> !IsTerminator(s[i])
  }

  /** A character that is neither whitespace nor a terminator. */
  predicate IsContent(c: char) {
    !IsSpace(c) && !IsTerminator(c)
  }

  /** Number of sentence terminators in `s`. */
  function TerminatorCount(s: string): nat {
    Count(s, '.') + Count(s, '!') + Count(s, '?')
  }

  /** A terminator read as a full stop; any other character as itself. */
  function FullStop(c: char): char {
    if IsTerminator(c) then '.' else c
  }

  /** `text.replace('!', '.').replace('?', '.')`: every terminator becomes a full stop. */
  function Normalize(text: string): (r: string)
    ensures |r| == |text|
    ensures forall i :: 0 <= i < |text| ==> r[i] == FullStop(text[i])
  {
    ReplaceChar(ReplaceChar(text, '!', '.'), '?', '.')
  }

  /** After normalization there are as many full stops as there were terminators. */
  lemma NormalizeCount(text: string)
    ensures Count(Normalize(text), '.') == TerminatorCount(text)
  {
    var r1 := ReplaceChar(text, '!', '.');
    ReplaceCharCounts(text, '!', '.', '.');
    ReplaceCharCounts(text, '!', '.', '?');
    ReplaceCharCounts(r1, '?', '.', '.');
  }

  /** Normalization works character by character, so it distributes over concatenation. */
  lemma NormalizeAppend(a: string, b: string)
    ensures Normalize(a + b) == Normalize(a) + Normalize(b)
  {
    ReplaceCharAppend(a, b, '!', '.');
    ReplaceCharAppend(ReplaceChar(a, '!', '.'), ReplaceChar(b, '!', '.'), '?', '.');
  }

  /** A string without terminators is left unchanged by normalization. */
  lemma NormalizeClause(s: string)
    requires NoTerminator(s)
    ensures Normalize(s) == s
  {
    assert forall i :: 0 <= i < |s| ==> Normalize(s)[i] == s[i];
  }

  /** Every string of `ss` is non-empty and has no whitespace at either end. */
  predicate AllTrimmed(ss: seq<string>) {
    forall i :: 0 <= i < |ss| ==> ss[i] != [] && Trimmed(ss[i])
  }

  /** `[t] if t else []`: the filter of the comprehension below. */
  function Keep(t: string): seq<string> {
    if t != [] then [t] else []
  }

  /** `[p.strip() for p in pieces if p.strip()]`. */
  function StripNonBlank(pieces: seq<string>): (ss: seq<string>)
    ensures |ss| <= |pieces|
  {
    if pieces == [] then [] else Keep(Strip(pieces[0])) + StripNonBlank(pieces[1..])
  }

  /** Every kept piece is non-empty and stripped. */
  lemma {:induction false} StripNonBlankTrimmed(pieces: seq<string>)
    ensures AllTrimmed(StripNonBlank(pieces))
    decreases |pieces|
  {
    if pieces != [] {
      StripNonBlankTrimmed(pieces[1..]);
      var t, rest := Strip(pieces[0]), StripNonBlank(pieces[1..]);
      assert StripNonBlank(pieces) == Keep(t) + rest;
      if t == [] {
        assert Keep(t) + rest == rest;
      } else {
        var ss := [t] + rest;
        forall i | 0 <= i < |ss| ensures ss[i] != [] && Trimmed(ss[i]) {
          if i > 0 {
            assert ss[i] == rest[i - 1];
          }
        }
      }
    }
  }

  lemma {:induction false} StripNonBlankAppend(x: seq<string>, y: seq<string>)
    ensures StripNonBlank(x + y) == StripNonBlank(x) + StripNonBlank(y)
    decreases |x|
  {
    if x == [] {
      assert x + y == y;
    } else {
      assert (x + y)[0] == x[0];
      assert (x + y)[1..] == x[1..] + y;
      StripNonBlankAppend(x[1..], y);
    }
  }

  /** The sentences of `text`: the pieces between terminators, stripped, blank ones dropped. */
  function Sentences(text: string): (ss: seq<string>)
    ensures |ss| <= TerminatorCount(text) + 1
  {
    SplitOnLength(Normalize(text), '.');
    NormalizeCount(text);
    StripNonBlank(SplitOn(Normalize(text), '.'))
  }

  /** Every sentence is non-empty and stripped. */
  lemma SentencesTrimmed(text: string)
    ensures AllTrimmed(Sentences(text))
  {
    StripNonBlankTrimmed(SplitOn(Normalize(text), '.'));
  }

  /** Index of the first terminator in `s`, or `|s|` if there is none. */
  function FirstTerminator(s: string): (k: nat)
    ensures k <= |s|
    ensures NoTerminator(s[..k])
    ensures k < |s| ==> IsTerminator(s[k])
  {
    if s == [] || IsTerminator(s[0]) then 0
    else
      var k := 1 + FirstTerminator(s[1..]);
      assert forall i :: 1 <= i < k ==> s[..k][i] == s[1..][..k - 1][i - 1];
      k
  }

  /** `len(sentences) if sentences else 1`: at least one sentence is always reported. */
  function SentenceCount(text: string): (n: nat)
    ensures 1 <= n <= TerminatorCount(text) + 1
    ensures Sentences(text) != [] ==> n == |Sentences(text)|
    ensures Sentences(text) == [] ==> n == 1
  {
    var ss := Sentences(text);
    if ss != [] then |ss| else 1
  }

  /** A terminator splits the text into two parts whose sentences are found independently. */
  lemma SentencesAt(a: string, t: char, b: string)
    requires IsTerminator(t)
    ensures Sentences(a + [t] + b) == Sentences(a) + Sentences(b)
  {
    NormalizeAppend(a + [t], b);
    NormalizeAppend(a, [t]);
    assert Normalize([t]) == ['.'];
    SplitOnAt(Normalize(a), '.', Normalize(b));
    StripNonBlankAppend(SplitOn(Normalize(a), '.'), SplitOn(Normalize(b), '.'));
  }

  /** An empty last piece is dropped by the filter. */
  lemma StripNonBlankTrailing(pieces: seq<string>)
    ensures StripNonBlank(pieces + [[]]) == StripNonBlank(pieces)
  {
    StripNonBlankAppend(pieces, [[]]);
    assert StripNonBlank([[]]) == [];
    AppendNothing(StripNonBlank(pieces), StripNonBlank([[]]));
  }

  /** A terminator at the very end of the text adds no sentence. */
  lemma SentencesTrailing(a: string, t: char)
    requires IsTerminator(t)
    ensures Sentences(a + [t]) == Sentences(a)
  {
    NormalizeAppend(a, [t]);
    assert Normalize([t]) == ['.'];
    SplitOnTrailing(Normalize(a), '.');
    StripNonBlankTrailing(SplitOn(Normalize(a), '.'));
  }

  /** Text without terminators is one sentence, its stripped self, unless it is blank. */
  lemma SentencesOfClause(s: string)
    requires NoTerminator(s)
    ensures Sentences(s) == if Blank(s) then [] else [Strip(s)]
  {
    NormalizeClause(s);
    assert '.' !in s;
    SplitOnNone(s, '.');
    assert [s][1..] == [];
    StripEmptyIff(s);
  }

  /** Text without terminators is reported as exactly one sentence. */
  lemma SentenceCountOfClause(s: string)
    requires NoTerminator(s)
    ensures SentenceCount(s) == 1
  {
    SentencesOfClause(s);
  }

  /** `s` has no character other than whitespace and terminators. */
  predicate ContentFree(s: string) {
    forall i :: 0 <= i < |s| ==> !IsContent(s[i])
  }

  lemma ContentFreeAt(a: string, t: char, b: string)
    requires !IsContent(t)
    ensures ContentFree(a + [t] + b) <==> ContentFree(a) && ContentFree(b)
  {
    var s := a + [t] + b;
    assert forall i :: 0 <= i < |a| ==> s[i] == a[i];
    assert forall i :: 0 <= i < |b| ==> s[|a| + 1 + i] == b[i];
  }

  /** There is no sentence exactly when the text has no character other than whitespace and terminators. */
  lemma {:induction false} SentencesEmptyIff(s: string)
    ensures Sentences(s) == [] <==> ContentFree(s)
    decreases |s|
  {
    var k := FirstTerminator(s);
    if k == |s| {
      assert s[..k] == s;
      SentencesOfClause(s);
    } else {
      var a, b := s[..k], s[k + 1..];
      assert s == a + [s[k]] + b;
      SentencesAt(a, s[k], b);
      ContentFreeAt(a, s[k], b);
      SentencesEmptyIff(a);
      SentencesEmptyIff(b);
    }
  }

  /**
   * The sentences read directly off the text: cut it before each terminator,
   * and keep each segment that is not blank, stripped, in order.
   */
  function Segments(s: string): seq<string>
    decreases |s|
  {
    var k := FirstTerminator(s);
    var clause := if Blank(s[..k]) then [] else [Strip(s[..k])];
    if k == |s| then clause else clause + Segments(s[k + 1..])
  }

  /** The replace-split-strip-filter pipeline yields exactly the non-blank segments between terminators. */
  lemma {:induction false} SentencesAreSegments(s: string)
    ensures Sentences(s) == Segments(s)
    decreases |s|
  {
    var k := FirstTerminator(s);
    if k == |s| {
      assert s[..k] == s;
      SentencesOfClause(s);
    } else {
      var a, b := s[..k], s[k + 1..];
      assert s == a + [s[k]] + b;
      SentencesAt(a, s[k], b);
      SentencesOfClause(a);
      SentencesAreSegments(b);
    }
  }

  /** The reported sentence count is the number of non-blank segments between terminators, or 1 when there is none. */
  lemma SentenceCountSegments(s: string)
    ensures SentenceCount(s) == Max(|Segments(s)|, 1)
  {
    SentencesAreSegments(s);
  }

  /** No string of `ss` contains a terminator. */
  predicate AllNoTerminator(ss: seq<string>) {
    forall i :: 0 <= i < |ss| ==> NoTerminator(ss[i])
  }

  lemma AllNoTerminatorAppend(x: seq<string>, y: seq<string>)
    requires AllNoTerminator(x) && AllNoTerminator(y)
    ensures AllNoTerminator(x + y)
  {
    assert forall i :: 0 <= i < |x + y| ==> (x + y)[i] == if i < |x| then x[i] else y[i - |x|];
  }

  /** Stripping only removes characters, so it keeps a string free of terminators. */
  lemma StripNoTerminator(s: string)
    requires NoTerminator(s)
    ensures NoTerminator(Strip(s))
  {
    var r := Strip(s);
    StripMargins(s);
    var lo: nat :| Margins(s, lo, r);
    assert lo + |r| <= |s| && s[lo..lo + |r|] == r;
    forall i | 0 <= i < |r| ensures !IsTerminator(r[i]) {
      assert r[i] == s[lo..lo + |r|][i] == s[lo + i];
    }
  }

  lemma ClauseNoTerminator(s: string)
    requires NoTerminator(s)
    ensures AllNoTerminator(Sentences(s))
  {
    SentencesOfClause(s);
    if !Blank(s) {
      StripNoTerminator(s);
      assert Sentences(s) == [Strip(s)];
    }
  }

  /** No sentence contains a terminator. */
  lemma {:induction false} SentencesNoTerminator(s: string)
    ensures AllNoTerminator(Sentences(s))
    decreases |s|
  {
    var k := FirstTerminator(s);
    if k == |s| {
      assert s[..k] == s;
      ClauseNoTerminator(s);
    } else {
      var a, b := s[..k], s[k + 1..];
      assert s == a + [s[k]] + b;
      SentencesAt(a, s[k], b);
      SentencesNoTerminator(a);
      SentencesNoTerminator(b);
      AllNoTerminatorAppend(Sentences(a), Sentences(b));
    }
  }

  /** Every sentence takes a character and every two are separated by a terminator, so there are at most (|text| + 1) / 2. */
  lemma {:induction false} SentencesBound(s: string)
    ensures 2 * |Sentences(s)| <= |s| + 1
    decreases |s|
  {
    var k := FirstTerminator(s);
    if k == |s| {
      assert s[..k] == s;
      SentencesOfClause(s);
    } else {
      var a, b := s[..k], s[k + 1..];
      assert s == a + [s[k]] + b;
      SentencesAt(a, s[k], b);
      SentencesBound(a);
      SentencesBound(b);
    }
  }

  // ------------------------------------------------------------------------
  // Sentiment
  // ------------------------------------------------------------------------

  /** The positive lexicon exactly as the service lists it, typo and two-word entry included. */
  const PositiveWords: seq<string> := ["amazinf", "cool stuff", "excellent", "good", "happy", "awesome"]

  /** The negative lexicon exactly as the service lists it. */
  const NegativeWords: seq<string> := ["hate", "bad", "terrible", "awful", "poor"]

  /**
   * The lexicons hold six and five entries, each already in lower case, so
   * each can match a lower-cased token; "amazing", "love" and "great" are not
   * entries.
   */
  lemma LexiconEntries()
    ensures |PositiveWords| == 6 && |NegativeWords| == 5
    ensures forall i :: 0 <= i < |PositiveWords| ==> Lower(PositiveWords[i]) == PositiveWords[i]
    ensures forall i :: 0 <= i < |NegativeWords| ==> Lower(NegativeWords[i]) == NegativeWords[i]
    ensures "amazing" !in PositiveWords && "love" !in PositiveWords && "great" !in PositiveWords
  {
  }

  /** `sum(1 for word in words if word in lexicon)`: whole-token matches, never substrings. */
  function Hits(words: seq<string>, lexicon: seq<string>): (n: nat)
    ensures n <= |words|
  {
    if words == [] then 0 else (if words[0] in lexicon then 1 else 0) + Hits(words[1..], lexicon)
  }

  /** There are no hits exactly when no word is in the lexicon. */
  lemma {:induction false} HitsZero(words: seq<string>, lexicon: seq<string>)
    ensures Hits(words, lexicon) == 0 <==> forall i :: 0 <= i < |words| ==> words[i] !in lexicon
    decreases |words|
  {
    if words != [] {
      HitsZero(words[1..], lexicon);
      assert forall i :: 1 <= i < |words| ==> words[i] == words[1..][i - 1];
    }
  }

  /** Hits add up over concatenation. */
  lemma {:induction false} HitsAppend(x: seq<string>, y: seq<string>, lexicon: seq<string>)
    ensures Hits(x + y, lexicon) == Hits(x, lexicon) + Hits(y, lexicon)
    decreases |x|
  {
    if x == [] {
      assert x + y == y;
    } else {
      assert (x + y)[1..] == x[1..] + y;
      HitsAppend(x[1..], y, lexicon);
    }
  }

  /** When no word is in both lexicons, a word is counted at most once overall. */
  lemma {:induction false} HitsDisjoint(words: seq<string>, p: seq<string>, q: seq<string>)
    requires forall w :: w in p ==> w !in q
    ensures Hits(words, p) + Hits(words, q) <= |words|
    decreases |words|
  {
    if words != [] {
      HitsDisjoint(words[1..], p, q);
    }
  }

  /** Two lexicons that agree on every word count the same hits. */
  lemma {:induction false} HitsAgree(words: seq<string>, p: seq<string>, q: seq<string>)
    requires forall i :: 0 <= i < |words| ==> (words[i] in p <==> words[i] in q)
    ensures Hits(words, p) == Hits(words, q)
    decreases |words|
  {
    if words != [] {
      assert forall i :: 1 <= i < |words| ==> words[1..][i - 1] == words[i];
      HitsAgree(words[1..], p, q);
    }
  }

  /** No word is both positive and negative. */
  lemma LexiconsDisjoint()
    ensures forall w :: w in PositiveWords ==> w !in NegativeWords
  {
  }

  /** The sentiment score as an exact fraction `num / den`. */
  datatype Score = Score(num: int, den: nat)

  /** The real number a score stands for. */
  function Value(s: Score): real
    requires s.den > 0
  {
    s.num as real / s.den as real
  }

  /** The tokens the sentiment is computed over: `text.lower().split()`. */
  function SentimentWords(text: string): (words: seq<string>)
    ensures |words| == |Split(text)|
    ensures forall i :: 0 <= i < |words| ==> words[i] == Lower(Split(text)[i])
  {
    SplitLower(text);
    Split(Lower(text))
  }

  /**
   * (positive hits - negative hits) / max(token count, 1). The denominator is
   * never zero, it is the word count whenever there is a word, and the score
   * lies between -1 and 1.
   */
  function Sentiment(text: string): (s: Score)
    ensures s.den >= 1
    ensures s.den == Max(|Split(text)|, 1)
    ensures -(s.den as int) <= s.num <= s.den
    ensures Split(text) == [] ==> s == Score(0, 1)
  {
    var words := SentimentWords(text);
    LexiconsDisjoint();
    HitsDisjoint(words, PositiveWords, NegativeWords);
    Score(Hits(words, PositiveWords) - Hits(words, NegativeWords), Max(|words|, 1))
  }

  /** The score, as a real number, lies in [-1, 1]. */
  lemma SentimentInRange(text: string)
    ensures -1.0 <= Value(Sentiment(text)) <= 1.0
  {
    var s := Sentiment(text);
    DivBound(s.num as real, s.den as real);
  }

  lemma DivBound(n: real, d: real)
    requires 0.0 < d && -d <= n <= d
    ensures -1.0 <= n / d <= 1.0
  {
  }

  /** Matching ignores case: the text and its lower-cased copy score the same. */
  lemma SentimentIgnoresCase(text: string)
    ensures Sentiment(Lower(text)) == Sentiment(text)
  {
    LowerIdempotent(text);
    SplitLower(text);
  }

  /** The entry "cool stuff" contains a space, so no token ever matches it: the effective positive lexicon has five words. */
  lemma CoolStuffNeverMatches(text: string)
    ensures forall i :: 0 <= i < |SentimentWords(text)| ==> SentimentWords(text)[i] != "cool stuff"
    ensures Hits(SentimentWords(text), PositiveWords)
         == Hits(SentimentWords(text), ["amazinf", "excellent", "good", "happy", "awesome"])
  {
    var words := SentimentWords(text);
    assert IsSpace("cool stuff"[4]);
    assert forall i :: 0 <= i < |words| ==> NoSpace(words[i]) by {
      SplitTokens(Lower(text));
      assert forall i :: 0 <= i < |words| ==> words[i] == Split(Lower(text))[i];
    }
    HitsAgree(words, PositiveWords, ["amazinf", "excellent", "good", "happy", "awesome"]);
  }

  // ------------------------------------------------------------------------
  // analyze_text
  // ------------------------------------------------------------------------

  /** The four statistics `analyze_text` returns, with the score unrounded. */
  datatype Analysis = Analysis(wordCount: nat, characterCount: nat, sentenceCount: nat, sentimentScore: Score)

  /** `analyze_text(text)`. */
  function AnalyzeText(text: string): (a: Analysis)
    ensures a.wordCount == WordRuns(text)
    ensures a.wordCount == 0 <==> Blank(text)
    ensures a.characterCount == |text|
    ensures 1 <= a.sentenceCount <= TerminatorCount(text) + 1
    ensures a.sentimentScore.den == Max(a.wordCount, 1)
    ensures -(a.sentimentScore.den as int) <= a.sentimentScore.num <= a.sentimentScore.den
    ensures a.wordCount == 0 ==> a.sentimentScore == Score(0, 1)
  {
    SplitCountsRuns(text);
    SplitEmptyIffBlank(text);
    Analysis(|Split(text)|, |text|, SentenceCount(text), Sentiment(text))
  }
}
