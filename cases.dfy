/**
 * What `analyze_text` returns on the inputs of the service's own test files,
 * under the lexicon the service actually contains. Where a test expects a
 * positive score because of "love", "great" or "amazing", the lemma states
 * the score the code computes instead.
 *
 * Each input is a parameter fixed by a `requires`, and each fact about it
 * is a small lemma of its own, so that the verifier never has to evaluate
 * the whole analysis of a literal string at once.
 */
module AnalyzerCases {
  import opened PyStr
  import opened Analyzer

  /** Strings a whitespace split can produce: non-empty and whitespace-free. */
  predicate Tokens(ws: seq<string>) {
    forall i :: 0 <= i < |ws| ==> ws[i] != [] && NoSpace(ws[i])
  }

  /** Every word lower-cased. */
  function LowerWords(ws: seq<string>): (r: seq<string>)
    ensures |r| == |ws|
    ensures forall i :: 0 <= i < |ws| ==> r[i] == Lower(ws[i])
  {
    if ws == [] then [] else [Lower(ws[0])] + LowerWords(ws[1..])
  }

  /** A text made of the tokens `ws` joined by single spaces splits into `ws` and scores by their lower-cased forms. */
  lemma SentimentOfWords(text: string, ws: seq<string>)
    requires text == JoinSpace(ws) && Tokens(ws)
    ensures Split(text) == ws
    ensures Sentiment(text)
         == Score(Hits(LowerWords(ws), PositiveWords) - Hits(LowerWords(ws), NegativeWords), Max(|ws|, 1))
  {
    SplitJoinSpace(ws);
    SentimentOfSplit(text, ws);
  }

  /** A text that splits into `ws` scores by the lower-cased forms of `ws`. */
  lemma SentimentOfSplit(text: string, ws: seq<string>)
    requires Split(text) == ws
    ensures Sentiment(text)
         == Score(Hits(LowerWords(ws), PositiveWords) - Hits(LowerWords(ws), NegativeWords), Max(|ws|, 1))
  {
    LowerWordsOf(SentimentWords(text), ws);
  }

  lemma LowerWordsOf(l: seq<string>, ws: seq<string>)
    requires |l| == |ws| && forall i :: 0 <= i < |ws| ==> l[i] == Lower(ws[i])
    ensures l == LowerWords(ws)
  {
  }

  /** Two joined halves, joined by one more space, are the join of the whole. */
  lemma JoinHalves(t: string, t1: string, t2: string, ws: seq<string>, a: seq<string>, b: seq<string>)
    requires a != [] && b != [] && ws == a + b
    requires t1 == JoinSpace(a) && t2 == JoinSpace(b) && t == t1 + " " + t2
    ensures t == JoinSpace(ws)
  {
    JoinSpaceAppend(a, b);
  }

  /** A non-blank clause followed by one terminator is one sentence. */
  lemma OneSentence(text: string, body: string, t: char)
    requires text == body + [t] && NoTerminator(body) && !Blank(body) && IsTerminator(t)
    ensures SentenceCount(text) == 1
  {
    SentencesTrailing(body, t);
    SentencesOfClause(body);
  }

  lemma CloudEngineeringPawaITLower()
    ensures Lower("I") == "i"
    ensures Lower("love") == "love"
    ensures Lower("cloud") == "cloud"
    ensures Lower("engineering") == "engineering"
    ensures Lower("Pawa") == "pawa"
    ensures Lower("IT!") == "it!"
  {
  }

  lemma CloudEngineeringPawaITWords(ws: seq<string>)
    requires ws == ["I", "love", "cloud", "engineering", "Pawa", "IT!"]
    ensures Tokens(ws)
    ensures LowerWords(ws) == ["i", "love", "cloud", "engineering", "pawa", "it!"]
  {
    assert NoSpace("I") && NoSpace("love") && NoSpace("cloud") && NoSpace("engineering") && NoSpace("Pawa") && NoSpace("IT!");
    CloudEngineeringPawaITLower();
  }

  lemma CloudEngineeringPawaITLexicon()
    ensures "i" !in PositiveWords && "love" !in PositiveWords && "cloud" !in PositiveWords && "engineering" !in PositiveWords && "pawa" !in PositiveWords && "it!" !in PositiveWords
    ensures "i" !in NegativeWords && "love" !in NegativeWords && "cloud" !in NegativeWords && "engineering" !in NegativeWords && "pawa" !in NegativeWords && "it!" !in NegativeWords
  {
  }

  lemma CloudEngineeringPawaITHits()
    ensures Hits(["i", "love", "cloud", "engineering", "pawa", "it!"], PositiveWords) == 0
    ensures Hits(["i", "love", "cloud", "engineering", "pawa", "it!"], NegativeWords) == 0
  {
    CloudEngineeringPawaITLexicon();
  }

  lemma CloudEngineeringPawaITHalves(text: string, ws: seq<string>)
    requires text == "I love cloud engineering Pawa IT!" && ws == ["I", "love", "cloud", "engineering", "Pawa", "IT!"]
    ensures text == "I love cloud" + " " + "engineering Pawa IT!"
    ensures ws == ["I", "love", "cloud"] + ["engineering", "Pawa", "IT!"]
  {
  }

  lemma CloudEngineeringPawaITJoinHalves()
    ensures "I love cloud" == JoinSpace(["I", "love", "cloud"])
    ensures "engineering Pawa IT!" == JoinSpace(["engineering", "Pawa", "IT!"])
  {
  }

  lemma CloudEngineeringPawaITJoin(text: string, ws: seq<string>)
    requires text == "I love cloud engineering Pawa IT!" && ws == ["I", "love", "cloud", "engineering", "Pawa", "IT!"]
    ensures text == JoinSpace(ws)
  {
    CloudEngineeringPawaITHalves(text, ws);
    CloudEngineeringPawaITJoinHalves();
    JoinHalves(text, "I love cloud", "engineering Pawa IT!", ws, ["I", "love", "cloud"], ["engineering", "Pawa", "IT!"]);
  }

  lemma CloudEngineeringPawaITSentences(text: string)
    requires text == "I love cloud engineering Pawa IT!"
    ensures SentenceCount(text) == 1
  {
    assert text == "I love cloud engineering Pawa IT" + ['!'];
    assert NoTerminator("I love cloud engineering Pawa IT") && !IsSpace("I love cloud engineering Pawa IT"[0]);
    OneSentence(text, "I love cloud engineering Pawa IT", '!');
  }

  /** The request body of app/test_api.py:23: six words, 33 characters and one sentence. The score is 0, not positive, because "love" is not in the lexicon. */
  lemma CloudEngineeringPawaIT(text: string)
    requires text == "I love cloud engineering Pawa IT!"
    ensures AnalyzeText(text) == Analysis(6, 33, 1, Score(0, 6))
  {
    var ws := ["I", "love", "cloud", "engineering", "Pawa", "IT!"];
    CloudEngineeringPawaITJoin(text, ws);
    CloudEngineeringPawaITWords(ws);
    CloudEngineeringPawaITHits();
    CloudEngineeringPawaITSentences(text);
    SentimentOfWords(text, ws);
  }

  lemma NegativeServiceLower()
    ensures Lower("I") == "i"
    ensures Lower("hate") == "hate"
    ensures Lower("this") == "this"
    ensures Lower("terrible") == "terrible"
    ensures Lower("awful") == "awful"
    ensures Lower("service") == "service"
  {
  }

  lemma NegativeServiceWords(ws: seq<string>)
    requires ws == ["I", "hate", "this", "terrible", "awful", "service"]
    ensures Tokens(ws)
    ensures LowerWords(ws) == ["i", "hate", "this", "terrible", "awful", "service"]
  {
    assert NoSpace("I") && NoSpace("hate") && NoSpace("this") && NoSpace("terrible") && NoSpace("awful") && NoSpace("service");
    NegativeServiceLower();
  }

  lemma NegativeServiceLexicon()
    ensures "i" !in PositiveWords && "hate" !in PositiveWords && "this" !in PositiveWords && "terrible" !in PositiveWords && "awful" !in PositiveWords && "service" !in PositiveWords
    ensures "i" !in NegativeWords && "hate" in NegativeWords && "this" !in NegativeWords && "terrible" in NegativeWords && "awful" in NegativeWords && "service" !in NegativeWords
  {
  }

  lemma NegativeServiceHits()
    ensures Hits(["i", "hate", "this", "terrible", "awful", "service"], PositiveWords) == 0
    ensures Hits(["i", "hate", "this", "terrible", "awful", "service"], NegativeWords) == 3
  {
    NegativeServiceLexicon();
  }

  lemma NegativeServiceHalves(text: string, ws: seq<string>)
    requires text == "I hate this terrible awful service" && ws == ["I", "hate", "this", "terrible", "awful", "service"]
    ensures text == "I hate this" + " " + "terrible awful service"
    ensures ws == ["I", "hate", "this"] + ["terrible", "awful", "service"]
  {
  }

  lemma NegativeServiceJoinHalves()
    ensures "I hate this" == JoinSpace(["I", "hate", "this"])
    ensures "terrible awful service" == JoinSpace(["terrible", "awful", "service"])
  {
  }

  lemma NegativeServiceJoin(text: string, ws: seq<string>)
    requires text == "I hate this terrible awful service" && ws == ["I", "hate", "this", "terrible", "awful", "service"]
    ensures text == JoinSpace(ws)
  {
    NegativeServiceHalves(text, ws);
    NegativeServiceJoinHalves();
    JoinHalves(text, "I hate this", "terrible awful service", ws, ["I", "hate", "this"], ["terrible", "awful", "service"]);
  }

  lemma NegativeServiceSentences(text: string)
    requires text == "I hate this terrible awful service"
    ensures SentenceCount(text) == 1
  {
    assert NoTerminator(text);
    SentenceCountOfClause(text);
  }

  /** app/test_api.py:49: three of the six words are negative. */
  lemma NegativeService(text: string)
    requires text == "I hate this terrible awful service"
    ensures AnalyzeText(text) == Analysis(6, 34, 1, Score(-3, 6))
  {
    var ws := ["I", "hate", "this", "terrible", "awful", "service"];
    NegativeServiceJoin(text, ws);
    NegativeServiceWords(ws);
    NegativeServiceHits();
    NegativeServiceSentences(text);
    SentimentOfWords(text, ws);
  }

  lemma LoveThisLower()
    ensures Lower("I") == "i"
    ensures Lower("love") == "love"
    ensures Lower("this") == "this"
  {
  }

  lemma LoveThisWords(ws: seq<string>)
    requires ws == ["I", "love", "this"]
    ensures Tokens(ws)
    ensures LowerWords(ws) == ["i", "love", "this"]
  {
    assert NoSpace("I") && NoSpace("love") && NoSpace("this");
    LoveThisLower();
  }

  lemma LoveThisLexicon()
    ensures "i" !in PositiveWords && "love" !in PositiveWords && "this" !in PositiveWords
    ensures "i" !in NegativeWords && "love" !in NegativeWords && "this" !in NegativeWords
  {
  }

  lemma LoveThisHits()
    ensures Hits(["i", "love", "this"], PositiveWords) == 0
    ensures Hits(["i", "love", "this"], NegativeWords) == 0
  {
    LoveThisLexicon();
  }

  lemma LoveThisJoin(text: string, ws: seq<string>)
    requires text == "I love this" && ws == ["I", "love", "this"]
    ensures text == JoinSpace(ws)
  {
    assert "I love this" == JoinSpace(["I", "love", "this"]);
  }

  lemma LoveThisSentences(text: string)
    requires text == "I love this"
    ensures SentenceCount(text) == 1
  {
    assert NoTerminator(text);
    SentenceCountOfClause(text);
  }

  /** app/test_api.py:62: "love" is not in the lexicon, so the score is 0 rather than 1/3. */
  lemma LoveThis(text: string)
    requires text == "I love this"
    ensures AnalyzeText(text) == Analysis(3, 11, 1, Score(0, 3))
  {
    var ws := ["I", "love", "this"];
    LoveThisJoin(text, ws);
    LoveThisWords(ws);
    LoveThisHits();
    LoveThisSentences(text);
    SentimentOfWords(text, ws);
  }

  lemma HateThisLower()
    ensures Lower("I") == "i"
    ensures Lower("hate") == "hate"
    ensures Lower("this") == "this"
  {
  }

  lemma HateThisWords(ws: seq<string>)
    requires ws == ["I", "hate", "this"]
    ensures Tokens(ws)
    ensures LowerWords(ws) == ["i", "hate", "this"]
  {
    assert NoSpace("I") && NoSpace("hate") && NoSpace("this");
    HateThisLower();
  }

  lemma HateThisLexicon()
    ensures "i" !in PositiveWords && "hate" !in PositiveWords && "this" !in PositiveWords
    ensures "i" !in NegativeWords && "hate" in NegativeWords && "this" !in NegativeWords
  {
  }

  lemma HateThisHits()
    ensures Hits(["i", "hate", "this"], PositiveWords) == 0
    ensures Hits(["i", "hate", "this"], NegativeWords) == 1
  {
    HateThisLexicon();
  }

  lemma HateThisJoin(text: string, ws: seq<string>)
    requires text == "I hate this" && ws == ["I", "hate", "this"]
    ensures text == JoinSpace(ws)
  {
    assert "I hate this" == JoinSpace(["I", "hate", "this"]);
  }

  lemma HateThisSentences(text: string)
    requires text == "I hate this"
    ensures SentenceCount(text) == 1
  {
    assert NoTerminator(text);
    SentenceCountOfClause(text);
  }

  /** app/test_api.py:63: one negative word out of three. */
  lemma HateThis(text: string)
    requires text == "I hate this"
    ensures AnalyzeText(text) == Analysis(3, 11, 1, Score(-1, 3))
  {
    var ws := ["I", "hate", "this"];
    HateThisJoin(text, ws);
    HateThisWords(ws);
    HateThisHits();
    HateThisSentences(text);
    SentimentOfWords(text, ws);
  }

  lemma AmazingAwesomeGreatLower()
    ensures Lower("Amazing") == "amazing"
    ensures Lower("awesome") == "awesome"
    ensures Lower("great") == "great"
  {
  }

  lemma AmazingAwesomeGreatWords(ws: seq<string>)
    requires ws == ["Amazing", "awesome", "great"]
    ensures Tokens(ws)
    ensures LowerWords(ws) == ["amazing", "awesome", "great"]
  {
    assert NoSpace("Amazing") && NoSpace("awesome") && NoSpace("great");
    AmazingAwesomeGreatLower();
  }

  lemma AmazingAwesomeGreatLexicon()
    ensures "amazing" !in PositiveWords && "awesome" in PositiveWords && "great" !in PositiveWords
    ensures "amazing" !in NegativeWords && "awesome" !in NegativeWords && "great" !in NegativeWords
  {
  }

  lemma AmazingAwesomeGreatHits()
    ensures Hits(["amazing", "awesome", "great"], PositiveWords) == 1
    ensures Hits(["amazing", "awesome", "great"], NegativeWords) == 0
  {
    AmazingAwesomeGreatLexicon();
  }

  lemma AmazingAwesomeGreatJoin(text: string, ws: seq<string>)
    requires text == "Amazing awesome great" && ws == ["Amazing", "awesome", "great"]
    ensures text == JoinSpace(ws)
  {
    assert "Amazing awesome great" == JoinSpace(["Amazing", "awesome", "great"]);
  }

  lemma AmazingAwesomeGreatSentences(text: string)
    requires text == "Amazing awesome great"
    ensures SentenceCount(text) == 1
  {
    assert NoTerminator(text);
    SentenceCountOfClause(text);
  }

  /** app/test_api.py:64: only "awesome" matches, since "amazing" is not the entry "amazinf" and "great" is absent, so 1/3 rather than 1. */
  lemma AmazingAwesomeGreat(text: string)
    requires text == "Amazing awesome great"
    ensures AnalyzeText(text) == Analysis(3, 21, 1, Score(1, 3))
  {
    var ws := ["Amazing", "awesome", "great"];
    AmazingAwesomeGreatJoin(text, ws);
    AmazingAwesomeGreatWords(ws);
    AmazingAwesomeGreatHits();
    AmazingAwesomeGreatSentences(text);
    SentimentOfWords(text, ws);
  }

  lemma TerribleAwfulBadLower()
    ensures Lower("Terrible") == "terrible"
    ensures Lower("awful") == "awful"
    ensures Lower("bad") == "bad"
  {
  }

  lemma TerribleAwfulBadWords(ws: seq<string>)
    requires ws == ["Terrible", "awful", "bad"]
    ensures Tokens(ws)
    ensures LowerWords(ws) == ["terrible", "awful", "bad"]
  {
    assert NoSpace("Terrible") && NoSpace("awful") && NoSpace("bad");
    TerribleAwfulBadLower();
  }

  lemma TerribleAwfulBadLexicon()
    ensures "terrible" !in PositiveWords && "awful" !in PositiveWords && "bad" !in PositiveWords
    ensures "terrible" in NegativeWords && "awful" in NegativeWords && "bad" in NegativeWords
  {
  }

  lemma TerribleAwfulBadHits()
    ensures Hits(["terrible", "awful", "bad"], PositiveWords) == 0
    ensures Hits(["terrible", "awful", "bad"], NegativeWords) == 3
  {
    TerribleAwfulBadLexicon();
  }

  lemma TerribleAwfulBadJoin(text: string, ws: seq<string>)
    requires text == "Terrible awful bad" && ws == ["Terrible", "awful", "bad"]
    ensures text == JoinSpace(ws)
  {
    assert "Terrible awful bad" == JoinSpace(["Terrible", "awful", "bad"]);
  }

  lemma TerribleAwfulBadSentences(text: string)
    requires text == "Terrible awful bad"
    ensures SentenceCount(text) == 1
  {
    assert NoTerminator(text);
    SentenceCountOfClause(text);
  }

  /** app/test_api.py:65: matching ignores case, so all three words are negative. */
  lemma TerribleAwfulBad(text: string)
    requires text == "Terrible awful bad"
    ensures AnalyzeText(text) == Analysis(3, 18, 1, Score(-3, 3))
  {
    var ws := ["Terrible", "awful", "bad"];
    TerribleAwfulBadJoin(text, ws);
    TerribleAwfulBadWords(ws);
    TerribleAwfulBadHits();
    TerribleAwfulBadSentences(text);
    SentimentOfWords(text, ws);
  }

  lemma GoodButBadLower()
    ensures Lower("Good") == "good"
    ensures Lower("but") == "but"
    ensures Lower("bad") == "bad"
  {
  }

  lemma GoodButBadWords(ws: seq<string>)
    requires ws == ["Good", "but", "bad"]
    ensures Tokens(ws)
    ensures LowerWords(ws) == ["good", "but", "bad"]
  {
    assert NoSpace("Good") && NoSpace("but") && NoSpace("bad");
    GoodButBadLower();
  }

  lemma GoodButBadLexicon()
    ensures "good" in PositiveWords && "but" !in PositiveWords && "bad" !in PositiveWords
    ensures "good" !in NegativeWords && "but" !in NegativeWords && "bad" in NegativeWords
  {
  }

  lemma GoodButBadHits()
    ensures Hits(["good", "but", "bad"], PositiveWords) == 1
    ensures Hits(["good", "but", "bad"], NegativeWords) == 1
  {
    GoodButBadLexicon();
  }

  lemma GoodButBadJoin(text: string, ws: seq<string>)
    requires text == "Good but bad" && ws == ["Good", "but", "bad"]
    ensures text == JoinSpace(ws)
  {
    assert "Good but bad" == JoinSpace(["Good", "but", "bad"]);
  }

  lemma GoodButBadSentences(text: string)
    requires text == "Good but bad"
    ensures SentenceCount(text) == 1
  {
    assert NoTerminator(text);
    SentenceCountOfClause(text);
  }

  /** app/test_api.py:66: one positive and one negative word cancel out. */
  lemma GoodButBad(text: string)
    requires text == "Good but bad"
    ensures AnalyzeText(text) == Analysis(3, 12, 1, Score(0, 3))
  {
    var ws := ["Good", "but", "bad"];
    GoodButBadJoin(text, ws);
    GoodButBadWords(ws);
    GoodButBadHits();
    GoodButBadSentences(text);
    SentimentOfWords(text, ws);
  }

  lemma CloudEngineeringLower()
    ensures Lower("I") == "i"
    ensures Lower("love") == "love"
    ensures Lower("cloud") == "cloud"
    ensures Lower("engineering!") == "engineering!"
  {
  }

  lemma CloudEngineeringWords(ws: seq<string>)
    requires ws == ["I", "love", "cloud", "engineering!"]
    ensures Tokens(ws)
    ensures LowerWords(ws) == ["i", "love", "cloud", "engineering!"]
  {
    assert NoSpace("I") && NoSpace("love") && NoSpace("cloud") && NoSpace("engineering!");
    CloudEngineeringLower();
  }

  lemma CloudEngineeringLexicon()
    ensures "i" !in PositiveWords && "love" !in PositiveWords && "cloud" !in PositiveWords && "engineering!" !in PositiveWords
    ensures "i" !in NegativeWords && "love" !in NegativeWords && "cloud" !in NegativeWords && "engineering!" !in NegativeWords
  {
  }

  lemma CloudEngineeringHits()
    ensures Hits(["i", "love", "cloud", "engineering!"], PositiveWords) == 0
    ensures Hits(["i", "love", "cloud", "engineering!"], NegativeWords) == 0
  {
    CloudEngineeringLexicon();
  }

  lemma CloudEngineeringHalves(text: string, ws: seq<string>)
    requires text == "I love cloud engineering!" && ws == ["I", "love", "cloud", "engineering!"]
    ensures text == "I love cloud" + " " + "engineering!"
    ensures ws == ["I", "love", "cloud"] + ["engineering!"]
  {
  }

  lemma CloudEngineeringJoinHalves()
    ensures "I love cloud" == JoinSpace(["I", "love", "cloud"])
    ensures "engineering!" == JoinSpace(["engineering!"])
  {
  }

  lemma CloudEngineeringJoin(text: string, ws: seq<string>)
    requires text == "I love cloud engineering!" && ws == ["I", "love", "cloud", "engineering!"]
    ensures text == JoinSpace(ws)
  {
    CloudEngineeringHalves(text, ws);
    CloudEngineeringJoinHalves();
    JoinHalves(text, "I love cloud", "engineering!", ws, ["I", "love", "cloud"], ["engineering!"]);
  }

  lemma CloudEngineeringSentences(text: string)
    requires text == "I love cloud engineering!"
    ensures SentenceCount(text) == 1
  {
    assert text == "I love cloud engineering" + ['!'];
    assert NoTerminator("I love cloud engineering") && !IsSpace("I love cloud engineering"[0]);
    OneSentence(text, "I love cloud engineering", '!');
  }

  /** app/tests/test_api.py:19: four words and one sentence in 25 characters (that test expects 23). */
  lemma CloudEngineering(text: string)
    requires text == "I love cloud engineering!"
    ensures AnalyzeText(text) == Analysis(4, 25, 1, Score(0, 4))
  {
    var ws := ["I", "love", "cloud", "engineering!"];
    CloudEngineeringJoin(text, ws);
    CloudEngineeringWords(ws);
    CloudEngineeringHits();
    CloudEngineeringSentences(text);
    SentimentOfWords(text, ws);
  }
}
