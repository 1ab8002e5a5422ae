# Insight-Agent text analysis, modelled in Dafny

Insight-Agent is a small HTTP service for analysing customer feedback. A
client posts a text to `/analyze` with a bearer token. The service checks the
token and the text's length, then returns four statistics about the text:

- the word count: the number of whitespace-separated tokens;
- the character count;
- the sentence count: pieces between `.`, `!` and `?` that are not blank, and
  never fewer than one;
- a sentiment score: positive lexicon hits minus negative lexicon hits,
  divided by the number of tokens (or by 1 for a text with no tokens).

This project models `analyze_text`, `verify_token` and the request's length
bound of 1 to 5000 characters. All three are pure, so the model is made of
datatypes, functions and lemmas. There are four modules:

- `PyStr` (`pystr.dfy`) models the Python string operations the analysis is
  built from. These are `str.split()` with no argument, `str.split(sep)`
  with a one-character separator, `str.strip()`, `str.lower()` and
  `str.replace` of one character by another. For each it proves the
  property the analysis relies on. `split()` yields exactly one token per
  maximal run of non-whitespace characters. `split(sep)` followed by
  `sep.join` gives back the input. `strip()` removes only whitespace
  margins.
- `Analyzer` (`analyzer.dfy`) models `analyze_text`: the sentence pipeline,
  the two lexicons and the score.
- `Gateway` (`gateway.dfy`) models `verify_token` and the length bound.
- `AnalyzerCases` (`cases.dfy`) computes `analyze_text` on every input
  that the repository's test files post with a token. The tests also post
  "Test text" without a token; that request never reaches `analyze_text`.

The lexicon is modelled exactly as `app/main.py` lists it. That has two
consequences:

- The positive entry "amazinf" is a typo, so "amazing" scores nothing.
- The entry "cool stuff" contains a space. No token of `split()` ever
  contains a space, so that entry can never match (`CoolStuffNeverMatches`).

Some test expectations disagree with the code, and the model follows the
code:

- The positive-sentiment assertions for "I love …" and "Amazing awesome
  great" rely on the words "love", "great" and "amazing", which the lexicon
  does not contain. The case lemmas state the scores the code actually
  computes: 0 for "I love this" and 1/3 for "Amazing awesome great".
- `app/tests/test_api.py` expects 23 characters for "I love cloud
  engineering!". That text has 25 characters.
- The same test reads a `sentiment` field, but the service returns no such
  field.

The sentiment score is kept as an exact fraction `Score(num, den)`. The
service rounds the floating-point quotient to two decimals; the model does
not.

Whitespace is the six ASCII whitespace characters: space, tab, line feed,
carriage return, vertical tab and form feed. Lower-casing is ASCII.

## Model

| member | source | states |
|---|---|---|
| PyStr.Lower | app/main.py:82 | `text.lower()` keeps the length and maps each character to its lower-case form |
| PyStr.LowerIdempotent | app/main.py:82 | lower-casing twice is lower-casing once |
| PyStr.ReplaceChar | app/main.py:76 | `replace(a, b)` keeps the length, turns each `a` into `b` and leaves every other character alone |
| PyStr.ReplaceCharAppend | app/main.py:76 | a one-character replace distributes over concatenation |
| PyStr.ReplaceCharCounts | app/main.py:76 | after replacing `a` by a different `b`, no `a` is left, `b` occurs as often as `a` and `b` together did, and every other character keeps its count |
| PyStr.CountZero | app/main.py:76 | a character's count is zero if and only if it does not occur |
| PyStr.CountAppend | app/main.py:76 | occurrence counts add up over concatenation |
| PyStr.TokenLengthSpec | app/main.py:72 | the first token of `s` is whitespace-free and ends at whitespace or at the end of `s` |
| PyStr.Split | app/main.py:72 | `split()` yields no more tokens than there are characters |
| PyStr.SplitTokens | app/main.py:72 | every token of `split()` is non-empty and free of whitespace |
| PyStr.SplitCountsRuns | app/main.py:72 | `len(text.split())` is the number of maximal runs of non-whitespace characters |
| PyStr.SplitEmptyIffBlank | app/main.py:72 | `split()` is empty if and only if the text is empty or all whitespace |
| PyStr.SplitAtSpace | app/main.py:72 | splitting at a whitespace character splits both sides independently |
| PyStr.SplitWord | app/main.py:72 | a non-empty whitespace-free string is one token |
| PyStr.SplitBound | app/main.py:72 | there are at most (len + 1) / 2 tokens |
| PyStr.JoinSpaceAppend | app/main.py:72 | `" ".join` of two non-empty word lists is the two joins with one space between |
| PyStr.SplitJoinSpace | app/main.py:72 | whitespace-free non-empty words joined by single spaces split back into the same words |
| PyStr.TokenLengthLower | app/main.py:82 | lower-casing does not move the end of the first token |
| PyStr.SplitLower | app/main.py:82 | `text.lower().split()` is `text.split()` with each token lower-cased, with the same count |
| PyStr.StripStartSpec | app/main.py:76 | left-stripping removes a whitespace-only prefix and leaves a suffix that does not start with whitespace |
| PyStr.StripEndSpec | app/main.py:76 | right-stripping removes a whitespace-only suffix and leaves a prefix that does not end with whitespace |
| PyStr.Strip | app/main.py:76 | `strip()` leaves no whitespace at either end |
| PyStr.StripMargins | app/main.py:76 | `strip()` removes exactly a whitespace-only margin at each end and keeps the middle |
| PyStr.StripEmptyIff | app/main.py:76 | `strip()` gives the empty string if and only if the string is all whitespace |
| PyStr.FindSpec | app/main.py:76 | the separator search returns the first occurrence, or the length when there is none |
| PyStr.SplitOn | app/main.py:76 | `split(sep)` always yields at least one piece |
| PyStr.SplitOnLength | app/main.py:76 | `split(sep)` yields one more piece than there are separators |
| PyStr.SplitOnPieces | app/main.py:76 | no piece of `split(sep)` contains the separator |
| PyStr.JoinSplitOn | app/main.py:76 | `sep.join(s.split(sep)) == s` |
| PyStr.SplitOnJoin | app/main.py:76 | separator-free pieces joined by the separator split back into the same pieces |
| PyStr.SplitOnAt | app/main.py:76 | splitting at a separator splits both sides independently |
| PyStr.SplitOnTrailing | app/main.py:76 | a separator at the very end adds one empty piece |
| PyStr.SplitOnNone | app/main.py:76 | a string without the separator is a single piece |
| Analyzer.Normalize | app/main.py:76 | replacing `!` and `?` by `.` keeps the length and turns every terminator into a full stop, changing nothing else |
| Analyzer.NormalizeCount | app/main.py:76 | after normalisation there are as many full stops as there were terminators |
| Analyzer.NormalizeAppend | app/main.py:76 | normalisation distributes over concatenation |
| Analyzer.NormalizeClause | app/main.py:76 | a string without terminators is unchanged by normalisation |
| Analyzer.StripNonBlank | app/main.py:76 | the strip-and-filter comprehension keeps at most one string per piece |
| Analyzer.StripNonBlankTrimmed | app/main.py:76 | every kept string is non-empty and stripped |
| Analyzer.StripNonBlankAppend | app/main.py:76 | the comprehension distributes over concatenation of the piece lists |
| Analyzer.StripNonBlankTrailing | app/main.py:76 | an empty last piece is dropped |
| Analyzer.Sentences | app/main.py:76 | there is at most one sentence more than there are terminators |
| Analyzer.SentencesTrimmed | app/main.py:76 | every sentence is non-empty with no whitespace at either end |
| Analyzer.SentencesAt | app/main.py:76 | a terminator splits the text into two parts whose sentences concatenate |
| Analyzer.SentencesTrailing | app/main.py:76 | a terminator at the very end adds no sentence |
| Analyzer.SentencesOfClause | app/main.py:76 | text without terminators is no sentence if blank, else the one sentence `text.strip()` |
| Analyzer.SentencesEmptyIff | app/main.py:76 | there is no sentence if and only if the text holds only whitespace and terminators |
| Analyzer.StripNoTerminator | app/main.py:76 | stripping a terminator-free string leaves it terminator-free |
| Analyzer.SentencesNoTerminator | app/main.py:76 | no sentence contains a terminator |
| Analyzer.SentencesBound | app/main.py:76 | there are at most (len + 1) / 2 sentences |
| Analyzer.SentencesAreSegments | app/main.py:76 | the sentences are exactly the segments between terminators (cut at each `.`, `!` or `?`), stripped, with the blank ones dropped, in order |
| Analyzer.SentenceCountSegments | app/main.py:76-77 | the sentence count is the number of non-blank segments between terminators, or 1 when there is none |
| Analyzer.FirstTerminator | app/main.py:76 | the first terminator's index, with no terminator before it |
| Analyzer.SentenceCount | app/main.py:76-77 | the count is the number of sentences, or 1 when there is none; it lies between 1 and the terminator count plus one |
| Analyzer.SentenceCountOfClause | app/main.py:76-77 | text without terminators always counts as one sentence |
| Analyzer.LexiconEntries | app/main.py:79-80 | `PositiveWords` and `NegativeWords` hold the source's six and five entries, each already lower-case; "amazing", "love" and "great" are not entries |
| Analyzer.Hits | app/main.py:83-84 | a lexicon hit count never exceeds the number of words |
| Analyzer.HitsZero | app/main.py:83-84 | the hit count is zero if and only if no word is in the lexicon |
| Analyzer.HitsAppend | app/main.py:83-84 | hit counts add up over concatenation |
| Analyzer.HitsDisjoint | app/main.py:83-84 | with disjoint lexicons, positive plus negative hits never exceed the word count |
| Analyzer.HitsAgree | app/main.py:83-84 | lexicons that agree on every word give the same hit count |
| Analyzer.LexiconsDisjoint | app/main.py:79-80 | no word is in both lexicons |
| Analyzer.SentimentWords | app/main.py:82 | the scored words are the tokens of the text, lower-cased, one for one |
| Analyzer.Sentiment | app/main.py:85 | the denominator is max(token count, 1); the numerator lies between minus and plus the denominator; a text without tokens scores 0/1 |
| Analyzer.SentimentInRange | app/main.py:85 | the score, as a real number, lies in [-1, 1] |
| Analyzer.SentimentIgnoresCase | app/main.py:82-85 | a text and its lower-cased copy score the same |
| Analyzer.CoolStuffNeverMatches | app/main.py:79-83 | no token is "cool stuff", so the positive lexicon acts as its five one-word entries |
| Analyzer.AnalyzeText | app/main.py:69-92 | word count is the number of non-whitespace runs and zero exactly for blank text; character count is the length; sentence count and score bounded as above |
| Gateway.VerifyToken | app/main.py:61-67 | an empty token, and only an empty token, gives the `AuthOutcome` `Denied(403, "Invalid credentials")`, the `HTTPException` of line 66; any other token gives `Authorized` with the token unchanged |
| Gateway.ValidRequest | app/main.py:31 | the request model accepts a text exactly when its length is between `MinTextLength` (1) and `MaxTextLength` (5000) |
| Gateway.ValidRequestBounds | app/main.py:31 | for a text of 1 to 5000 characters: character count in [1, 5000], at most 2500 words, denominator in [1, 2500], sentence count in [1, 2500] |
| AnalyzerCases.SentimentOfWords | app/main.py:82-85 | a text of space-joined tokens splits into those tokens and scores by their lower-cased forms |
| AnalyzerCases.SentimentOfSplit | app/main.py:82-85 | a text's score is determined by its lower-cased tokens |
| AnalyzerCases.OneSentence | app/main.py:76-77 | a non-blank terminator-free clause followed by one terminator is one sentence |
| AnalyzerCases.CloudEngineeringPawaIT | app/test_api.py:23 | "I love cloud engineering Pawa IT!" gives 6 words, 33 characters, 1 sentence, score 0/6 |
| AnalyzerCases.NegativeService | app/test_api.py:49 | "I hate this terrible awful service" gives 6 words, 34 characters, 1 sentence, score -3/6 |
| AnalyzerCases.LoveThis | app/test_api.py:62 | "I love this" gives 3 words, 11 characters, 1 sentence, score 0/3 |
| AnalyzerCases.HateThis | app/test_api.py:63 | "I hate this" gives 3 words, 11 characters, 1 sentence, score -1/3 |
| AnalyzerCases.AmazingAwesomeGreat | app/test_api.py:64 | "Amazing awesome great" gives 3 words, 21 characters, 1 sentence, score 1/3 |
| AnalyzerCases.TerribleAwfulBad | app/test_api.py:65 | "Terrible awful bad" gives 3 words, 18 characters, 1 sentence, score -3/3 |
| AnalyzerCases.GoodButBad | app/test_api.py:66 | "Good but bad" gives 3 words, 12 characters, 1 sentence, score 0/3 |
| AnalyzerCases.CloudEngineering | app/tests/test_api.py:19 | "I love cloud engineering!" gives 4 words, 25 characters, 1 sentence, score 0/4 |

## Left out

- The FastAPI application is not modelled: the `/`, `/health` and `/analyze` routes, CORS, the uvicorn entry point and the response model. Only the length bound of the request model and the two functions the endpoint calls are kept.
- Logging, including the Google Cloud logging client, is output only and does not affect any result.
- The `original_text` and `language` fields of the response are not modelled. They copy the input and a constant.
- The endpoint's catch-all handler that turns any exception into a 500 error is not modelled. `analyze_text` raises nothing on a string.
- Which error a request gets when it fails both checks (a 403 or a 422) depends on the framework's order of evaluation. It is not modelled.
- A missing or malformed `Authorization` header is rejected by the `HTTPBearer` dependency before `verify_token` runs. That library is not part of this model.
- Analyzer.Sentiment: the score is the exact fraction; `round(score, 2)` and floating-point division are not modelled.
- PyStr.Split: Python's `str.split()` also splits at Unicode whitespace and at the separators `\x1c` to `\x1f`; the model treats only the six ASCII whitespace characters as whitespace.
- PyStr.Strip: like `Split`, uses ASCII whitespace only.
- A Python string may hold a lone surrogate code point (for example from a JSON `"\ud800"` escape); Dafny's `char` cannot, so such texts are not modelled.
- PyStr.Lower: lower-cases only `A` to `Z`; Python's `str.lower()` also maps non-ASCII letters.
