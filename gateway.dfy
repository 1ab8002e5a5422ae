/**
 * The two checks the `/analyze` endpoint applies before it calls
 * `analyze_text`: the bearer token must be non-empty, and the request text
 * must be between 1 and 5000 characters long.
 */
module Gateway {
  import opened PyStr
  import opened Analyzer

  /** The bounds on the request text, from the request model's field constraints. */
  const MinTextLength: nat := 1
  const MaxTextLength: nat := 5000

  /** A request body the request model accepts. */
  predicate ValidRequest(text: string) {
    MinTextLength <= |text| <= MaxTextLength
  }

  /** What `verify_token` does with a token: hand it on, or raise an HTTP error. */
  datatype AuthOutcome = Authorized(token: string) | Denied(status: nat, detail: string)

  /**
   * `verify_token`: an empty token is refused with status 403 and the detail
   * "Invalid credentials"; any other token is accepted and returned as it is.
   */
  function VerifyToken(token: string): (r: AuthOutcome)
    ensures r.Denied? <==> token == []
    ensures r.Denied? ==> r.status == 403 && r.detail == "Invalid credentials"
    ensures r.Authorized? ==> r.token == token && r.token != []
  {
    if token == [] then Denied(403, "Invalid credentials") else Authorized(token)
  }

  /**
   * For every text the request model admits, the statistics are bounded by
   * the length bound: at most 5000 characters, and at most 2500 words and
   * 2500 sentences, since each word or sentence needs a separator after it
   * except the last.
   */
  lemma ValidRequestBounds(text: string)
    requires ValidRequest(text)
    ensures 1 <= AnalyzeText(text).characterCount <= 5000
    ensures AnalyzeText(text).wordCount <= 2500
    ensures 1 <= AnalyzeText(text).sentimentScore.den <= 2500
    ensures 1 <= AnalyzeText(text).sentenceCount <= 2500
  {
    SplitCountsRuns(text);
    SplitBound(text);
    SentencesBound(text);
  }
}
