/** Per-keyword semantic selection: the stable argmax over a keyword's phrase
    scores, kept only when it reaches the threshold. The scores themselves come
    from the embedding model and are inputs here. */
module SemanticMatcher {
  import opened Types
  import opened MatchTable

  /** `k` is the first index holding the maximum of `s`. */
  predicate IsFirstMax(s: seq<real>, k: int)
  {
    && 0 <= k < |s|
    && (forall j :: 0 <= j < |s| ==> s[j] <= s[k])
    && (forall j :: 0 <= j < k ==> s[j] < s[k])
  }

  /** Some score reaches the threshold. */
  predicate Reaches(s: seq<real>, minScore: real)
  {
    exists j :: 0 <= j < |s| && s[j] >= minScore
  }

  /** `scores.argmax()`: ties go to the earliest index. */
  function FirstMaxIndex(s: seq<real>): (k: nat)
    requires |s| > 0
    ensures IsFirstMax(s, k)
    decreases |s|
  {
    if |s| == 1 then 0
    else
      var k := FirstMaxIndex(s[..|s| - 1]);
      if s[|s| - 1] > s[k] then |s| - 1 else k
  }

  /** Only one index is the first maximum. */
  lemma FirstMaxUnique(s: seq<real>, a: int, b: int)
    requires IsFirstMax(s, a) && IsFirstMax(s, b)
    ensures a == b
  {
    assert s[a] == s[b];
  }

  /** The semantic match one keyword yields, given its score for every phrase. */
  function BestPhrase(keyword: string, phrases: seq<string>, scores: seq<real>, minScore: real): (r: Option<Match>)
    requires |scores| == |phrases| > 0
    ensures r.Some? <==> Reaches(scores, minScore)
    ensures r.Some? ==> r.value.keyword == keyword
    ensures r.Some? ==> forall t :: IsFirstMax(scores, t) ==> r.value == Match(keyword, phrases[t], scores[t])
  {
    var top := FirstMaxIndex(scores);
    if scores[top] >= minScore then
      Some(Match(keyword, phrases[top], scores[top]))
    else
      None
  }

  /** Every keyword's score row is aligned with the phrases, and there is a phrase to pick. */
  predicate RowsFit(phrases: seq<string>, rows: seq<seq<real>>)
  {
    forall i :: 0 <= i < |rows| ==> |rows[i]| == |phrases| && |phrases| > 0
  }

  /** The list `results` after the keyword loop: accepted matches in keyword order. */
  function SemanticResults(keywords: seq<string>, phrases: seq<string>, rows: seq<seq<real>>, minScore: real): seq<Match>
    requires |rows| == |keywords| && RowsFit(phrases, rows)
    decreases |keywords|
  {
    if keywords == [] then []
    else
      var n := |keywords| - 1;
      var prev := SemanticResults(keywords[..n], phrases, rows[..n], minScore);
      match BestPhrase(keywords[n], phrases, rows[n], minScore)
      case Some(m) => prev + [m]
      case None => prev
  }

  /** The keywords whose best score reaches the threshold, in keyword order. */
  function AcceptedKeywords(keywords: seq<string>, rows: seq<seq<real>>, minScore: real): seq<string>
    requires |rows| == |keywords|
    decreases |keywords|
  {
    if keywords == [] then []
    else
      var n := |keywords| - 1;
      AcceptedKeywords(keywords[..n], rows[..n], minScore)
        + (if Reaches(rows[n], minScore) then [keywords[n]] else [])
  }

  /** The keyword loop of `extract` (one `score_matches` row per keyword). */
  method SelectSemantic(keywords: seq<string>, phrases: seq<string>, rows: seq<seq<real>>, minScore: real)
    returns (results: seq<Match>)
    requires |rows| == |keywords| && RowsFit(phrases, rows)
    ensures results == SemanticResults(keywords, phrases, rows, minScore)
  {
    results := [];
    for i := 0 to |keywords|
      invariant RowsFit(phrases, rows[..i])
      invariant results == SemanticResults(keywords[..i], phrases, rows[..i], minScore)
    {
      assert keywords[..i + 1][..i] == keywords[..i];
      assert rows[..i + 1][..i] == rows[..i];
      var scores := rows[i];
      var top := FirstMaxIndex(scores);
      if scores[top] >= minScore {
        results := results + [Match(keywords[i], phrases[top], scores[top])];
      }
    }
    assert keywords[..|keywords|] == keywords;
    assert rows[..|rows|] == rows;
  }

  /** Every result entry is what some keyword's own row selects: keywords do not interact. */
  lemma {:induction false} SemanticSource(keywords: seq<string>, phrases: seq<string>, rows: seq<seq<real>>, minScore: real, j: int)
    returns (i: int)
    requires |rows| == |keywords| && RowsFit(phrases, rows)
    requires 0 <= j < |SemanticResults(keywords, phrases, rows, minScore)|
    ensures 0 <= i < |keywords|
    ensures BestPhrase(keywords[i], phrases, rows[i], minScore) == Some(SemanticResults(keywords, phrases, rows, minScore)[j])
    decreases |keywords|
  {
    var n := |keywords| - 1;
    var ks, rs := keywords[..n], rows[..n];
    assert RowsFit(phrases, rs);
    var prev := SemanticResults(ks, phrases, rs, minScore);
    if j < |prev| {
      i := SemanticSource(ks, phrases, rs, minScore, j);
      assert ks[i] == keywords[i] && rs[i] == rows[i];
    } else {
      i := n;
    }
  }

  /** Every keyword whose row selects a match contributes that match to the result. */
  lemma {:induction false} SemanticComplete(keywords: seq<string>, phrases: seq<string>, rows: seq<seq<real>>, minScore: real, i: int)
    requires |rows| == |keywords| && RowsFit(phrases, rows)
    requires 0 <= i < |keywords| && BestPhrase(keywords[i], phrases, rows[i], minScore).Some?
    ensures BestPhrase(keywords[i], phrases, rows[i], minScore).value in SemanticResults(keywords, phrases, rows, minScore)
    decreases |keywords|
  {
    var n := |keywords| - 1;
    var ks, rs := keywords[..n], rows[..n];
    assert RowsFit(phrases, rs);
    if i < n {
      assert ks[i] == keywords[i] && rs[i] == rows[i];
      SemanticComplete(ks, phrases, rs, minScore, i);
    }
  }

  /** The result keywords are the accepted keywords, in keyword order. */
  lemma {:induction false} SemanticKeys(keywords: seq<string>, phrases: seq<string>, rows: seq<seq<real>>, minScore: real)
    requires |rows| == |keywords| && RowsFit(phrases, rows)
    ensures KeysOf(SemanticResults(keywords, phrases, rows, minScore)) == AcceptedKeywords(keywords, rows, minScore)
    decreases |keywords|
  {
    if keywords != [] {
      var n := |keywords| - 1;
      SemanticKeys(keywords[..n], phrases, rows[..n], minScore);
      var prev := SemanticResults(keywords[..n], phrases, rows[..n], minScore);
      match BestPhrase(keywords[n], phrases, rows[n], minScore)
      case Some(m) => KeysOfSnoc(prev, m);
      case None =>
    }
  }
}
