/** `KeywordExtractor`: validated configuration, the per-document pipeline and the
    batch loop. The chunker, the embedding model with its whitening and scoring, and
    the entity recogniser are given as `Providers`. */
module Extractor {
  import opened Types
  import opened MatchTable
  import opened WeightConfig
  import opened SemanticMatcher
  import opened EntityMapper
  import opened ResultMerger

  /** The external collaborators, as total functions of their inputs:
      `chunk_phrases`, `score_matches` (after `embed_texts` and `whiten`, for fixed
      baseline text and IDF data) and `extract_structured`. */
  datatype Providers = Providers(
    chunk: string -> seq<string>,
    score: (string, seq<string>) -> seq<real>,
    ner: string -> seq<Entity>)

  /** The return value of `extract`. */
  datatype Extraction = Extraction(semanticMatches: seq<Match>, entities: seq<Entity>)

  /** What the collaborators guarantee for one document: each keyword's scores are aligned
      with the phrases, and there is a phrase whenever there is a keyword to score. */
  predicate Analyzable(p: Providers, text: string, keywords: seq<string>)
  {
    var phrases := p.chunk(text);
    && (|keywords| > 0 ==> |phrases| > 0)
    && forall k :: k in keywords ==> |p.score(k, phrases)| == |phrases|
  }

  /** One `score_matches` row per keyword, in keyword order. */
  function ScoreRows(p: Providers, phrases: seq<string>, keywords: seq<string>): seq<seq<real>>
  {
    seq(|keywords|, i requires 0 <= i < |keywords| => p.score(keywords[i], phrases))
  }

  lemma RowsFitWhenAnalyzable(p: Providers, text: string, keywords: seq<string>)
    requires Analyzable(p, text, keywords)
    ensures RowsFit(p.chunk(text), ScoreRows(p, p.chunk(text), keywords))
  {
  }

  /** What `extract` returns for one document. */
  function Extracted(validTypes: set<string>, weights: map<string, real>, p: Providers,
                     text: string, keywords: seq<string>, minScore: real): Extraction
    requires Analyzable(p, text, keywords)
  {
    var phrases := p.chunk(text);
    RowsFitWhenAnalyzable(p, text, keywords);
    var semantic := KeepBest(SemanticResults(keywords, phrases, ScoreRows(p, phrases, keywords), minScore));
    var ents := p.ner(text);
    Extraction(Merge(semantic, EntityTable(validTypes, weights, keywords, ents)), ents)
  }

  class KeywordExtractor {
    var baselineText: string
    var validEntityTypes: set<string>
    var entityWeights: map<string, real>

    /** The configuration invariant established at construction. */
    ghost predicate Valid()
      reads this
    {
      ParsedDate in validEntityTypes && WeightsWithin(validEntityTypes, entityWeights)
    }

    /** The field assignments of `__init__`, once the weights have passed validation. */
    constructor (baselineText: string, modelLabels: set<string>, weights: map<string, real>)
      requires WeightsWithin(ValidEntityTypes(modelLabels), weights)
      ensures Valid()
      ensures this.baselineText == baselineText
      ensures validEntityTypes == ValidEntityTypes(modelLabels)
      ensures entityWeights == weights
    {
      this.baselineText := baselineText;
      validEntityTypes := modelLabels;
      validEntityTypes := validEntityTypes + {ParsedDate};
      entityWeights := weights;
    }

    /** `KeywordExtractor(baseline_text, entity_weights)`: the checks run before the
        object is handed out; on a failed check no extractor exists. */
    static method Create(baselineText: string, modelLabels: set<string>, arg: WeightsArg)
      returns (r: Result<KeywordExtractor, ConfigError>)
      ensures r.Failure? ==> Validate(ValidEntityTypes(modelLabels), arg) == Failure(r.error)
      ensures r.Success? ==>
        && fresh(r.value)
        && r.value.Valid()
        && r.value.baselineText == baselineText
        && r.value.validEntityTypes == ValidEntityTypes(modelLabels)
        && Validate(ValidEntityTypes(modelLabels), arg) == Success(r.value.entityWeights)
    {
      var valid := ValidEntityTypes(modelLabels);
      var checked := ValidateWeights(valid, arg);
      match checked
      case Failure(e) =>
        r := Failure(e);
      case Success(weights) =>
        ValidatedWeights(valid, arg);
        var x := new KeywordExtractor(baselineText, modelLabels, weights);
        r := Success(x);
    }

    /** `extract(text, keywords, min_score=...)`. */
    method Extract(p: Providers, text: string, keywords: seq<string>, minScore: real) returns (r: Extraction)
      requires Analyzable(p, text, keywords)
      ensures r == Extracted(validEntityTypes, entityWeights, p, text, keywords, minScore)
    {
      var phrases := p.chunk(text);
      var rows := ScoreRows(p, phrases, keywords);
      RowsFitWhenAnalyzable(p, text, keywords);
      var results := SelectSemantic(keywords, phrases, rows, minScore);
      var finalResults := KeepBestPerKeyword(results);
      var ents := p.ner(text);
      var entityMatches := CollectEntityMatches(validEntityTypes, entityWeights, keywords, ents);
      finalResults := MergeMatches(finalResults, entityMatches);
      r := Extraction(finalResults, ents);
    }

    /** `extract_many(texts, keywords, min_score=...)`: one result per text, in order,
        each the single-document result. */
    method ExtractMany(p: Providers, texts: seq<string>, keywords: seq<string>, minScore: real)
      returns (results: seq<Extraction>)
      requires forall i :: 0 <= i < |texts| ==> Analyzable(p, texts[i], keywords)
      ensures |results| == |texts|
      ensures forall i :: 0 <= i < |texts| ==>
        results[i] == Extracted(validEntityTypes, entityWeights, p, texts[i], keywords, minScore)
    {
      results := [];
      for i := 0 to |texts|
        invariant results == ExtractedBatch(validEntityTypes, entityWeights, p, texts[..i], keywords, minScore)
      {
        assert texts[..i + 1][..i] == texts[..i];
        var result := Extract(p, texts[i], keywords, minScore);
        results := results + [result];
      }
      assert texts[..|texts|] == texts;
      ExtractedBatchAt(validEntityTypes, entityWeights, p, texts, keywords, minScore);
    }
  }

  /** What `extract_many` returns: `extract` applied to each text in turn. */
  function ExtractedBatch(validTypes: set<string>, weights: map<string, real>, p: Providers,
                          texts: seq<string>, keywords: seq<string>, minScore: real): seq<Extraction>
    requires forall i :: 0 <= i < |texts| ==> Analyzable(p, texts[i], keywords)
    decreases |texts|
  {
    if texts == [] then []
    else
      var n := |texts| - 1;
      ExtractedBatch(validTypes, weights, p, texts[..n], keywords, minScore)
        + [Extracted(validTypes, weights, p, texts[n], keywords, minScore)]
  }

  /** The batch result lines up with the texts, each entry the single-document result. */
  lemma {:induction false} ExtractedBatchAt(validTypes: set<string>, weights: map<string, real>, p: Providers,
                                            texts: seq<string>, keywords: seq<string>, minScore: real)
    requires forall i :: 0 <= i < |texts| ==> Analyzable(p, texts[i], keywords)
    ensures |ExtractedBatch(validTypes, weights, p, texts, keywords, minScore)| == |texts|
    ensures forall i {:trigger ExtractedBatch(validTypes, weights, p, texts, keywords, minScore)[i]} :: 0 <= i < |texts| ==>
      ExtractedBatch(validTypes, weights, p, texts, keywords, minScore)[i] == Extracted(validTypes, weights, p, texts[i], keywords, minScore)
    decreases |texts|
  {
    if texts != [] {
      var n := |texts| - 1;
      var front := texts[..n];
      forall i | 0 <= i < |front| ensures Analyzable(p, front[i], keywords) {
        assert front[i] == texts[i];
      }
      ExtractedBatchAt(validTypes, weights, p, front, keywords, minScore);
      var batch := ExtractedBatch(validTypes, weights, p, texts, keywords, minScore);
      var prev := ExtractedBatch(validTypes, weights, p, front, keywords, minScore);
      assert batch == prev + [Extracted(validTypes, weights, p, texts[n], keywords, minScore)];
      forall i | 0 <= i < |texts| ensures batch[i] == Extracted(validTypes, weights, p, texts[i], keywords, minScore) {
        if i < n {
          assert batch[i] == prev[i] && front[i] == texts[i];
        }
      }
    }
  }


  /** The semantic side of `final_results` for one keyword: a requested keyword gets what
      its own scores select (duplicates of a keyword score alike, so de-duplication keeps
      that match), any other keyword gets nothing. */
  lemma SemanticFind(p: Providers, text: string, keywords: seq<string>, minScore: real, k: string)
    requires Analyzable(p, text, keywords)
    ensures var phrases := p.chunk(text);
      RowsFit(phrases, ScoreRows(p, phrases, keywords)) &&
      Find(KeepBest(SemanticResults(keywords, phrases, ScoreRows(p, phrases, keywords), minScore)), k) ==
        if k in keywords then BestPhrase(k, phrases, p.score(k, phrases), minScore) else None
  {
    var phrases := p.chunk(text);
    var rows := ScoreRows(p, phrases, keywords);
    RowsFitWhenAnalyzable(p, text, keywords);
    var sem := SemanticResults(keywords, phrases, rows, minScore);
    var b := if k in keywords then BestPhrase(k, phrases, p.score(k, phrases), minScore) else None;
    forall j | 0 <= j < |sem| && sem[j].keyword == k ensures b == Some(sem[j]) {
      var i := SemanticSource(keywords, phrases, rows, minScore, j);
      assert keywords[i] == k;
    }
    if b.Some? {
      var i :| 0 <= i < |keywords| && keywords[i] == k;
      assert rows[i] == p.score(k, phrases);
      SemanticComplete(keywords, phrases, rows, minScore, i);
      KeepBestUniform(sem, b.value);
    } else {
      KeepBestAbsent(sem, k);
    }
  }

  /** The outcome of `extract` for one keyword: nothing for a keyword that was not
      requested; otherwise the keyword's semantic match and its entity match (the last
      entity mapping to it) resolved by `Resolve`, so an entity wins only with a strictly
      greater score and a keyword with one source keeps that source's match. */
  lemma ExtractPerKeyword(validTypes: set<string>, weights: map<string, real>, p: Providers,
                          text: string, keywords: seq<string>, minScore: real, k: string)
    requires Analyzable(p, text, keywords)
    ensures var phrases := p.chunk(text);
      Find(Extracted(validTypes, weights, p, text, keywords, minScore).semanticMatches, k) ==
        if k in keywords
        then Resolve(BestPhrase(k, phrases, p.score(k, phrases), minScore),
                     Find(EntityTable(validTypes, weights, keywords, p.ner(text)), k))
        else None
  {
    var phrases := p.chunk(text);
    var rows := ScoreRows(p, phrases, keywords);
    RowsFitWhenAnalyzable(p, text, keywords);
    var sem := SemanticResults(keywords, phrases, rows, minScore);
    var et := EntityTable(validTypes, weights, keywords, p.ner(text));
    KeepBestKeyed(sem);
    EntityTableKeyed(validTypes, weights, keywords, p.ner(text));
    MergeFind(KeepBest(sem), et);
    SemanticFind(p, text, keywords, minScore, k);
    if k !in keywords {
      assert Find(et, k).None?;
    }
  }

  /** The result holds at most one match per keyword, only for requested keywords, and
      returns the recognised entities unchanged. */
  lemma ExtractWellFormed(validTypes: set<string>, weights: map<string, real>, p: Providers,
                          text: string, keywords: seq<string>, minScore: real)
    requires Analyzable(p, text, keywords)
    ensures Keyed(Extracted(validTypes, weights, p, text, keywords, minScore).semanticMatches)
    ensures NoDuplicates(KeysOf(Extracted(validTypes, weights, p, text, keywords, minScore).semanticMatches))
    ensures forall m :: m in Extracted(validTypes, weights, p, text, keywords, minScore).semanticMatches ==>
      m.keyword in keywords
    ensures Extracted(validTypes, weights, p, text, keywords, minScore).entities == p.ner(text)
  {
    var phrases := p.chunk(text);
    RowsFitWhenAnalyzable(p, text, keywords);
    var sem := SemanticResults(keywords, phrases, ScoreRows(p, phrases, keywords), minScore);
    KeepBestKeyed(sem);
    MergeKeyed(KeepBest(sem), EntityTable(validTypes, weights, keywords, p.ner(text)));
    var r := Extracted(validTypes, weights, p, text, keywords, minScore).semanticMatches;
    KeyedKeys(r);
    forall m | m in r ensures m.keyword in keywords {
      var j :| 0 <= j < |r| && r[j] == m;
      FindKeyed(r, j);
      ExtractPerKeyword(validTypes, weights, p, text, keywords, minScore, m.keyword);
    }
  }

  /** Output order: the semantically matched keywords in first-occurrence order (entity
      replacements stay in place), then the entity-only keywords in the order their first
      entity appears. */
  lemma ExtractOrder(validTypes: set<string>, weights: map<string, real>, p: Providers,
                     text: string, keywords: seq<string>, minScore: real)
    requires Analyzable(p, text, keywords)
    ensures var accepted := Distinct(AcceptedKeywords(keywords, ScoreRows(p, p.chunk(text), keywords), minScore));
      KeysOf(Extracted(validTypes, weights, p, text, keywords, minScore).semanticMatches) ==
        accepted + Unseen(Distinct(ContributingKeywords(validTypes, keywords, p.ner(text))), accepted)
  {
    var phrases := p.chunk(text);
    var rows := ScoreRows(p, phrases, keywords);
    RowsFitWhenAnalyzable(p, text, keywords);
    var sem := SemanticResults(keywords, phrases, rows, minScore);
    var et := EntityTable(validTypes, weights, keywords, p.ner(text));
    KeepBestKeyed(sem);
    KeepBestKeys(sem);
    SemanticKeys(keywords, phrases, rows, minScore);
    EntityTableKeyed(validTypes, weights, keywords, p.ner(text));
    EntityTableKeys(validTypes, weights, keywords, p.ner(text));
    MergeKeys(KeepBest(sem), et);
  }

  /** A keyword whose every phrase score is below `min_score` appears only through an
      entity match, and not at all when no entity maps to it. */
  lemma ThresholdEnforced(validTypes: set<string>, weights: map<string, real>, p: Providers,
                          text: string, keywords: seq<string>, minScore: real, k: string)
    requires Analyzable(p, text, keywords)
    requires forall j :: 0 <= j < |p.score(k, p.chunk(text))| ==> p.score(k, p.chunk(text))[j] < minScore
    ensures Find(Extracted(validTypes, weights, p, text, keywords, minScore).semanticMatches, k) ==
      Find(EntityTable(validTypes, weights, keywords, p.ner(text)), k)
    ensures (forall j :: 0 <= j < |p.ner(text)| ==> !MapsTo(validTypes, keywords, p.ner(text)[j], k)) ==>
      Find(Extracted(validTypes, weights, p, text, keywords, minScore).semanticMatches, k).None?
  {
    ExtractPerKeyword(validTypes, weights, p, text, keywords, minScore, k);
    EntityTableAbsent(validTypes, weights, keywords, p.ner(text), k);
    if k !in keywords {
      EntityTableKeyed(validTypes, weights, keywords, p.ner(text));
    }
  }
}
