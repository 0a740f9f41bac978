/** Building `final_results`: the per-keyword de-duplication of the semantic
    matches, then the merge of the entity matches into them. */
module ResultMerger {
  import opened Types
  import opened MatchTable

  /** One step of either loop: a keyword's first match is stored, a later one replaces
      the stored match only with a strictly greater score. The de-duplication loop
      (`kw not in final_results or score > ...`) and the merge loop (`if kw in
      final_results: if entity_score > semantic_score ... else ...`) both do this. */
  function Offer(d: seq<Match>, r: Match): seq<Match>
  {
    var cur := Find(d, r.keyword);
    if cur.None? || r.score > cur.value.score then Put(d, r) else d
  }

  /** `final_results` after the de-duplication loop over `results`. */
  function KeepBest(rs: seq<Match>): seq<Match>
    decreases |rs|
  {
    if rs == [] then [] else Offer(KeepBest(rs[..|rs| - 1]), rs[|rs| - 1])
  }

  /** The merge rule for one keyword: an entity match replaces a semantic match only
      when its score is strictly greater; a keyword with one source keeps that match. */
  function Resolve(semantic: Option<Match>, entity: Option<Match>): Option<Match>
  {
    match semantic
    case None => entity
    case Some(s) =>
      match entity
      case None => semantic
      case Some(e) => if e.score > s.score then entity else semantic
  }

  /** `final_results` after the merge loop over `entity_matches.items()`. */
  function Merge(finalResults: seq<Match>, entityMatches: seq<Match>): seq<Match>
    decreases |entityMatches|
  {
    if entityMatches == [] then finalResults
    else
      var n := |entityMatches| - 1;
      Offer(Merge(finalResults, entityMatches[..n]), entityMatches[n])
  }

  /** The de-duplication loop of `extract`. */
  method KeepBestPerKeyword(results: seq<Match>) returns (finalResults: seq<Match>)
    ensures finalResults == KeepBest(results)
  {
    finalResults := [];
    for i := 0 to |results|
      invariant finalResults == KeepBest(results[..i])
    {
      assert results[..i + 1][..i] == results[..i];
      var r := results[i];
      var cur := Find(finalResults, r.keyword);
      if cur.None? || r.score > cur.value.score {
        finalResults := Put(finalResults, r);
      }
    }
    assert results[..|results|] == results;
  }

  /** The merge loop of `extract`. */
  method MergeMatches(semantic: seq<Match>, entityMatches: seq<Match>) returns (finalResults: seq<Match>)
    ensures finalResults == Merge(semantic, entityMatches)
  {
    finalResults := semantic;
    for i := 0 to |entityMatches|
      invariant finalResults == Merge(semantic, entityMatches[..i])
    {
      assert entityMatches[..i + 1][..i] == entityMatches[..i];
      var em := entityMatches[i];
      var cur := Find(finalResults, em.keyword);
      if cur.Some? {
        if em.score > cur.value.score {
          finalResults := Put(finalResults, em);
        }
      } else {
        finalResults := Put(finalResults, em);
      }
    }
    assert entityMatches[..|entityMatches|] == entityMatches;
  }

  /** One step of either loop keeps the table keyed and adds the key if new. */
  lemma StepKeyed(d: seq<Match>, r: Match)
    requires Keyed(d)
    ensures Keyed(Offer(d, r))
    ensures KeysOf(Offer(d, r)) == AddKey(KeysOf(d), r.keyword)
  {
    PutFacts(d, r);
  }

  /** One step of either loop, seen through `Find`. */
  lemma StepFind(d: seq<Match>, r: Match, k: string)
    requires Keyed(d)
    ensures Find(Offer(d, r), k) ==
      if k != r.keyword then Find(d, k)
      else if Find(d, k).None? || r.score > Find(d, k).value.score then Some(r)
      else Find(d, k)
  {
    PutFacts(d, r);
  }

  /** The de-duplicated table is keyed. */
  lemma {:induction false} KeepBestKeyed(rs: seq<Match>)
    ensures Keyed(KeepBest(rs))
    decreases |rs|
  {
    if rs != [] {
      var n := |rs| - 1;
      KeepBestKeyed(rs[..n]);
      StepKeyed(KeepBest(rs[..n]), rs[n]);
    }
  }

  /** What the de-duplicated table stores under `k` is one of the input matches. */
  lemma {:induction false} KeepBestFrom(rs: seq<Match>, k: string)
    ensures Find(KeepBest(rs), k).Some? ==> Find(KeepBest(rs), k).value in rs
    decreases |rs|
  {
    if rs != [] {
      var n := |rs| - 1;
      KeepBestFrom(rs[..n], k);
      KeepBestKeyed(rs[..n]);
      StepFind(KeepBest(rs[..n]), rs[n], k);
      assert rs == rs[..n] + [rs[n]];
    }
  }

  /** The de-duplicated keys are the input keys in order of first occurrence. */
  lemma {:induction false} KeepBestKeys(rs: seq<Match>)
    ensures KeysOf(KeepBest(rs)) == Distinct(KeysOf(rs))
    decreases |rs|
  {
    if rs != [] {
      var n := |rs| - 1;
      KeepBestKeys(rs[..n]);
      KeepBestKeyed(rs[..n]);
      StepKeyed(KeepBest(rs[..n]), rs[n]);
      assert rs == rs[..n] + [rs[n]];
      KeysOfSnoc(rs[..n], rs[n]);
    }
  }

  /** A keyword no input match carries is absent from the de-duplicated table. */
  lemma {:induction false} KeepBestAbsent(rs: seq<Match>, k: string)
    ensures Find(KeepBest(rs), k).None? <==> forall j :: 0 <= j < |rs| ==> rs[j].keyword != k
    decreases |rs|
  {
    if rs != [] {
      var n := |rs| - 1;
      KeepBestAbsent(rs[..n], k);
      KeepBestKeyed(rs[..n]);
      StepFind(KeepBest(rs[..n]), rs[n], k);
      assert forall j :: 0 <= j < n ==> rs[..n][j] == rs[j];
    }
  }

  /** Among the matches for `k`, the one kept is the first to attain the highest score. */
  lemma {:induction false} KeepBestFirstMax(rs: seq<Match>, k: string, i: int)
    requires 0 <= i < |rs| && rs[i].keyword == k
    requires forall j :: 0 <= j < |rs| && rs[j].keyword == k ==> rs[j].score <= rs[i].score
    requires forall j :: 0 <= j < i && rs[j].keyword == k ==> rs[j].score < rs[i].score
    ensures Find(KeepBest(rs), k) == Some(rs[i])
    decreases |rs|
  {
    var n := |rs| - 1;
    var front := rs[..n];
    KeepBestKeyed(front);
    if i < n {
      forall j | 0 <= j < |front| && front[j].keyword == k ensures front[j].score <= front[i].score {
        assert front[j] == rs[j];
      }
      forall j | 0 <= j < i && front[j].keyword == k ensures front[j].score < front[i].score {
        assert front[j] == rs[j];
      }
      KeepBestFirstMax(front, k, i);
      StepFind(KeepBest(front), rs[n], k);
    } else {
      KeepBestFrom(front, k);
      var cur := Find(KeepBest(front), k);
      if cur.Some? {
        var j :| 0 <= j < n && front[j] == cur.value;
        assert front[j] == rs[j];
      }
      StepFind(KeepBest(front), rs[n], k);
    }
  }

  /** When all matches for one keyword are the same match, that match is kept. */
  lemma {:induction false} KeepBestUniform(rs: seq<Match>, m: Match)
    requires m in rs
    requires forall j :: 0 <= j < |rs| && rs[j].keyword == m.keyword ==> rs[j] == m
    ensures Find(KeepBest(rs), m.keyword) == Some(m)
    decreases |rs|
  {
    var n := |rs| - 1;
    var front := rs[..n];
    KeepBestKeyed(front);
    if m in front {
      forall j | 0 <= j < |front| && front[j].keyword == m.keyword ensures front[j] == m {
        assert front[j] == rs[j];
      }
      KeepBestUniform(front, m);
    } else {
      forall j | 0 <= j < |front| ensures front[j].keyword != m.keyword {
        assert front[j] == rs[j];
      }
      KeepBestAbsent(front, m.keyword);
      assert rs[n] == m;
    }
    StepFind(KeepBest(front), rs[n], m.keyword);
  }

  /** Merging resolves every keyword by `Resolve`. */
  lemma {:induction false} MergeFind(semantic: seq<Match>, entityMatches: seq<Match>)
    requires Keyed(semantic) && Keyed(entityMatches)
    ensures forall k :: Find(Merge(semantic, entityMatches), k) == Resolve(Find(semantic, k), Find(entityMatches, k))
    decreases |entityMatches|
  {
    if entityMatches != [] {
      var n := |entityMatches| - 1;
      var front := entityMatches[..n];
      var em := entityMatches[n];
      MergeFind(semantic, front);
      var prev := Merge(semantic, front);
      MergeKeyed(semantic, front);
      assert entityMatches == front + [em];
      forall k ensures Find(Merge(semantic, entityMatches), k) == Resolve(Find(semantic, k), Find(entityMatches, k)) {
        FindSnoc(front, em, k);
        StepFind(prev, em, k);
      }
      assert Find(front, em.keyword).None?;
    }
  }

  /** Merging keeps the table keyed. */
  lemma {:induction false} MergeKeyed(semantic: seq<Match>, entityMatches: seq<Match>)
    requires Keyed(semantic)
    ensures Keyed(Merge(semantic, entityMatches))
    decreases |entityMatches|
  {
    if entityMatches != [] {
      var n := |entityMatches| - 1;
      MergeKeyed(semantic, entityMatches[..n]);
      StepKeyed(Merge(semantic, entityMatches[..n]), entityMatches[n]);
    }
  }

  /** One merge step on the key order: a key already among the semantic keys stays put,
      a new one goes last. */
  lemma MergeKeysStep(prev: seq<Match>, seen: seq<string>, frontKeys: seq<string>, em: Match)
    requires Keyed(prev)
    requires KeysOf(prev) == seen + Unseen(frontKeys, seen)
    requires em.keyword !in frontKeys
    ensures KeysOf(Offer(prev, em)) == seen + Unseen(frontKeys + [em.keyword], seen)
  {
    StepKeyed(prev, em);
    UnseenFacts(frontKeys, seen);
    assert (frontKeys + [em.keyword])[..|frontKeys|] == frontKeys;
  }

  /** Key order after merging: the semantic keys in place, then the entity-only keys in
      entity-table order. */
  lemma {:induction false} MergeKeys(semantic: seq<Match>, entityMatches: seq<Match>)
    requires Keyed(semantic) && Keyed(entityMatches)
    ensures KeysOf(Merge(semantic, entityMatches)) == KeysOf(semantic) + Unseen(KeysOf(entityMatches), KeysOf(semantic))
    decreases |entityMatches|
  {
    if entityMatches != [] {
      var n := |entityMatches| - 1;
      var front := entityMatches[..n];
      var em := entityMatches[n];
      MergeKeys(semantic, front);
      MergeKeyed(semantic, front);
      assert Find(front, em.keyword).None?;
      FindFacts(front, em.keyword);
      assert entityMatches == front + [em];
      KeysOfSnoc(front, em);
      MergeKeysStep(Merge(semantic, front), KeysOf(semantic), KeysOf(front), em);
    }
  }
}
