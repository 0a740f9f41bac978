/** Entity-to-keyword mapping and entity scoring: the `base_entity_map` /
    `default_entity_map` tables, `get_mapped_keyword`, the capped boost, and the
    `entity_matches` loop in which a later entity overwrites an earlier one. */
module EntityMapper {
  import opened Types
  import opened MatchTable

  /** ASCII lower-casing of one character. */
  function LowerChar(c: char): char
  {
    if 'A' <= c <= 'Z' then (c as int - 'A' as int + 'a' as int) as char else c
  }

  /** `str.lower()` on the ASCII range. */
  function Lower(s: string): string
  {
    seq(|s|, i requires 0 <= i < |s| => LowerChar(s[i]))
  }

  /** `base_entity_map`: explicit keywords for six entity types. */
  const BaseEntityMap: map<string, string> := map[
    "DATE" := "date",
    "TIME" := "time",
    "MONEY" := "money",
    "CARDINAL" := "number",
    "GPE" := "location",
    "LOC" := "location"]

  /** `default_entity_map` after `update(base_entity_map)`: every valid label
      lower-cased, with the base entries taking precedence. */
  function EntityMap(validTypes: set<string>): map<string, string>
  {
    (map t | t in validTypes :: Lower(t)) + BaseEntityMap
  }

  /** `get_mapped_keyword`: the table entry, or the lower-cased type when the table has none.
      The six base types always get their explicit keyword; every other type gets its
      lower-cased tag, whether or not it is a valid label. */
  function MappedKeyword(validTypes: set<string>, etype: string): (k: string)
    ensures etype in BaseEntityMap ==> k == BaseEntityMap[etype]
    ensures etype !in BaseEntityMap ==> k == Lower(etype)
  {
    var table := EntityMap(validTypes);
    if etype in table then table[etype] else Lower(etype)
  }

  /** The fixed score of an entity-derived match before boosting. */
  const BaseScore: real := 0.6

  /** The largest boost applied, whatever weight is configured. */
  const MaxBoost: real := 2.0

  /** `base_score * min(entity_weights.get(type, 1.0), 2.0)`. */
  function EntityScore(weights: map<string, real>, etype: string): (s: real)
    ensures s <= BaseScore * MaxBoost
    ensures etype !in weights ==> s == BaseScore
    ensures etype in weights && weights[etype] > 0.0 ==> s > 0.0
    ensures etype in weights && weights[etype] >= MaxBoost ==> s == BaseScore * MaxBoost
    ensures etype in weights && weights[etype] <= MaxBoost ==> s == BaseScore * weights[etype]
  {
    var boost := if etype in weights then weights[etype] else 1.0;
    var capped := if MaxBoost < boost then MaxBoost else boost;
    BaseScore * capped
  }

  /** The entity contributes a match for keyword `k`: its mapped keyword is `k`,
      non-empty, and requested. */
  predicate MapsTo(validTypes: set<string>, keywords: seq<string>, e: Entity, k: string)
  {
    var mk := MappedKeyword(validTypes, e.etype);
    mk == k && mk != "" && mk in keywords
  }

  /** The match one entity would store, if it is not skipped. */
  function EntityMatchFor(validTypes: set<string>, weights: map<string, real>, keywords: seq<string>, e: Entity): Option<Match>
  {
    var mk := MappedKeyword(validTypes, e.etype);
    if mk == "" || mk !in keywords then None
    else Some(Match(mk, e.text, EntityScore(weights, e.etype)))
  }

  /** `entity_matches` after the entity loop. */
  function EntityTable(validTypes: set<string>, weights: map<string, real>, keywords: seq<string>, ents: seq<Entity>): seq<Match>
    decreases |ents|
  {
    if ents == [] then []
    else
      var n := |ents| - 1;
      var prev := EntityTable(validTypes, weights, keywords, ents[..n]);
      match EntityMatchFor(validTypes, weights, keywords, ents[n])
      case Some(m) => Put(prev, m)
      case None => prev
  }

  /** The mapped keywords of the contributing entities, in entity order (with repeats). */
  function ContributingKeywords(validTypes: set<string>, keywords: seq<string>, ents: seq<Entity>): seq<string>
    decreases |ents|
  {
    if ents == [] then []
    else
      var n := |ents| - 1;
      var mk := MappedKeyword(validTypes, ents[n].etype);
      ContributingKeywords(validTypes, keywords, ents[..n]) + (if mk != "" && mk in keywords then [mk] else [])
  }

  /** The entity loop of `extract`. */
  method CollectEntityMatches(validTypes: set<string>, weights: map<string, real>, keywords: seq<string>, ents: seq<Entity>)
    returns (entityMatches: seq<Match>)
    ensures entityMatches == EntityTable(validTypes, weights, keywords, ents)
  {
    entityMatches := [];
    for i := 0 to |ents|
      invariant entityMatches == EntityTable(validTypes, weights, keywords, ents[..i])
    {
      assert ents[..i + 1][..i] == ents[..i];
      var e := ents[i];
      var mk := MappedKeyword(validTypes, e.etype);
      if mk == "" || mk !in keywords {
        continue;
      }
      var boost := if e.etype in weights then weights[e.etype] else 1.0;
      boost := if MaxBoost < boost then MaxBoost else boost;
      entityMatches := Put(entityMatches, Match(mk, e.text, BaseScore * boost));
    }
    assert ents[..|ents|] == ents;
  }

  /** The table is keyed and holds only requested, non-empty keywords. */
  lemma {:induction false} EntityTableKeyed(validTypes: set<string>, weights: map<string, real>, keywords: seq<string>, ents: seq<Entity>)
    ensures Keyed(EntityTable(validTypes, weights, keywords, ents))
    ensures forall m :: m in EntityTable(validTypes, weights, keywords, ents) ==> m.keyword != "" && m.keyword in keywords
    decreases |ents|
  {
    if ents != [] {
      var n := |ents| - 1;
      var prev := EntityTable(validTypes, weights, keywords, ents[..n]);
      EntityTableKeyed(validTypes, weights, keywords, ents[..n]);
      match EntityMatchFor(validTypes, weights, keywords, ents[n])
      case Some(m) =>
        PutFacts(prev, m);
        forall x | x in Put(prev, m) ensures x.keyword != "" && x.keyword in keywords {
          var j :| 0 <= j < |Put(prev, m)| && Put(prev, m)[j] == x;
          FindKeyed(Put(prev, m), j);
        }
      case None =>
    }
  }

  /** Reference definition: the match contributed for `k` by the last entity that
      maps to `k`, if any. */
  function LastEntityMatch(validTypes: set<string>, weights: map<string, real>, keywords: seq<string>, ents: seq<Entity>, k: string): Option<Match>
    decreases |ents|
  {
    if ents == [] then None
    else
      var n := |ents| - 1;
      if MapsTo(validTypes, keywords, ents[n], k)
      then Some(Match(k, ents[n].text, EntityScore(weights, ents[n].etype)))
      else LastEntityMatch(validTypes, weights, keywords, ents[..n], k)
  }

  /** An entity is stored under `k` exactly when it maps to `k`. */
  lemma EntityMatchForMapsTo(validTypes: set<string>, weights: map<string, real>, keywords: seq<string>, e: Entity, k: string)
    ensures MapsTo(validTypes, keywords, e, k) <==>
      EntityMatchFor(validTypes, weights, keywords, e) == Some(Match(k, e.text, EntityScore(weights, e.etype)))
  {
  }

  /** One loop iteration, seen through `Find`. */
  lemma EntityTableStep(validTypes: set<string>, weights: map<string, real>, keywords: seq<string>, ents: seq<Entity>, k: string)
    requires ents != []
    ensures Find(EntityTable(validTypes, weights, keywords, ents), k) ==
      if MapsTo(validTypes, keywords, ents[|ents| - 1], k)
      then Some(Match(k, ents[|ents| - 1].text, EntityScore(weights, ents[|ents| - 1].etype)))
      else Find(EntityTable(validTypes, weights, keywords, ents[..|ents| - 1]), k)
  {
    var n := |ents| - 1;
    var prev := EntityTable(validTypes, weights, keywords, ents[..n]);
    EntityTableKeyed(validTypes, weights, keywords, ents[..n]);
    EntityMatchForMapsTo(validTypes, weights, keywords, ents[n], k);
    var em := EntityMatchFor(validTypes, weights, keywords, ents[n]);
    if em.Some? {
      PutFacts(prev, em.value);
    }
  }

  /** The entry the loop leaves under `k` is the last entity's match for `k`. */
  lemma {:induction false} EntityTableFind(validTypes: set<string>, weights: map<string, real>, keywords: seq<string>, ents: seq<Entity>, k: string)
    ensures Find(EntityTable(validTypes, weights, keywords, ents), k) == LastEntityMatch(validTypes, weights, keywords, ents, k)
    decreases |ents|
  {
    if ents != [] {
      EntityTableFind(validTypes, weights, keywords, ents[..|ents| - 1], k);
      EntityTableStep(validTypes, weights, keywords, ents, k);
    }
  }

  /** No entity maps to `k` exactly when there is no last match for `k`. */
  lemma {:induction false} LastEntityMatchAbsent(validTypes: set<string>, weights: map<string, real>, keywords: seq<string>, ents: seq<Entity>, k: string)
    ensures LastEntityMatch(validTypes, weights, keywords, ents, k).None? <==>
      forall j :: 0 <= j < |ents| ==> !MapsTo(validTypes, keywords, ents[j], k)
    decreases |ents|
  {
    if ents != [] {
      var n := |ents| - 1;
      LastEntityMatchAbsent(validTypes, weights, keywords, ents[..n], k);
      assert forall j :: 0 <= j < n ==> ents[..n][j] == ents[j];
    }
  }

  /** No entity maps to `k` exactly when the table has no entry for `k`. */
  lemma EntityTableAbsent(validTypes: set<string>, weights: map<string, real>, keywords: seq<string>, ents: seq<Entity>, k: string)
    ensures Find(EntityTable(validTypes, weights, keywords, ents), k).None? <==>
      forall j :: 0 <= j < |ents| ==> !MapsTo(validTypes, keywords, ents[j], k)
  {
    EntityTableFind(validTypes, weights, keywords, ents, k);
    LastEntityMatchAbsent(validTypes, weights, keywords, ents, k);
  }

  /** The last entity mapping to `k` supplies the last match for `k`. */
  lemma {:induction false} LastEntityMatchAt(validTypes: set<string>, weights: map<string, real>, keywords: seq<string>, ents: seq<Entity>, k: string, i: int)
    requires 0 <= i < |ents| && MapsTo(validTypes, keywords, ents[i], k)
    requires forall j :: i < j < |ents| ==> !MapsTo(validTypes, keywords, ents[j], k)
    ensures LastEntityMatch(validTypes, weights, keywords, ents, k) ==
      Some(Match(k, ents[i].text, EntityScore(weights, ents[i].etype)))
    decreases |ents|
  {
    var n := |ents| - 1;
    if i < n {
      var front := ents[..n];
      forall j | i < j < |front| ensures !MapsTo(validTypes, keywords, front[j], k) {
        assert front[j] == ents[j];
      }
      assert front[i] == ents[i];
      LastEntityMatchAt(validTypes, weights, keywords, front, k, i);
    }
  }

  /** Among the entities mapping to `k`, the last one in entity order is stored, with
      its text and its capped, weighted score. */
  lemma EntityTableLastWins(validTypes: set<string>, weights: map<string, real>, keywords: seq<string>, ents: seq<Entity>, k: string, i: int)
    requires 0 <= i < |ents| && MapsTo(validTypes, keywords, ents[i], k)
    requires forall j :: i < j < |ents| ==> !MapsTo(validTypes, keywords, ents[j], k)
    ensures Find(EntityTable(validTypes, weights, keywords, ents), k) ==
      Some(Match(k, ents[i].text, EntityScore(weights, ents[i].etype)))
  {
    EntityTableFind(validTypes, weights, keywords, ents, k);
    LastEntityMatchAt(validTypes, weights, keywords, ents, k, i);
  }

  /** Keys appear in the order their first contributing entity appears. */
  lemma {:induction false} EntityTableKeys(validTypes: set<string>, weights: map<string, real>, keywords: seq<string>, ents: seq<Entity>)
    ensures KeysOf(EntityTable(validTypes, weights, keywords, ents)) == Distinct(ContributingKeywords(validTypes, keywords, ents))
    decreases |ents|
  {
    if ents != [] {
      var n := |ents| - 1;
      var prev := EntityTable(validTypes, weights, keywords, ents[..n]);
      EntityTableKeys(validTypes, weights, keywords, ents[..n]);
      EntityTableKeyed(validTypes, weights, keywords, ents[..n]);
      var cs := ContributingKeywords(validTypes, keywords, ents);
      var mk := MappedKeyword(validTypes, ents[n].etype);
      var em := EntityMatchFor(validTypes, weights, keywords, ents[n]);
      if mk != "" && mk in keywords {
        assert em == Some(Match(mk, ents[n].text, EntityScore(weights, ents[n].etype)));
        PutFacts(prev, em.value);
        assert cs == ContributingKeywords(validTypes, keywords, ents[..n]) + [mk];
      } else {
        assert em.None?;
        assert cs == ContributingKeywords(validTypes, keywords, ents[..n]);
      }
    }
  }
}
