/** The insertion-ordered dictionaries `final_results` and `entity_matches` of
    `KeywordExtractor.extract`. Each value stored under a keyword carries that
    keyword in its `keyword` field, so the dictionary is a sequence of matches
    whose keywords are pairwise distinct, kept in insertion order. */
module MatchTable {
  import opened Types

  /** The keys of the table, in insertion order. */
  function KeysOf(d: seq<Match>): seq<string>
  {
    seq(|d|, i requires 0 <= i < |d| => d[i].keyword)
  }

  /** No keyword is stored twice. */
  predicate Keyed(d: seq<Match>)
  {
    forall i, j :: 0 <= i < j < |d| ==> d[i].keyword != d[j].keyword
  }

  /** Position of the entry stored under `k`, or -1. */
  function IndexOf(d: seq<Match>, k: string): (i: int)
    ensures -1 <= i < |d|
    ensures 0 <= i ==> d[i].keyword == k
    ensures i == -1 ==> forall j :: 0 <= j < |d| ==> d[j].keyword != k
    decreases |d|
  {
    if d == [] then -1
    else if d[|d| - 1].keyword == k then |d| - 1
    else IndexOf(d[..|d| - 1], k)
  }

  /** `d.get(k)`. */
  function Find(d: seq<Match>, k: string): Option<Match>
  {
    var i := IndexOf(d, k);
    if i < 0 then None else Some(d[i])
  }

  /** A key is found exactly when it is among the keys, and what is found is stored under it. */
  lemma FindFacts(d: seq<Match>, k: string)
    ensures Find(d, k).None? <==> k !in KeysOf(d)
    ensures Find(d, k).Some? ==> Find(d, k).value in d && Find(d, k).value.keyword == k
  {
    var i := IndexOf(d, k);
    if i < 0 {
      assert forall j :: 0 <= j < |d| ==> KeysOf(d)[j] != k;
    } else {
      assert KeysOf(d)[i] == k;
    }
  }

  /** `d[m.keyword] = m`: an existing key keeps its position, a new key goes last. */
  function Put(d: seq<Match>, m: Match): seq<Match>
  {
    var i := IndexOf(d, m.keyword);
    if i < 0 then d + [m] else d[i := m]
  }

  /** The key order after inserting `k`. */
  function AddKey(ks: seq<string>, k: string): seq<string>
  {
    if k in ks then ks else ks + [k]
  }

  /** The elements of `ks` in order of first occurrence. */
  function Distinct(ks: seq<string>): seq<string>
    decreases |ks|
  {
    if ks == [] then [] else AddKey(Distinct(ks[..|ks| - 1]), ks[|ks| - 1])
  }

  /** The elements of `ks` that do not occur in `seen`, in order. */
  function Unseen(ks: seq<string>, seen: seq<string>): seq<string>
    decreases |ks|
  {
    if ks == [] then []
    else Unseen(ks[..|ks| - 1], seen) + (if ks[|ks| - 1] in seen then [] else [ks[|ks| - 1]])
  }

  predicate NoDuplicates(ks: seq<string>)
  {
    forall i, j :: 0 <= i < j < |ks| ==> ks[i] != ks[j]
  }

  lemma IndexOfKeyed(d: seq<Match>, k: string, j: int)
    requires Keyed(d) && 0 <= j < |d| && d[j].keyword == k
    ensures IndexOf(d, k) == j
  {
  }

  lemma KeysOfSnoc(d: seq<Match>, m: Match)
    ensures KeysOf(d + [m]) == KeysOf(d) + [m.keyword]
  {
  }

  /** Find on a table that grew by one entry at the end. */
  lemma {:induction false} FindSnoc(d: seq<Match>, m: Match, k: string)
    ensures Find(d + [m], k) == if m.keyword == k then Some(m) else Find(d, k)
  {
    assert (d + [m])[..|d|] == d;
  }

  /** In a keyed table, the entry found under `k` is the one entry with that keyword. */
  lemma FindKeyed(d: seq<Match>, j: int)
    requires Keyed(d) && 0 <= j < |d|
    ensures Find(d, d[j].keyword) == Some(d[j])
  {
    IndexOfKeyed(d, d[j].keyword, j);
  }

  /** Assignment keeps the table keyed, overwrites exactly one key, and
      keeps every existing key in place. */
  lemma {:induction false} PutFacts(d: seq<Match>, m: Match)
    requires Keyed(d)
    ensures Keyed(Put(d, m))
    ensures KeysOf(Put(d, m)) == AddKey(KeysOf(d), m.keyword)
    ensures forall k :: Find(Put(d, m), k) == if k == m.keyword then Some(m) else Find(d, k)
  {
    var i := IndexOf(d, m.keyword);
    var r := Put(d, m);
    if i < 0 {
      assert r == d + [m];
      forall k ensures Find(r, k) == if k == m.keyword then Some(m) else Find(d, k) {
        FindSnoc(d, m, k);
      }
      KeysOfSnoc(d, m);
      assert Find(d, m.keyword).None?;
    } else {
      assert r == d[i := m];
      forall k ensures Find(r, k) == if k == m.keyword then Some(m) else Find(d, k) {
        if k == m.keyword {
          IndexOfKeyed(r, k, i);
        } else {
          var j := IndexOf(d, k);
          if j >= 0 {
            IndexOfKeyed(r, k, j);
          }
        }
      }
      assert KeysOf(r) == KeysOf(d);
      assert KeysOf(d)[i] == m.keyword;
    }
  }

  /** A keyed table has no repeated key. */
  lemma KeyedKeys(d: seq<Match>)
    requires Keyed(d)
    ensures NoDuplicates(KeysOf(d))
  {
  }

  /** `Distinct` removes repetitions and nothing else. */
  lemma {:induction false} DistinctFacts(ks: seq<string>)
    ensures NoDuplicates(Distinct(ks))
    ensures forall k :: k in Distinct(ks) <==> k in ks
    decreases |ks|
  {
    if ks != [] {
      var front := ks[..|ks| - 1];
      DistinctFacts(front);
      assert ks == front + [ks[|ks| - 1]];
    }
  }

  /** `Unseen` is a filter. */
  lemma {:induction false} UnseenFacts(ks: seq<string>, seen: seq<string>)
    ensures forall k :: k in Unseen(ks, seen) <==> k in ks && k !in seen
    decreases |ks|
  {
    if ks != [] {
      var front := ks[..|ks| - 1];
      UnseenFacts(front, seen);
      assert ks == front + [ks[|ks| - 1]];
    }
  }
}
