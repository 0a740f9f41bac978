# keywordx `KeywordExtractor`: the decision logic, in Dafny

This project models the rule set of `KeywordExtractor` in `src/keywordx/extractor.py`.
That class finds, for each caller-supplied keyword, the best-matching snippet of a document.
It combines two signals:

- a semantic score of every candidate phrase against the keyword;
- named entities whose type maps to the keyword.

The machine-learning steps are inputs to the model. These are phrase chunking, embedding,
whitening, similarity scoring and entity recognition. They are a `Providers` value of three
total functions: `chunk(text)`, `score(keyword, phrases)` and `ner(text)`. The recogniser's
label set is a parameter of construction. Everything around those inputs is modelled:

- **Construction** (`WeightConfig`, `Extractor.KeywordExtractor.Create`). The valid entity types
  are the model labels plus `PARSED_DATE`. The `entity_weights` argument is checked in the
  source's order:
  1. a non-mapping argument gives a `TypeError`;
  2. unknown keys give one `ValueError` that lists all of them;
  3. then each value in iteration order: a non-number gives a `TypeError`, a number `<= 0`
     gives a `ValueError`.

  On success a copy of the mapping is stored. `None` and an empty mapping store `{}`.
- **Semantic selection** (`SemanticMatcher`). Each keyword takes the first index with the
  highest score, a stable argmax. It keeps that phrase only when the score is at least
  `min_score`. Keywords do not interact.
- **De-duplication** (`ResultMerger.KeepBestPerKeyword`). This builds the `final_results`
  dictionary. A later match for the same keyword replaces the stored one only with a strictly
  greater score.
- **Entity mapping and scoring** (`EntityMapper`). Six base overrides sit over the lower-cased
  labels, and an unknown type falls back to its lower-cased tag. An entity is skipped when its
  keyword is empty or was not requested. Its score is `0.6 * min(weight, 2.0)`, with weight
  `1.0` when none is configured. When several entities map to one keyword, the last one wins.
- **Merge** (`ResultMerger.MergeMatches`). An entity match replaces a semantic match only with a
  strictly greater score. A keyword with one source keeps that source's match.
- **Batch** (`Extractor.KeywordExtractor.ExtractMany`). This calls `extract` on each text in
  order.

Python dictionaries keep insertion order, and that order is the order of the output list.
The model therefore represents `final_results` and `entity_matches` as sequences of matches
with pairwise distinct keywords (`MatchTable`):

- `Find` is `dict.get`.
- `Put` is `d[k] = v`: an existing key keeps its place and a new key goes last.

Each loop of the source is a method with loop invariants. Each method is proved equal to a
fold function over its input, and lemmas state what those functions mean.

## Model

| member | source | states |
|---|---|---|
| WeightConfig.ValidateWeights | src/keywordx/extractor.py:26-42 | The validation loop yields exactly the outcome of `Validate`: the non-mapping check, then the key check, then the first bad value in iteration order, else the stored copy. |
| WeightConfig.NonMappingRejected | src/keywordx/extractor.py:26-27 | A provided non-mapping argument fails with a type error, whatever the label set. |
| WeightConfig.InvalidKeysExact | src/keywordx/extractor.py:30 | The invalid-key list holds exactly the mapping keys outside the valid set. |
| WeightConfig.ValidateRejectsUnknownKey | src/keywordx/extractor.py:29-35 | One unknown key makes construction fail with a value error that lists every unknown key, whatever the values are. |
| WeightConfig.AllAcceptable | src/keywordx/extractor.py:37-41 | The value loop raises nothing exactly when every value is a positive number. |
| WeightConfig.FirstBadValueAt | src/keywordx/extractor.py:37-41 | The value loop reports the first entry, in iteration order, whose value is not a positive number. |
| WeightConfig.ValidateFirstBadValue | src/keywordx/extractor.py:37-41 | With all keys valid, the first offending value decides the error: a non-number is a type error naming its key and type, and a number `<= 0` is a value error naming its key and value. |
| WeightConfig.ValidateAccepts | src/keywordx/extractor.py:26-42 | Construction succeeds if and only if the weights are absent, or every key is valid and every value is a positive number. |
| WeightConfig.AsMapContents | src/keywordx/extractor.py:42 | For unique keys, `dict(entity_weights)` has exactly the input keys, each mapped to its input value. |
| WeightConfig.AsMapWithin | src/keywordx/extractor.py:37-42 | A mapping whose keys are valid and whose values are positive is stored with valid keys and positive weights. |
| WeightConfig.ValidatedWeights | src/keywordx/extractor.py:42 | On success the stored weights have valid keys and positive values and equal the input mapping. `None` or an empty mapping stores `{}`. |
| Extractor.KeywordExtractor.constructor | src/keywordx/extractor.py:19-42 | Stores the baseline text and the model labels plus `PARSED_DATE` as the valid types, then the checked weights; the configuration invariant holds. |
| Extractor.KeywordExtractor.Create | src/keywordx/extractor.py:12-42 | A failed check returns the error `Validate` gives and no extractor. On success a fresh extractor has the valid types and the weights `Validate` accepted. |
| SemanticMatcher.FirstMaxIndex | src/keywordx/extractor.py:62 | `argmax` returns an index whose score is at least every score and strictly above every earlier score. |
| SemanticMatcher.FirstMaxUnique | src/keywordx/extractor.py:62 | The first maximum is unique, so ties go to the earliest phrase. |
| SemanticMatcher.BestPhrase | src/keywordx/extractor.py:61-68 | A keyword yields a match if and only if some phrase score reaches `min_score`. The match carries the keyword, the first-maximum phrase and its score. |
| SemanticMatcher.SelectSemantic | src/keywordx/extractor.py:58-68 | The keyword loop builds `SemanticResults`: for each keyword in order, its accepted match is appended. |
| SemanticMatcher.SemanticSource | src/keywordx/extractor.py:60-68 | Every entry of `results` is the match that some keyword's own score row selects. |
| SemanticMatcher.SemanticComplete | src/keywordx/extractor.py:60-68 | Every keyword whose row selects a match contributes that match to `results`. |
| SemanticMatcher.SemanticKeys | src/keywordx/extractor.py:60-68 | The keywords of `results` are the accepted keywords, in keyword order. |
| MatchTable.IndexOf | src/keywordx/extractor.py:73 | The lookup position holds the key; -1 means no entry has the key. |
| MatchTable.FindFacts | src/keywordx/extractor.py:73 | `d.get(k)` is empty exactly when `k` is not a key, and otherwise returns an entry stored under `k`. |
| MatchTable.PutFacts | src/keywordx/extractor.py:74 | Assignment keeps keys unique, changes only the entry for the assigned key, keeps existing keys in place and appends a new key. |
| ResultMerger.StepFind | src/keywordx/extractor.py:73-74 | One de-duplication or merge step stores the new match exactly when the key is absent or the new score is strictly greater. Other keys are unchanged. |
| ResultMerger.KeepBestPerKeyword | src/keywordx/extractor.py:70-74 | The de-duplication loop builds `KeepBest(results)`. |
| ResultMerger.KeepBestKeyed | src/keywordx/extractor.py:70-74 | `final_results` holds at most one match per keyword. |
| ResultMerger.KeepBestFrom | src/keywordx/extractor.py:70-74 | What is stored under a keyword is one of the input matches. |
| ResultMerger.KeepBestKeys | src/keywordx/extractor.py:70-74 | The keys of `final_results` are the input keywords in order of first occurrence. |
| ResultMerger.KeepBestAbsent | src/keywordx/extractor.py:70-74 | A keyword is absent if and only if no input match carries it. |
| ResultMerger.KeepBestFirstMax | src/keywordx/extractor.py:73-74 | Among the matches for a keyword, the first one with the highest score is kept. |
| ResultMerger.KeepBestUniform | src/keywordx/extractor.py:70-74 | When all matches for a keyword are the same match, that match is kept. |
| EntityMapper.MappedKeyword | src/keywordx/extractor.py:78-91 | The six base types map to their explicit keyword; every other type maps to its lower-cased tag, whether or not it is a model label. |
| EntityMapper.EntityScore | src/keywordx/extractor.py:101-108 | The score is at most 1.2. It is 0.6 for an unconfigured type, `0.6 * w` for a weight `w <= 2`, 1.2 for `w >= 2`, and positive for a positive weight. |
| EntityMapper.EntityMatchForMapsTo | src/keywordx/extractor.py:96-109 | An entity yields the match `(k, text, score)` if and only if its mapped keyword is `k`, non-empty and requested. |
| EntityMapper.CollectEntityMatches | src/keywordx/extractor.py:94-109 | The entity loop builds `EntityTable`, skipping unmapped or unrequested entities and assigning the others in entity order. |
| EntityMapper.EntityTableKeyed | src/keywordx/extractor.py:94-109 | `entity_matches` has unique keys, all of them non-empty, requested keywords. |
| EntityMapper.EntityTableStep | src/keywordx/extractor.py:95-109 | One entity overwrites the entry of its keyword when it maps to one and leaves every other entry alone. |
| EntityMapper.EntityTableFind | src/keywordx/extractor.py:94-109 | The entry under `k` equals the reference `LastEntityMatch`: the match of the last entity that maps to `k`. |
| EntityMapper.LastEntityMatchAbsent | src/keywordx/extractor.py:95-99 | The reference has no match for `k` if and only if no entity maps to `k`. |
| EntityMapper.EntityTableAbsent | src/keywordx/extractor.py:95-99 | `entity_matches` has no entry for `k` if and only if no entity maps to `k`. |
| EntityMapper.LastEntityMatchAt | src/keywordx/extractor.py:105-109 | The last entity mapping to `k` supplies the reference match for `k`. |
| EntityMapper.EntityTableLastWins | src/keywordx/extractor.py:105-109 | Among entities mapping to one keyword, the last one is stored, with its text and its capped, weighted score. No scores are compared. |
| EntityMapper.EntityTableKeys | src/keywordx/extractor.py:94-109 | The keys of `entity_matches` are the contributing keywords in order of first contribution. |
| ResultMerger.MergeMatches | src/keywordx/extractor.py:112-120 | The merge loop builds `Merge(final_results, entity_matches)`. |
| ResultMerger.MergeKeyed | src/keywordx/extractor.py:112-120 | The merged table still holds at most one match per keyword. |
| ResultMerger.MergeFind | src/keywordx/extractor.py:112-120 | For every keyword, the merged entry is `Resolve(semantic, entity)`. The entity wins only with a strictly greater score, and a single source keeps its match. |
| ResultMerger.MergeKeys | src/keywordx/extractor.py:112-122 | The merged order is the semantic keys in place (replacements included), then the entity-only keys in entity-table order. |
| Extractor.KeywordExtractor.Extract | src/keywordx/extractor.py:48-123 | `extract` returns `Extracted`: the merged matches and the recognised entities. |
| Extractor.SemanticFind | src/keywordx/extractor.py:60-74 | After de-duplication, a requested keyword holds what its own scores select, even when it is requested twice. Any other keyword holds nothing. |
| Extractor.ExtractPerKeyword | src/keywordx/extractor.py:53-122 | The result for keyword `k` is nothing if `k` was not requested. Otherwise it is `k`'s semantic match and its last entity match, resolved by the strict-greater rule. |
| Extractor.ExtractWellFormed | src/keywordx/extractor.py:111-123 | The output has one match per keyword at most, only for requested keywords (none at all for an empty keyword list), and returns the entity list unchanged. |
| Extractor.ExtractOrder | src/keywordx/extractor.py:111-122 | Output order is the accepted semantic keywords in first-occurrence order, then the entity-only keywords in the order their first entity appears. |
| Extractor.ThresholdEnforced | src/keywordx/extractor.py:60-122 | A keyword with every phrase score below `min_score` appears only through its entity match. It does not appear when no entity maps to it. |
| Extractor.KeywordExtractor.ExtractMany | src/keywordx/extractor.py:139-143 | The result has one entry per text (`[]` for `[]`), and entry `i` is `extract(texts[i], ...)`. |
| Extractor.ExtractedBatchAt | src/keywordx/extractor.py:139-143 | The batch fold lines up with the texts, and each entry is the single-document result. |

## Left out

- `chunk_phrases`, `embed_texts`, `whiten`, `score_matches`, `extract_structured` and `load_spacy_model` are not part of this model. Their sources are not available and they are numeric model code. They enter as the `Providers` functions and the label set passed to construction.
- `baseline_text`, `idf_vectorizer` and `idf_map` only feed `score_matches`. The model stores `baseline_text` but folds its effect, and the IDF data, into `Providers.score` for a fixed extractor.
- Floating point: scores and weights are mathematical reals. `float(...)` conversion, rounding and NaN are not modelled.
- An empty phrase list with a non-empty keyword list makes numpy's `argmax` raise. The model excludes it with the `Analyzable` precondition, which also requires each score row to match the phrases.
- Python's `isinstance(v, Real)` and `isinstance(..., Mapping)` tests are modelled by tagged datatypes (`WeightValue`, `WeightsArg`). The quirk that `bool` counts as `Real` is therefore not modelled.
- Error messages are not modelled beyond the error kind and the offending key, type, value or key list. The sorted list of valid options in the message is left out.
- `Lower`: `str.lower()` is modelled on ASCII letters only.
- An entity whose type is `None` is modelled with the empty type string. Both map to the empty keyword and are skipped.
- `Extractor.KeywordExtractor.constructor`: a Dafny constructor cannot fail, so construction is split. `Create` runs the checks first and returns the error or a new extractor, and the constructor takes weights already known to be valid.
- Exceptions raised by the providers during `extract` or `extract_many` are not modelled, since the providers are total functions here.
- `examples/batch_example.py` (console output) and the test files are not modelled. There is no parallel batching; the source loop is sequential.
