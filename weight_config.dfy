/** Construction-time validation of the per-entity-type weights
    (`KeywordExtractor.__init__`). */
module WeightConfig {
  import opened Types

  /** The pseudo-entity tag the date parser adds to the recogniser's labels. */
  const ParsedDate: string := "PARSED_DATE"

  /** The labels an `entity_weights` key may name: the recogniser's own plus `PARSED_DATE`. */
  function ValidEntityTypes(modelLabels: set<string>): set<string>
  {
    modelLabels + {ParsedDate}
  }

  /** A weight value as the runtime sees it: a real number, or something else (named by its type). */
  datatype WeightValue = Number(amount: real) | NotNumber(typeName: string)

  /** One `(key, value)` item of the mapping, in iteration order. */
  datatype WeightEntry = WeightEntry(key: string, value: WeightValue)

  /** The `entity_weights` argument: absent (`None`), not a mapping, or a mapping given by its items. */
  datatype WeightsArg = NoWeights | NotMapping(typeName: string) | Weights(entries: seq<WeightEntry>)

  datatype ErrorKind = TypeError | ValueError

  datatype ConfigError =
    | NotAMapping(typeName: string)
    | InvalidEntityTypes(keys: seq<string>)
    | WeightNotNumber(key: string, typeName: string)
    | WeightNotPositive(key: string, amount: real)
  {
    /** The Python exception class the error is raised as. */
    function Kind(): ErrorKind
    {
      match this
      case NotAMapping(_) => TypeError
      case WeightNotNumber(_, _) => TypeError
      case InvalidEntityTypes(_) => ValueError
      case WeightNotPositive(_, _) => ValueError
    }
  }

  /** The keys of a mapping, in iteration order. */
  function EntryKeys(es: seq<WeightEntry>): seq<string>
  {
    seq(|es|, i requires 0 <= i < |es| => es[i].key)
  }

  /** Mapping keys are unique. */
  predicate DistinctKeys(es: seq<WeightEntry>)
  {
    forall i, j :: 0 <= i < j < |es| ==> es[i].key != es[j].key
  }

  /** A value that passes both value checks. */
  predicate Acceptable(v: WeightValue)
  {
    v.Number? && v.amount > 0.0
  }

  /** The invariant of a stored configuration: known keys, positive weights. */
  predicate WeightsWithin(valid: set<string>, weights: map<string, real>)
  {
    forall k :: k in weights ==> k in valid && weights[k] > 0.0
  }

  /** `[k for k in entity_weights if k not in VALID_ENTITY_TYPES]`. */
  function InvalidKeys(valid: set<string>, es: seq<WeightEntry>): seq<string>
    decreases |es|
  {
    if es == [] then []
    else (if es[0].key in valid then [] else [es[0].key]) + InvalidKeys(valid, es[1..])
  }

  /** The error the value loop raises first, if any. */
  function FirstBadValue(es: seq<WeightEntry>): Option<ConfigError>
    decreases |es|
  {
    if es == [] then None
    else match es[0].value
      case NotNumber(t) => Some(WeightNotNumber(es[0].key, t))
      case Number(x) =>
        if x <= 0.0 then Some(WeightNotPositive(es[0].key, x)) else FirstBadValue(es[1..])
  }

  /** `dict(entity_weights)` once every value is known to be a number. */
  function AsMap(es: seq<WeightEntry>): map<string, real>
    requires forall i :: 0 <= i < |es| ==> es[i].value.Number?
    decreases |es|
  {
    if es == [] then map[]
    else AsMap(es[..|es| - 1])[es[|es| - 1].key := es[|es| - 1].value.amount]
  }

  /** What construction does with `entity_weights`: the stored weights or the error raised. */
  function Validate(valid: set<string>, arg: WeightsArg): Result<map<string, real>, ConfigError>
  {
    match arg
    case NoWeights => Success(map[])
    case NotMapping(t) => Failure(NotAMapping(t))
    case Weights(es) =>
      if es == [] then Success(map[])
      else if InvalidKeys(valid, es) != [] then Failure(InvalidEntityTypes(InvalidKeys(valid, es)))
      else match FirstBadValue(es)
        case Some(e) => Failure(e)
        case None =>
          assert forall i :: 0 <= i < |es| ==> es[i].value.Number? by { AllAcceptable(es); }
          Success(AsMap(es))
  }

  /** The checks of `__init__`, in the order it runs them. */
  method ValidateWeights(valid: set<string>, arg: WeightsArg) returns (r: Result<map<string, real>, ConfigError>)
    ensures r == Validate(valid, arg)
  {
    if arg.NotMapping? {
      return Failure(NotAMapping(arg.typeName));
    }
    if arg.NoWeights? || arg.entries == [] {
      return Success(map[]);
    }
    var es := arg.entries;
    var invalid := InvalidKeys(valid, es);
    if invalid != [] {
      return Failure(InvalidEntityTypes(invalid));
    }
    for i := 0 to |es|
      invariant FirstBadValue(es[i..]) == FirstBadValue(es)
    {
      assert es[i..][1..] == es[i + 1..];
      match es[i].value
      case NotNumber(t) =>
        return Failure(WeightNotNumber(es[i].key, t));
      case Number(x) =>
        if x <= 0.0 {
          return Failure(WeightNotPositive(es[i].key, x));
        }
    }
    AllAcceptable(es);
    return Success(AsMap(es));
  }

  /** No value error is pending exactly when every value passes both checks. */
  lemma {:induction false} AllAcceptable(es: seq<WeightEntry>)
    ensures FirstBadValue(es).None? <==> forall i :: 0 <= i < |es| ==> Acceptable(es[i].value)
    decreases |es|
  {
    if es != [] {
      AllAcceptable(es[1..]);
      assert forall i :: 1 <= i < |es| ==> es[i] == es[1..][i - 1];
    }
  }

  /** The invalid-key list names exactly the keys outside the valid set, in iteration order. */
  lemma {:induction false} InvalidKeysExact(valid: set<string>, es: seq<WeightEntry>)
    ensures forall k :: k in InvalidKeys(valid, es) <==> k in EntryKeys(es) && k !in valid
    decreases |es|
  {
    if es != [] {
      InvalidKeysExact(valid, es[1..]);
      assert EntryKeys(es) == [es[0].key] + EntryKeys(es[1..]);
    }
  }

  /** A non-mapping argument is rejected with a type error, whatever the valid set. */
  lemma NonMappingRejected(valid: set<string>, typeName: string)
    ensures Validate(valid, NotMapping(typeName)).Failure?
    ensures Validate(valid, NotMapping(typeName)).error.Kind() == TypeError
  {
  }

  /** An unknown key is reported, with every other unknown key, as a value error before
      any value is looked at: the outcome does not depend on the values. */
  lemma ValidateRejectsUnknownKey(valid: set<string>, es: seq<WeightEntry>, i: int)
    requires 0 <= i < |es| && es[i].key !in valid
    ensures Validate(valid, Weights(es)).Failure?
    ensures Validate(valid, Weights(es)).error == InvalidEntityTypes(InvalidKeys(valid, es))
    ensures Validate(valid, Weights(es)).error.Kind() == ValueError
    ensures forall k :: k in InvalidKeys(valid, es) <==> k in EntryKeys(es) && k !in valid
  {
    InvalidKeysExact(valid, es);
    assert es[i].key in InvalidKeys(valid, es) by {
      assert EntryKeys(es)[i] == es[i].key;
    }
  }

  /** With every key valid, the first offending value in iteration order decides the error:
      a non-number is a type error, a number at most zero a value error. */
  lemma {:induction false} ValidateFirstBadValue(valid: set<string>, es: seq<WeightEntry>, i: int)
    requires forall j :: 0 <= j < |es| ==> es[j].key in valid
    requires 0 <= i < |es| && !Acceptable(es[i].value)
    requires forall j :: 0 <= j < i ==> Acceptable(es[j].value)
    ensures Validate(valid, Weights(es)) == Failure(
      match es[i].value
      case NotNumber(t) => WeightNotNumber(es[i].key, t)
      case Number(x) => WeightNotPositive(es[i].key, x))
    ensures Validate(valid, Weights(es)).error.Kind() == if es[i].value.NotNumber? then TypeError else ValueError
  {
    NoInvalidKeys(valid, es);
    FirstBadValueAt(es, i);
  }

  lemma {:induction false} NoInvalidKeys(valid: set<string>, es: seq<WeightEntry>)
    requires forall j :: 0 <= j < |es| ==> es[j].key in valid
    ensures InvalidKeys(valid, es) == []
    decreases |es|
  {
    if es != [] {
      NoInvalidKeys(valid, es[1..]);
    }
  }

  lemma {:induction false} FirstBadValueAt(es: seq<WeightEntry>, i: int)
    requires 0 <= i < |es| && !Acceptable(es[i].value)
    requires forall j :: 0 <= j < i ==> Acceptable(es[j].value)
    ensures FirstBadValue(es) == Some(
      match es[i].value
      case NotNumber(t) => WeightNotNumber(es[i].key, t)
      case Number(x) => WeightNotPositive(es[i].key, x))
    decreases i
  {
    if i > 0 {
      FirstBadValueAt(es[1..], i - 1);
    }
  }

  /** Construction succeeds exactly when weights are absent, or every key is valid and
      every value a positive number. */
  lemma ValidateAccepts(valid: set<string>, arg: WeightsArg)
    ensures Validate(valid, arg).Success? <==>
      arg.NoWeights? ||
      (arg.Weights? && forall i :: 0 <= i < |arg.entries| ==>
         arg.entries[i].key in valid && Acceptable(arg.entries[i].value))
  {
    if arg.Weights? {
      var es := arg.entries;
      InvalidKeysExact(valid, es);
      AllAcceptable(es);
      if InvalidKeys(valid, es) != [] {
        var k := InvalidKeys(valid, es)[0];
        assert k in EntryKeys(es);
        var j :| 0 <= j < |es| && EntryKeys(es)[j] == k;
        assert es[j].key !in valid;
      } else {
        forall j | 0 <= j < |es| ensures es[j].key in valid {
          assert EntryKeys(es)[j] == es[j].key;
        }
      }
    }
  }

  /** The copy that `dict(...)` stores holds exactly the input's items. */
  lemma {:induction false} AsMapKeys(es: seq<WeightEntry>)
    requires forall i :: 0 <= i < |es| ==> es[i].value.Number?
    ensures AsMap(es).Keys == set i | 0 <= i < |es| :: es[i].key
    decreases |es|
  {
    if es != [] {
      var n := |es| - 1;
      var front := es[..n];
      assert forall i :: 0 <= i < n ==> front[i] == es[i];
      AsMapKeys(front);
      assert (set i | 0 <= i < |es| :: es[i].key) == (set i | 0 <= i < n :: front[i].key) + {es[n].key};
    }
  }

  lemma {:induction false} AsMapValues(es: seq<WeightEntry>)
    requires forall i :: 0 <= i < |es| ==> es[i].value.Number?
    requires DistinctKeys(es)
    ensures forall i :: 0 <= i < |es| ==> es[i].key in AsMap(es) && AsMap(es)[es[i].key] == es[i].value.amount
    decreases |es|
  {
    if es != [] {
      var n := |es| - 1;
      var front := es[..n];
      assert forall i :: 0 <= i < n ==> front[i] == es[i];
      AsMapValues(front);
      forall i | 0 <= i < n ensures AsMap(es)[es[i].key] == es[i].value.amount {
        assert es[i].key != es[n].key;
        assert AsMap(front)[front[i].key] == front[i].value.amount;
      }
    }
  }

  lemma AsMapContents(es: seq<WeightEntry>)
    requires forall i :: 0 <= i < |es| ==> es[i].value.Number?
    requires DistinctKeys(es)
    ensures AsMap(es).Keys == set i | 0 <= i < |es| :: es[i].key
    ensures forall i :: 0 <= i < |es| ==> AsMap(es)[es[i].key] == es[i].value.amount
  {
    AsMapKeys(es);
    AsMapValues(es);
  }

  lemma {:induction false} AsMapWithin(valid: set<string>, es: seq<WeightEntry>)
    requires forall i :: 0 <= i < |es| ==> es[i].key in valid && es[i].value.Number? && es[i].value.amount > 0.0
    ensures WeightsWithin(valid, AsMap(es))
    decreases |es|
  {
    if es != [] {
      AsMapWithin(valid, es[..|es| - 1]);
    }
  }

  /** On success the stored weights satisfy the configuration invariant and, keys being
      unique in a mapping, equal the input; absent or empty weights store the empty map. */
  lemma ValidatedWeights(valid: set<string>, arg: WeightsArg)
    requires Validate(valid, arg).Success?
    ensures WeightsWithin(valid, Validate(valid, arg).value)
    ensures arg.Weights? && DistinctKeys(arg.entries) ==>
      Validate(valid, arg).value.Keys == set i | 0 <= i < |arg.entries| :: arg.entries[i].key
    ensures arg.Weights? && DistinctKeys(arg.entries) ==> forall i :: 0 <= i < |arg.entries| ==>
      arg.entries[i].value == Number(Validate(valid, arg).value[arg.entries[i].key])
    ensures (arg.NoWeights? || arg == Weights([])) ==> Validate(valid, arg).value == map[]
  {
    ValidateAccepts(valid, arg);
    if arg.Weights? && arg.entries != [] {
      var es := arg.entries;
      AllAcceptable(es);
      AsMapWithin(valid, es);
      if DistinctKeys(es) {
        AsMapContents(es);
      }
    }
  }
}
