/** The imperative algorithm of `pairStable` (internal/provider/resource_pair.go),
    loop by loop as the Go code runs it, proved to compute `StablePairing`.
    Each phase is a method of its own; `PairStable` runs them in order. */
module Provider {
  import opened PairSpec

  /** Phase 1, for either input: the known strings as a set, the unknown
      elements counted. */
  method Classify(xs: seq<SV>) returns (known: set<string>, unknown: nat)
    ensures known == KnownSet(xs) && unknown == UnknownCount(xs)
  {
    known, unknown := {}, 0;
    var i := 0;
    while i < |xs|
      invariant 0 <= i <= |xs|
      invariant known == KnownSet(xs[..i]) && unknown == UnknownCount(xs[..i])
    {
      ClassifyStep(xs, i);
      if xs[i].Unknown? {
        unknown := unknown + 1;
      } else {
        known := known + {xs[i].s};
      }
      i := i + 1;
    }
    assert xs[..i] == xs;
  }

  /** Phase 2: keep each previous pair whose key and value are both still
      known members and record its value as used. The order in which the
      previous pairs are visited is left open, as Go's map iteration leaves it. */
  method CarryForward(existingResult: map<string, string>, keyMapping: set<string>, valueMapping: set<string>)
    returns (finalMapping: map<string, SV>, valuesUsed: set<string>)
    ensures finalMapping == Initial(existingResult, keyMapping, valueMapping, 0).mapping
    ensures valuesUsed == Initial(existingResult, keyMapping, valueMapping, 0).used
  {
    finalMapping, valuesUsed := map[], {};
    var pending := existingResult.Keys;
    while pending != {}
      invariant pending <= existingResult.Keys
      invariant finalMapping == map k | k in existingResult && k !in pending && Keeps(existingResult, keyMapping, valueMapping, k) :: Known(existingResult[k])
      invariant valuesUsed == set k | k in existingResult && k !in pending && Keeps(existingResult, keyMapping, valueMapping, k) :: existingResult[k]
      decreases pending
    {
      var key :| key in pending;
      pending := pending - {key};
      var value := existingResult[key];
      if key !in keyMapping {
        continue;
      }
      if value !in valueMapping {
        continue;
      }
      finalMapping := finalMapping[key := Known(value)];
      valuesUsed := valuesUsed + {value};
    }
  }

  /** Phase 3: give each known key without an entry the first unused known
      value, or else an unknown-value slot while one is free. */
  method AssignKeys(st: Assignment, keys: seq<SV>, values: seq<SV>) returns (r: Assignment)
    ensures r == AssignAll(st, keys, values)
  {
    var finalMapping, valuesUsed, valuesUnknown := st.mapping, st.used, st.slots;
    var i := 0;
    while i < |keys|
      invariant 0 <= i <= |keys|
      invariant Assignment(finalMapping, valuesUsed, valuesUnknown) == AssignAll(st, keys[..i], values)
    {
      assert keys[..i + 1][..i] == keys[..i];
      ghost var before := Assignment(finalMapping, valuesUsed, valuesUnknown);
      var key := keys[i];
      i := i + 1;
      if key.Unknown? {
        continue;
      }
      if key.s in finalMapping {
        continue;
      }

      var j := 0;
      while j < |values|
        invariant 0 <= j <= |values|
        invariant finalMapping == before.mapping && valuesUsed == before.used
        invariant FirstUnused(values, valuesUsed, j) == FirstUnused(values, valuesUsed, 0)
      {
        var value := values[j];
        if value.Unknown? {
          j := j + 1;
          continue;
        }
        if value.s in valuesUsed {
          j := j + 1;
          continue;
        }
        finalMapping := finalMapping[key.s := value];
        valuesUsed := valuesUsed + {value.s};
        break;
      }

      if valuesUnknown > 0 {
        if key.s !in finalMapping {
          finalMapping := finalMapping[key.s := Unknown];
          valuesUnknown := valuesUnknown - 1;
          continue;
        }
      }
    }
    assert keys[..i] == keys;
    r := Assignment(finalMapping, valuesUsed, valuesUnknown);
  }

  /** `pairStable`: the four phases in order. */
  method PairStable(existingResult: map<string, string>, keys: seq<SV>, values: seq<SV>) returns (r: Res)
    ensures r == StablePairing(existingResult, keys, values)
  {
    var keyMapping, keysUnknown := Classify(keys);
    var valueMapping, valuesUnknown := Classify(values);

    var finalMapping, valuesUsed := CarryForward(existingResult, keyMapping, valueMapping);

    var st := AssignKeys(Assignment(finalMapping, valuesUsed, valuesUnknown), keys, values);
    finalMapping, valuesUsed, valuesUnknown := st.mapping, st.used, st.slots;

    // Phase 4: an unknown key that could still be given a value makes the
    // whole result unknown.
    if keysUnknown > 0 && (valuesUnknown > 0 || |valueMapping| - |valuesUsed| > 0) {
      return UnknownMap;
    }
    return KnownMap(finalMapping);
  }
}
