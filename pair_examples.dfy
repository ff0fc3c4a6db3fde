/** Cases of the table in `TestInternalPairStable`
    (internal/provider/resource_pair_test.go), worked through the
    specification one phase and one key at a time, and one input showing why
    the size bound needs a previous result in which no two keys share a value.

    Each case is split the same way: the pairs carried forward, one lemma per
    key that takes a value, the state at the end of the key loop, and the
    result. */
module PairExamples {
  import opened PairSpec
  import PairProps

  // ---------------------------------------------------------------------------
  // Evaluation helpers

  /** One step of the scan over `values`. */
  lemma ScanStep(values: seq<SV>, used: set<string>, from: nat)
    requires from < |values|
    ensures Available(values[from], used) ==> FirstUnused(values, used, from) == Some(from)
    ensures !Available(values[from], used) ==> FirstUnused(values, used, from) == FirstUnused(values, used, from + 1)
  {
  }

  /** Carrying forward from an empty previous result keeps nothing. */
  lemma CarryEmpty(keySet: set<string>, valueSet: set<string>, slots: nat)
    ensures Initial(map[], keySet, valueSet, slots) == Assignment(map[], {}, slots)
  {
  }

  /** A previous pair whose key and value are still known is carried forward. */
  lemma CarryKept(existing: map<string, string>, keySet: set<string>, valueSet: set<string>, slots: nat, k: string, v: string)
    requires k !in existing && k in keySet && v in valueSet
    ensures Initial(existing[k := v], keySet, valueSet, slots)
         == Initial(existing, keySet, valueSet, slots).(
              mapping := Initial(existing, keySet, valueSet, slots).mapping[k := Known(v)],
              used := Initial(existing, keySet, valueSet, slots).used + {v})
  {
    var before, after := Initial(existing, keySet, valueSet, slots), Initial(existing[k := v], keySet, valueSet, slots);
    assert after.mapping == before.mapping[k := Known(v)];
    assert Keeps(existing[k := v], keySet, valueSet, k);
    forall x | x in before.used
      ensures x in after.used
    {
      var j :| j in existing && Keeps(existing, keySet, valueSet, j) && existing[j] == x;
      assert Keeps(existing[k := v], keySet, valueSet, j);
    }
    assert after.used == before.used + {v};
  }

  /** A previous pair whose key is no longer a known key is dropped. */
  lemma CarryDropped(existing: map<string, string>, keySet: set<string>, valueSet: set<string>, slots: nat, k: string, v: string)
    requires k !in existing && k !in keySet
    ensures Initial(existing[k := v], keySet, valueSet, slots) == Initial(existing, keySet, valueSet, slots)
  {
    var before, after := Initial(existing, keySet, valueSet, slots), Initial(existing[k := v], keySet, valueSet, slots);
    assert after.mapping == before.mapping;
    forall x | x in before.used
      ensures x in after.used
    {
      var j :| j in existing && Keeps(existing, keySet, valueSet, j) && existing[j] == x;
      assert Keeps(existing[k := v], keySet, valueSet, j);
    }
    assert after.used == before.used;
  }

  /** The loop over `keys` is `AssignKey` applied key by key: if `states`
      lists the state before each key and after the last, phase 3 ends in the
      last state. */
  lemma {:induction false} Trace(st: Assignment, keys: seq<SV>, values: seq<SV>, states: seq<Assignment>)
    requires |states| == |keys| + 1 && states[0] == st
    requires forall i :: 0 <= i < |keys| ==> AssignKey(states[i], keys[i], values) == states[i + 1]
    ensures AssignAll(st, keys, values) == states[|keys|]
    decreases |keys|
  {
    if keys != [] {
      var n := |keys| - 1;
      Trace(st, keys[..n], values, states[..n + 1]);
      assert keys == keys[..n] + [keys[n]];
    }
  }

  /** The string of a known element is in the known set. */
  lemma KnownAt(xs: seq<SV>, i: nat)
    requires i < |xs| && xs[i].Known?
    ensures xs[i].s in KnownSet(xs)
  {
  }

  /** Inputs whose elements are all known have no unknown element. */
  lemma NoUnknown(xs: seq<SV>)
    requires forall i :: 0 <= i < |xs| ==> xs[i].Known?
    ensures UnknownCount(xs) == 0
  {
    assert Unknown !in xs;
  }

  /** Phase 4 read off the state at the end of phase 3. */
  lemma Outcome(existing: map<string, string>, keys: seq<SV>, values: seq<SV>, st: Assignment)
    requires Assigned(existing, keys, values) == st
    ensures StablePairing(existing, keys, values) ==
      if UnknownCount(keys) > 0 && (st.slots > 0 || |KnownSet(values)| - |st.used| > 0) then UnknownMap
      else KnownMap(st.mapping)
  {
  }

  // ---------------------------------------------------------------------------
  // "stable - addition & removal": keys b, c, e; values 1, 2, 3, 4; previous
  // a:1, b:3, c:2. The pair of the removed key a is dropped and the new key e
  // takes the first value no one uses, 1.

  const keysAR: seq<SV> := [Known("b"), Known("c"), Known("e")]
  const valuesAR: seq<SV> := [Known("1"), Known("2"), Known("3"), Known("4")]
  const previousAR: map<string, string> := map["a" := "1", "b" := "3", "c" := "2"]

  lemma AdditionRemovalCarry(ks: set<string>, vs: set<string>)
    requires "a" !in ks && "b" in ks && "c" in ks && "3" in vs && "2" in vs
    ensures Initial(previousAR, ks, vs, 0) == Assignment(map["b" := Known("3"), "c" := Known("2")], {"3", "2"}, 0)
  {
    CarryEmpty(ks, vs, 0);
    CarryDropped(map[], ks, vs, 0, "a", "1");
    CarryKept(map["a" := "1"], ks, vs, 0, "b", "3");
    CarryKept(map["a" := "1", "b" := "3"], ks, vs, 0, "c", "2");
    assert {} + {"3"} + {"2"} == {"3", "2"};
  }

  lemma AdditionRemovalE()
    ensures AssignKey(Assignment(map["b" := Known("3"), "c" := Known("2")], {"3", "2"}, 0), Known("e"), valuesAR)
         == Assignment(map["b" := Known("3"), "c" := Known("2"), "e" := Known("1")], {"3", "2", "1"}, 0)
  {
    ScanStep(valuesAR, {"3", "2"}, 0);
  }

  lemma AdditionRemovalInitial(keys: seq<SV>, values: seq<SV>)
    requires keys == keysAR && values == valuesAR
    ensures Initial(previousAR, KnownSet(keys), KnownSet(values), UnknownCount(values))
         == Assignment(map["b" := Known("3"), "c" := Known("2")], {"3", "2"}, 0)
  {
    assert "a" !in KnownSet(keys) && "b" in KnownSet(keys) && "c" in KnownSet(keys);
    KnownAt(values, 1);
    KnownAt(values, 2);
    assert UnknownCount(values) == 0;
    AdditionRemovalCarry(KnownSet(keys), KnownSet(values));
  }

  lemma AdditionRemovalLoop(keys: seq<SV>, values: seq<SV>)
    requires keys == keysAR && values == valuesAR
    ensures AssignAll(Assignment(map["b" := Known("3"), "c" := Known("2")], {"3", "2"}, 0), keys, values)
         == Assignment(map["b" := Known("3"), "c" := Known("2"), "e" := Known("1")], {"3", "2", "1"}, 0)
  {
    var s0 := Assignment(map["b" := Known("3"), "c" := Known("2")], {"3", "2"}, 0);
    var s3 := Assignment(map["b" := Known("3"), "c" := Known("2"), "e" := Known("1")], {"3", "2", "1"}, 0);
    var states := [s0, s0, s0, s3];
    forall i | 0 <= i < |keys|
      ensures AssignKey(states[i], keys[i], values) == states[i + 1]
    {
      if i == 2 {
        AdditionRemovalE();
      }
    }
    Trace(s0, keys, values, states);
  }

  lemma AdditionRemoval(keys: seq<SV>, values: seq<SV>)
    requires keys == keysAR && values == valuesAR
    ensures StablePairing(previousAR, keys, values)
         == KnownMap(map["b" := Known("3"), "c" := Known("2"), "e" := Known("1")])
  {
    AdditionRemovalInitial(keys, values);
    AdditionRemovalLoop(keys, values);
    assert UnknownCount(keys) == 0;
    Outcome(previousAR, keys, values, Assignment(map["b" := Known("3"), "c" := Known("2"), "e" := Known("1")], {"3", "2", "1"}, 0));
  }

  // ---------------------------------------------------------------------------
  // "stable - addition & removal over max": keys a, b, c, e, f; values
  // 1, 2, 3, 4; previous a:1, b:3, c:2, d:4. e takes the value d gave up and
  // f, finding nothing left, gets no entry.

  const keysOM: seq<SV> := [Known("a"), Known("b"), Known("c"), Known("e"), Known("f")]
  const valuesOM: seq<SV> := [Known("1"), Known("2"), Known("3"), Known("4")]
  const previousOM: map<string, string> := map["a" := "1", "b" := "3", "c" := "2", "d" := "4"]

  lemma OverMaxCarry(ks: set<string>, vs: set<string>)
    requires "a" in ks && "b" in ks && "c" in ks && "d" !in ks && "1" in vs && "3" in vs && "2" in vs
    ensures Initial(previousOM, ks, vs, 0)
         == Assignment(map["a" := Known("1"), "b" := Known("3"), "c" := Known("2")], {"1", "3", "2"}, 0)
  {
    CarryEmpty(ks, vs, 0);
    CarryKept(map[], ks, vs, 0, "a", "1");
    CarryKept(map["a" := "1"], ks, vs, 0, "b", "3");
    CarryKept(map["a" := "1", "b" := "3"], ks, vs, 0, "c", "2");
    CarryDropped(map["a" := "1", "b" := "3", "c" := "2"], ks, vs, 0, "d", "4");
    assert {} + {"1"} + {"3"} + {"2"} == {"1", "3", "2"};
  }

  lemma OverMaxE()
    ensures AssignKey(Assignment(map["a" := Known("1"), "b" := Known("3"), "c" := Known("2")], {"1", "3", "2"}, 0), Known("e"), valuesOM)
         == Assignment(map["a" := Known("1"), "b" := Known("3"), "c" := Known("2"), "e" := Known("4")], {"1", "3", "2", "4"}, 0)
  {
    ScanStep(valuesOM, {"1", "3", "2"}, 0);
    ScanStep(valuesOM, {"1", "3", "2"}, 1);
    ScanStep(valuesOM, {"1", "3", "2"}, 2);
    ScanStep(valuesOM, {"1", "3", "2"}, 3);
  }

  lemma OverMaxF()
    ensures AssignKey(Assignment(map["a" := Known("1"), "b" := Known("3"), "c" := Known("2"), "e" := Known("4")], {"1", "3", "2", "4"}, 0), Known("f"), valuesOM)
         == Assignment(map["a" := Known("1"), "b" := Known("3"), "c" := Known("2"), "e" := Known("4")], {"1", "3", "2", "4"}, 0)
  {
    ScanStep(valuesOM, {"1", "3", "2", "4"}, 0);
    ScanStep(valuesOM, {"1", "3", "2", "4"}, 1);
    ScanStep(valuesOM, {"1", "3", "2", "4"}, 2);
    ScanStep(valuesOM, {"1", "3", "2", "4"}, 3);
  }

  lemma OverMaxInitial(keys: seq<SV>, values: seq<SV>)
    requires keys == keysOM && values == valuesOM
    ensures Initial(previousOM, KnownSet(keys), KnownSet(values), UnknownCount(values))
         == Assignment(map["a" := Known("1"), "b" := Known("3"), "c" := Known("2")], {"1", "3", "2"}, 0)
  {
    OverMaxKeys(keys);
    KnownAt(values, 0);
    KnownAt(values, 1);
    KnownAt(values, 2);
    OverMaxAllKnown(keys, values);
    OverMaxCarry(KnownSet(keys), KnownSet(values));
  }

  lemma OverMaxAllKnown(keys: seq<SV>, values: seq<SV>)
    requires keys == keysOM && values == valuesOM
    ensures UnknownCount(keys) == 0 && UnknownCount(values) == 0
  {
    forall i | 0 <= i < |keys|
      ensures keys[i].Known?
    {
      assert i == 0 || i == 1 || i == 2 || i == 3 || i == 4;
    }
    NoUnknown(keys);
    forall i | 0 <= i < |values|
      ensures values[i].Known?
    {
      assert i == 0 || i == 1 || i == 2 || i == 3;
    }
    NoUnknown(values);
  }

  /** d, whose pair is dropped, is no longer a key. */
  lemma OverMaxKeys(keys: seq<SV>)
    requires keys == keysOM
    ensures "a" in KnownSet(keys) && "b" in KnownSet(keys) && "c" in KnownSet(keys) && "d" !in KnownSet(keys)
  {
    KnownAt(keys, 0);
    KnownAt(keys, 1);
    KnownAt(keys, 2);
    forall i | 0 <= i < |keys|
      ensures keys[i] != Known("d")
    {
      assert i == 0 || i == 1 || i == 2 || i == 3 || i == 4;
    }
  }

  lemma OverMaxLoop(keys: seq<SV>, values: seq<SV>)
    requires keys == keysOM && values == valuesOM
    ensures AssignAll(Assignment(map["a" := Known("1"), "b" := Known("3"), "c" := Known("2")], {"1", "3", "2"}, 0), keys, values)
         == Assignment(map["a" := Known("1"), "b" := Known("3"), "c" := Known("2"), "e" := Known("4")], {"1", "3", "2", "4"}, 0)
  {
    var s0 := Assignment(map["a" := Known("1"), "b" := Known("3"), "c" := Known("2")], {"1", "3", "2"}, 0);
    var s4 := Assignment(map["a" := Known("1"), "b" := Known("3"), "c" := Known("2"), "e" := Known("4")], {"1", "3", "2", "4"}, 0);
    var states := [s0, s0, s0, s0, s4, s4];
    forall i | 0 <= i < |keys|
      ensures AssignKey(states[i], keys[i], values) == states[i + 1]
    {
      if i == 3 {
        OverMaxE();
      } else if i == 4 {
        OverMaxF();
      }
    }
    Trace(s0, keys, values, states);
  }

  lemma OverMax(keys: seq<SV>, values: seq<SV>)
    requires keys == keysOM && values == valuesOM
    ensures StablePairing(previousOM, keys, values)
         == KnownMap(map["a" := Known("1"), "b" := Known("3"), "c" := Known("2"), "e" := Known("4")])
  {
    OverMaxInitial(keys, values);
    OverMaxLoop(keys, values);
    OverMaxAllKnown(keys, values);
    Outcome(previousOM, keys, values,
      Assignment(map["a" := Known("1"), "b" := Known("3"), "c" := Known("2"), "e" := Known("4")], {"1", "3", "2", "4"}, 0));
  }

  // ---------------------------------------------------------------------------
  // Keys a, b, c; values 1, 2 and one unknown; no previous result. c finds
  // every known value used and reserves the unknown one.

  const keysUV: seq<SV> := [Known("a"), Known("b"), Known("c")]
  const valuesUV: seq<SV> := [Known("1"), Known("2"), Unknown]

  lemma UnknownValueA()
    ensures AssignKey(Assignment(map[], {}, 1), Known("a"), valuesUV) == Assignment(map["a" := Known("1")], {"1"}, 1)
  {
    ScanStep(valuesUV, {}, 0);
  }

  lemma UnknownValueB()
    ensures AssignKey(Assignment(map["a" := Known("1")], {"1"}, 1), Known("b"), valuesUV)
         == Assignment(map["a" := Known("1"), "b" := Known("2")], {"1", "2"}, 1)
  {
    ScanStep(valuesUV, {"1"}, 0);
    ScanStep(valuesUV, {"1"}, 1);
  }

  lemma UnknownValueC()
    ensures AssignKey(Assignment(map["a" := Known("1"), "b" := Known("2")], {"1", "2"}, 1), Known("c"), valuesUV)
         == Assignment(map["a" := Known("1"), "b" := Known("2"), "c" := Unknown], {"1", "2"}, 0)
  {
    ScanStep(valuesUV, {"1", "2"}, 0);
    ScanStep(valuesUV, {"1", "2"}, 1);
    ScanStep(valuesUV, {"1", "2"}, 2);
  }

  lemma UnknownValueInitial(keys: seq<SV>, values: seq<SV>)
    requires values == valuesUV
    ensures Initial(map[], KnownSet(keys), KnownSet(values), UnknownCount(values)) == Assignment(map[], {}, 1)
  {
    assert values == values[..2] + [Unknown];
    assert UnknownCount(values[..2]) == 0;
    CarryEmpty(KnownSet(keys), KnownSet(values), 1);
  }

  lemma UnknownValueLoop(keys: seq<SV>, values: seq<SV>)
    requires keys == keysUV && values == valuesUV
    ensures AssignAll(Assignment(map[], {}, 1), keys, values)
         == Assignment(map["a" := Known("1"), "b" := Known("2"), "c" := Unknown], {"1", "2"}, 0)
  {
    var s0 := Assignment(map[], {}, 1);
    var s1 := Assignment(map["a" := Known("1")], {"1"}, 1);
    var s2 := Assignment(map["a" := Known("1"), "b" := Known("2")], {"1", "2"}, 1);
    var s3 := Assignment(map["a" := Known("1"), "b" := Known("2"), "c" := Unknown], {"1", "2"}, 0);
    var states := [s0, s1, s2, s3];
    forall i | 0 <= i < |keys|
      ensures AssignKey(states[i], keys[i], values) == states[i + 1]
    {
      if i == 0 {
        UnknownValueA();
      } else if i == 1 {
        UnknownValueB();
      } else {
        UnknownValueC();
      }
    }
    Trace(s0, keys, values, states);
  }

  lemma UnknownValue(keys: seq<SV>, values: seq<SV>)
    requires keys == keysUV && values == valuesUV
    ensures StablePairing(map[], keys, values)
         == KnownMap(map["a" := Known("1"), "b" := Known("2"), "c" := Unknown])
  {
    UnknownValueInitial(keys, values);
    UnknownValueLoop(keys, values);
    assert UnknownCount(keys) == 0;
    Outcome(map[], keys, values, Assignment(map["a" := Known("1"), "b" := Known("2"), "c" := Unknown], {"1", "2"}, 0));
  }

  // ---------------------------------------------------------------------------
  // Keys a, b, c and one unknown; values 1, 2, one unknown, 4; no previous
  // result. The unknown value slot stays free, so the unknown key could take
  // it: the whole result is unknown.

  const keysWU: seq<SV> := [Known("a"), Known("b"), Known("c"), Unknown]
  const valuesWU: seq<SV> := [Known("1"), Known("2"), Unknown, Known("4")]

  lemma WholeUnknownA()
    ensures AssignKey(Assignment(map[], {}, 1), Known("a"), valuesWU) == Assignment(map["a" := Known("1")], {"1"}, 1)
  {
    ScanStep(valuesWU, {}, 0);
  }

  lemma WholeUnknownB()
    ensures AssignKey(Assignment(map["a" := Known("1")], {"1"}, 1), Known("b"), valuesWU)
         == Assignment(map["a" := Known("1"), "b" := Known("2")], {"1", "2"}, 1)
  {
    ScanStep(valuesWU, {"1"}, 0);
    ScanStep(valuesWU, {"1"}, 1);
  }

  lemma WholeUnknownC()
    ensures AssignKey(Assignment(map["a" := Known("1"), "b" := Known("2")], {"1", "2"}, 1), Known("c"), valuesWU)
         == Assignment(map["a" := Known("1"), "b" := Known("2"), "c" := Known("4")], {"1", "2", "4"}, 1)
  {
    ScanStep(valuesWU, {"1", "2"}, 0);
    ScanStep(valuesWU, {"1", "2"}, 1);
    ScanStep(valuesWU, {"1", "2"}, 2);
    ScanStep(valuesWU, {"1", "2"}, 3);
  }

  lemma WholeUnknownInitial(keys: seq<SV>, values: seq<SV>)
    requires values == valuesWU
    ensures Initial(map[], KnownSet(keys), KnownSet(values), UnknownCount(values)) == Assignment(map[], {}, 1)
  {
    assert values == values[..3] + [Known("4")];
    assert values[..3] == values[..2] + [Unknown];
    assert UnknownCount(values[..2]) == 0;
    CarryEmpty(KnownSet(keys), KnownSet(values), 1);
  }

  lemma WholeUnknownLoop(keys: seq<SV>, values: seq<SV>)
    requires keys == keysWU && values == valuesWU
    ensures AssignAll(Assignment(map[], {}, 1), keys, values)
         == Assignment(map["a" := Known("1"), "b" := Known("2"), "c" := Known("4")], {"1", "2", "4"}, 1)
  {
    var s0 := Assignment(map[], {}, 1);
    var s1 := Assignment(map["a" := Known("1")], {"1"}, 1);
    var s2 := Assignment(map["a" := Known("1"), "b" := Known("2")], {"1", "2"}, 1);
    var s3 := Assignment(map["a" := Known("1"), "b" := Known("2"), "c" := Known("4")], {"1", "2", "4"}, 1);
    var states := [s0, s1, s2, s3, s3];
    forall i | 0 <= i < |keys|
      ensures AssignKey(states[i], keys[i], values) == states[i + 1]
    {
      if i == 0 {
        WholeUnknownA();
      } else if i == 1 {
        WholeUnknownB();
      } else if i == 2 {
        WholeUnknownC();
      }
    }
    Trace(s0, keys, values, states);
  }

  lemma WholeUnknown(keys: seq<SV>, values: seq<SV>)
    requires keys == keysWU && values == valuesWU
    ensures StablePairing(map[], keys, values) == UnknownMap
  {
    WholeUnknownInitial(keys, values);
    WholeUnknownLoop(keys, values);
    assert keys[3] == Unknown;
    Outcome(map[], keys, values, Assignment(map["a" := Known("1"), "b" := Known("2"), "c" := Known("4")], {"1", "2", "4"}, 1));
  }

  // ---------------------------------------------------------------------------
  // Keys a, b, c and one unknown; values 1, 2, 3; previous a:1, b:3, c:2.
  // Every value is taken and no value is unknown: nothing is left for the
  // unknown key, so the result stays concrete.

  const keysNC: seq<SV> := [Known("a"), Known("b"), Known("c"), Unknown]
  const valuesNC: seq<SV> := [Known("1"), Known("2"), Known("3")]
  const previousNC: map<string, string> := map["a" := "1", "b" := "3", "c" := "2"]

  lemma ThreePairsCarry(ks: set<string>, vs: set<string>)
    requires "a" in ks && "b" in ks && "c" in ks && "1" in vs && "3" in vs && "2" in vs
    ensures Initial(previousNC, ks, vs, 0)
         == Assignment(map["a" := Known("1"), "b" := Known("3"), "c" := Known("2")], {"1", "3", "2"}, 0)
  {
    CarryEmpty(ks, vs, 0);
    CarryKept(map[], ks, vs, 0, "a", "1");
    CarryKept(map["a" := "1"], ks, vs, 0, "b", "3");
    CarryKept(map["a" := "1", "b" := "3"], ks, vs, 0, "c", "2");
    assert {} + {"1"} + {"3"} + {"2"} == {"1", "3", "2"};
  }

  lemma ThreePairsInitial(keys: seq<SV>, values: seq<SV>)
    requires keys == keysNC
    requires Known("1") in values && Known("2") in values && Known("3") in values && Unknown !in values
    ensures Initial(previousNC, KnownSet(keys), KnownSet(values), UnknownCount(values))
         == Assignment(map["a" := Known("1"), "b" := Known("3"), "c" := Known("2")], {"1", "3", "2"}, 0)
  {
    KnownAt(keys, 0);
    KnownAt(keys, 1);
    KnownAt(keys, 2);
    ThreePairsCarry(KnownSet(keys), KnownSet(values));
  }

  /** With all three previous pairs carried forward and no unknown value, the
      key loop changes nothing, whatever the known values are. */
  lemma ThreePairsLoop(keys: seq<SV>, values: seq<SV>)
    requires keys == keysNC
    ensures AssignAll(Assignment(map["a" := Known("1"), "b" := Known("3"), "c" := Known("2")], {"1", "3", "2"}, 0), keys, values)
         == Assignment(map["a" := Known("1"), "b" := Known("3"), "c" := Known("2")], {"1", "3", "2"}, 0)
  {
    var s0 := Assignment(map["a" := Known("1"), "b" := Known("3"), "c" := Known("2")], {"1", "3", "2"}, 0);
    Trace(s0, keys, values, [s0, s0, s0, s0, s0]);
  }

  lemma ThreePairsAssigned(keys: seq<SV>, values: seq<SV>)
    requires keys == keysNC
    requires Known("1") in values && Known("2") in values && Known("3") in values && Unknown !in values
    ensures Assigned(previousNC, keys, values)
         == Assignment(map["a" := Known("1"), "b" := Known("3"), "c" := Known("2")], {"1", "3", "2"}, 0)
  {
    ThreePairsInitial(keys, values);
    ThreePairsLoop(keys, values);
  }

  lemma NoCandidate(keys: seq<SV>, values: seq<SV>)
    requires keys == keysNC && values == valuesNC
    ensures StablePairing(previousNC, keys, values)
         == KnownMap(map["a" := Known("1"), "b" := Known("3"), "c" := Known("2")])
  {
    var s0 := Assignment(map["a" := Known("1"), "b" := Known("3"), "c" := Known("2")], {"1", "3", "2"}, 0);
    assert values[0] == Known("1") && values[1] == Known("2") && values[2] == Known("3");
    ThreePairsAssigned(keys, values);
    PairProps.WholeUnknownExactly(previousNC, keys, values);
    forall i | 0 <= i < |values|
      ensures !Available(values[i], s0.used)
    {
      assert i == 0 || i == 1 || i == 2;
    }
    Outcome(previousNC, keys, values, s0);
  }

  // ---------------------------------------------------------------------------
  // Keys a, b, c and one unknown; values 1, 2, 3, 4; previous a:1, b:3, c:2.
  // The value 4 is left unused and the unknown key could take it: the whole
  // result is unknown.

  const valuesUU: seq<SV> := [Known("1"), Known("2"), Known("3"), Known("4")]

  lemma UnusedValue(keys: seq<SV>, values: seq<SV>)
    requires keys == keysNC && values == valuesUU
    ensures StablePairing(previousNC, keys, values) == UnknownMap
  {
    assert values[0] == Known("1") && values[1] == Known("2") && values[2] == Known("3");
    ThreePairsAssigned(keys, values);
    PairProps.WholeUnknownExactly(previousNC, keys, values);
    assert Available(values[3], {"1", "3", "2"});
    assert keys[3] == Unknown;
  }

  // ---------------------------------------------------------------------------
  // A previous result in which two keys share a value: both pairs are kept,
  // so the result has more entries than there are values. The size bound
  // and injectivity hold only for previous results without shared values,
  // which is what this function itself produces.

  const previousShared: map<string, string> := map["a" := "1", "b" := "1"]

  lemma SharedValueKept(keys: seq<SV>, values: seq<SV>)
    requires keys == [Known("a"), Known("b")] && values == [Known("1")]
    ensures StablePairing(previousShared, keys, values) == KnownMap(map["a" := Known("1"), "b" := Known("1")])
    ensures |StablePairing(previousShared, keys, values).m| > |values|
  {
    var s0 := Assignment(map["a" := Known("1"), "b" := Known("1")], {"1"}, 0);
    var ks, vs := KnownSet(keys), KnownSet(values);
    assert "a" in ks && "b" in ks && "1" in vs;
    assert UnknownCount(values) == 0;
    CarryEmpty(ks, vs, 0);
    CarryKept(map[], ks, vs, 0, "a", "1");
    CarryKept(map["a" := "1"], ks, vs, 0, "b", "1");
    assert {} + {"1"} + {"1"} == {"1"};
    Trace(s0, keys, values, [s0, s0, s0]);
    assert UnknownCount(keys) == 0;
    Outcome(previousShared, keys, values, s0);
    assert |map["a" := Known("1"), "b" := Known("1")]| == 2;
  }
}
