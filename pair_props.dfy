/** Properties of the stable pairing: keys and values of a concrete result
    are current members, previous pairs are kept, no known value is handed out
    twice, the first unused value is chosen, unknown markers are bounded by
    the unknown values, the exact condition for a wholly unknown result, the
    size of the result, and idempotence. */
module PairProps {
  import opened PairSpec

  // ---------------------------------------------------------------------------
  // Vocabulary

  /** The known values a mapping hands out. */
  function KnownValues(m: map<string, SV>): set<string>
  {
    set k | k in m && m[k].Known? :: m[k].s
  }

  /** The keys a mapping marks with an unknown value. */
  function UnknownMarked(m: map<string, SV>): set<string>
  {
    set k | k in m && m[k] == Unknown
  }

  /** No two keys share a known value. */
  ghost predicate InjectiveKnown(m: map<string, SV>)
  {
    forall k1, k2 :: k1 in m && k2 in m && k1 != k2 && m[k1].Known? ==> m[k1] != m[k2]
  }

  /** No two previous keys share a value. */
  ghost predicate Injective(existing: map<string, string>)
  {
    forall k1, k2 :: k1 in existing && k2 in existing && k1 != k2 ==> existing[k1] != existing[k2]
  }

  /** No known string occurs twice: the set semantics of the `keys` and `values` attributes. */
  ghost predicate KnownDistinct(xs: seq<SV>)
  {
    forall i, j :: 0 <= i < j < |xs| && xs[i].Known? ==> xs[i] != xs[j]
  }

  /** The assignment state stays within the current inputs and `used` records
      exactly the known values handed out. */
  ghost predicate WellFormed(st: Assignment, keySet: set<string>, valueSet: set<string>)
  {
    && (forall k :: k in st.mapping ==> k in keySet)
    && (forall k :: k in st.mapping && st.mapping[k].Known? ==> st.mapping[k].s in valueSet)
    && st.used == KnownValues(st.mapping)
  }

  /** No key can be given anything more: every known value is used and no
      unknown-value slot is free. */
  ghost predicate Saturated(st: Assignment, values: seq<SV>)
  {
    st.slots == 0 && forall i :: 0 <= i < |values| ==> !Available(values[i], st.used)
  }

  function Min(a: int, b: int): int
  {
    if a <= b then a else b
  }

  /** A concrete result with every entry known, read back as a previous result. */
  function Concrete(m: map<string, SV>): map<string, string>
  {
    map k | k in m && m[k].Known? :: m[k].s
  }

  // ---------------------------------------------------------------------------
  // Cardinalities

  lemma {:induction false} SubsetSize(a: set<string>, b: set<string>)
    requires a <= b
    ensures |a| <= |b|
    ensures a < b ==> |a| < |b|
  {
    assert b == a + (b - a);
    assert a !! (b - a);
  }

  lemma {:induction false} KnownAndUnknownCount(xs: seq<SV>)
    ensures |KnownSet(xs)| + UnknownCount(xs) <= |xs|
    ensures KnownDistinct(xs) ==> |KnownSet(xs)| + UnknownCount(xs) == |xs|
    decreases |xs|
  {
    if xs != [] {
      var init, last := xs[..|xs| - 1], xs[|xs| - 1];
      KnownAndUnknownCount(init);
      if KnownDistinct(xs) {
        assert KnownDistinct(init) by {
          forall i, j | 0 <= i < j < |init| && init[i].Known? ensures init[i] != init[j] {
            assert init[i] == xs[i] && init[j] == xs[j];
          }
        }
        assert last.Known? ==> last.s !in KnownSet(init);
      }
    }
  }

  /** Adding an entry for a new key hands out its value, if known, or marks
      the key, if not. */
  lemma AddEntry(m: map<string, SV>, k: string, v: SV)
    requires k !in m
    ensures KnownValues(m[k := v]) == KnownValues(m) + (if v.Known? then {v.s} else {})
    ensures UnknownMarked(m[k := v]) == UnknownMarked(m) + (if v == Unknown then {k} else {})
  {
    var m' := m[k := v];
    forall x | x in KnownValues(m') ensures x in KnownValues(m) + (if v.Known? then {v.s} else {}) {
      var k' :| k' in m' && m'[k'].Known? && m'[k'].s == x;
      if k' != k { assert m'[k'] == m[k']; }
    }
    forall x | x in KnownValues(m) ensures x in KnownValues(m') {
      var k' :| k' in m && m[k'].Known? && m[k'].s == x;
      assert m'[k'] == m[k'];
    }
    if v.Known? { assert m'[k].s == v.s; }
  }

  /** A mapping whose known values are pairwise distinct has as many entries
      as it hands out known values plus unknown markers. */
  lemma {:induction false} MappingSize(m: map<string, SV>)
    requires InjectiveKnown(m)
    ensures |m| == |KnownValues(m)| + |UnknownMarked(m)|
    decreases |m|
  {
    if m == map[] {
      assert KnownValues(m) == {};
      assert UnknownMarked(m) == {};
    } else {
      var k :| k in m;
      var m' := m - {k};
      assert m'.Keys == m.Keys - {k};
      MappingSize(m');
      assert m == m'[k := m[k]];
      AddEntry(m', k, m[k]);
      if m[k].Known? {
        assert m[k].s !in KnownValues(m');
      }
    }
  }

  // ---------------------------------------------------------------------------
  // Phases 1 and 2

  lemma InitialWellFormed(existing: map<string, string>, keySet: set<string>, valueSet: set<string>, slots: nat)
    ensures WellFormed(Initial(existing, keySet, valueSet, slots), keySet, valueSet)
    ensures UnknownMarked(Initial(existing, keySet, valueSet, slots).mapping) == {}
    ensures Injective(existing) ==> InjectiveKnown(Initial(existing, keySet, valueSet, slots).mapping)
  {
    var st := Initial(existing, keySet, valueSet, slots);
    forall v | v in st.used ensures v in KnownValues(st.mapping) {
      var k :| k in existing && Keeps(existing, keySet, valueSet, k) && existing[k] == v;
      assert st.mapping[k] == Known(v);
    }
    forall v | v in KnownValues(st.mapping) ensures v in st.used {
      var k :| k in st.mapping && st.mapping[k].Known? && st.mapping[k].s == v;
    }
    assert UnknownMarked(st.mapping) == {} by {
      forall k | k in st.mapping ensures st.mapping[k] != Unknown { }
    }
  }

  // ---------------------------------------------------------------------------
  // Phase 3, one key at a time

  /** First-fit: a known key without an entry takes the first value, in input
      order, that is known and not yet used. */
  lemma AssignKeyFirstFit(st: Assignment, k: string, values: seq<SV>, j: nat)
    requires k !in st.mapping
    requires j < |values| && Available(values[j], st.used)
    requires forall i :: 0 <= i < j ==> !Available(values[i], st.used)
    ensures AssignKey(st, Known(k), values) == st.(mapping := st.mapping[k := values[j]], used := st.used + {values[j].s})
  {
    assert FirstUnused(values, st.used, 0) == Some(j);
  }

  /** A known key without an entry that finds every known value used reserves
      an unknown-value slot if one is free, and otherwise stays without entry. */
  lemma AssignKeyReserves(st: Assignment, k: string, values: seq<SV>)
    requires k !in st.mapping
    requires forall i :: 0 <= i < |values| ==> !Available(values[i], st.used)
    ensures st.slots > 0 ==> AssignKey(st, Known(k), values) == st.(mapping := st.mapping[k := Unknown], slots := st.slots - 1)
    ensures st.slots == 0 ==> AssignKey(st, Known(k), values) == st
  {
    assert FirstUnused(values, st.used, 0).None?;
  }

  /** A key is marked unknown only when no unused known value is left and an
      unknown-value slot is free. */
  lemma AssignKeyUnknownOnlyWhenExhausted(st: Assignment, key: SV, values: seq<SV>)
    requires key.Known? && key.s !in st.mapping
    requires key.s in AssignKey(st, key, values).mapping && AssignKey(st, key, values).mapping[key.s] == Unknown
    ensures st.slots > 0
    ensures forall i :: 0 <= i < |values| ==> !Available(values[i], st.used)
  {
    assert FirstUnused(values, st.used, 0).None?;
  }

  /** One iteration of the loop over `keys` keeps the assignment within the
      inputs, keeps known values distinct, and moves a slot to a marker or
      leaves both alone. */
  lemma AssignKeyInvariant(st: Assignment, key: SV, values: seq<SV>, keySet: set<string>, u: nat)
    requires WellFormed(st, keySet, KnownSet(values))
    requires |UnknownMarked(st.mapping)| + st.slots == u
    requires key.Known? ==> key.s in keySet
    ensures WellFormed(AssignKey(st, key, values), keySet, KnownSet(values))
    ensures InjectiveKnown(st.mapping) ==> InjectiveKnown(AssignKey(st, key, values).mapping)
    ensures |UnknownMarked(AssignKey(st, key, values).mapping)| + AssignKey(st, key, values).slots == u
  {
    var r := AssignKey(st, key, values);
    if key.Known? && key.s !in st.mapping {
      match FirstUnused(values, st.used, 0)
      case Some(j) =>
        assert Known(values[j].s) in values;
        HandOut(st, key.s, values[j].s, keySet, KnownSet(values));
        assert r == st.(mapping := st.mapping[key.s := Known(values[j].s)], used := st.used + {values[j].s});
      case None =>
        if st.slots > 0 {
          ReserveSlot(st, key.s, keySet, KnownSet(values), u);
          assert r == st.(mapping := st.mapping[key.s := Unknown], slots := st.slots - 1);
        } else {
          assert r == st;
        }
    } else {
      assert r == st;
    }
  }

  lemma ReserveSlot(st: Assignment, k: string, keySet: set<string>, valueSet: set<string>, u: nat)
    requires WellFormed(st, keySet, valueSet)
    requires |UnknownMarked(st.mapping)| + st.slots == u
    requires k !in st.mapping && k in keySet && st.slots > 0
    ensures WellFormed(st.(mapping := st.mapping[k := Unknown], slots := st.slots - 1), keySet, valueSet)
    ensures InjectiveKnown(st.mapping) ==> InjectiveKnown(st.mapping[k := Unknown])
    ensures |UnknownMarked(st.mapping[k := Unknown])| + st.slots - 1 == u
  {
    AddEntry(st.mapping, k, Unknown);
  }

  lemma HandOut(st: Assignment, k: string, v: string, keySet: set<string>, valueSet: set<string>)
    requires WellFormed(st, keySet, valueSet)
    requires k !in st.mapping && k in keySet && v in valueSet && v !in st.used
    ensures WellFormed(st.(mapping := st.mapping[k := Known(v)], used := st.used + {v}), keySet, valueSet)
    ensures InjectiveKnown(st.mapping) ==> InjectiveKnown(st.mapping[k := Known(v)])
    ensures UnknownMarked(st.mapping[k := Known(v)]) == UnknownMarked(st.mapping)
  {
    AddEntry(st.mapping, k, Known(v));
    var m := st.mapping[k := Known(v)];
    forall k1, k2 | InjectiveKnown(st.mapping) && k1 in m && k2 in m && k1 != k2 && m[k1].Known? ensures m[k1] != m[k2] {
      if k1 == k || k2 == k {
        var other := if k1 == k then k2 else k1;
        assert m[other] == st.mapping[other];
      }
    }
  }

  // ---------------------------------------------------------------------------
  // Phase 3, the whole loop

  /** The invariant of the loop over `keys`, for a key set that contains
      every known key of `keys`. */
  lemma {:induction false} AssignAllInvariant(st: Assignment, keys: seq<SV>, values: seq<SV>, keySet: set<string>, u: nat)
    requires WellFormed(st, keySet, KnownSet(values))
    requires |UnknownMarked(st.mapping)| + st.slots == u
    requires KnownSet(keys) <= keySet
    ensures WellFormed(AssignAll(st, keys, values), keySet, KnownSet(values))
    ensures InjectiveKnown(st.mapping) ==> InjectiveKnown(AssignAll(st, keys, values).mapping)
    ensures |UnknownMarked(AssignAll(st, keys, values).mapping)| + AssignAll(st, keys, values).slots == u
    decreases |keys|
  {
    if keys != [] {
      var init, last := keys[..|keys| - 1], keys[|keys| - 1];
      assert keys == init + [last];
      AssignAllInvariant(st, init, values, keySet, u);
      AssignKeyInvariant(AssignAll(st, init, values), last, values, keySet, u);
    }
  }

  /** What holds of the state at the end of phase 3 for any inputs. */
  lemma AssignedFacts(existing: map<string, string>, keys: seq<SV>, values: seq<SV>)
    ensures WellFormed(Assigned(existing, keys, values), KnownSet(keys), KnownSet(values))
    ensures |UnknownMarked(Assigned(existing, keys, values).mapping)| + Assigned(existing, keys, values).slots == UnknownCount(values)
    ensures Injective(existing) ==> InjectiveKnown(Assigned(existing, keys, values).mapping)
  {
    var u := UnknownCount(values);
    var st0 := Initial(existing, KnownSet(keys), KnownSet(values), u);
    InitialWellFormed(existing, KnownSet(keys), KnownSet(values), u);
    AssignAllInvariant(st0, keys, values, KnownSet(keys), u);
  }

  /** Every known key of the loop ends with an entry, unless the state ends
      saturated. */
  lemma {:induction false} AssignAllPlacesOrSaturates(st: Assignment, keys: seq<SV>, values: seq<SV>)
    ensures forall i :: 0 <= i < |keys| && keys[i].Known? ==>
      keys[i].s in AssignAll(st, keys, values).mapping || Saturated(AssignAll(st, keys, values), values)
    decreases |keys|
  {
    if keys != [] {
      var init, last := keys[..|keys| - 1], keys[|keys| - 1];
      assert keys == init + [last];
      var p := AssignAll(st, init, values);
      var r := AssignKey(p, last, values);
      assert r == AssignAll(st, keys, values);
      AssignAllPlacesOrSaturates(st, init, values);
      if Saturated(p, values) {
        AssignKeySaturated(p, last, values);
      } else if last.Known? && last.s !in p.mapping {
        assert FirstUnused(values, p.used, 0).Some? || p.slots > 0;
      }
      forall i | 0 <= i < |keys| && keys[i].Known? ensures keys[i].s in r.mapping || Saturated(r, values) {
        if i < |init| {
          assert keys[i] == init[i];
        }
      }
    }
  }

  /** A saturated state is left alone by every key. */
  lemma AssignKeySaturated(st: Assignment, key: SV, values: seq<SV>)
    requires Saturated(st, values)
    ensures AssignKey(st, key, values) == st
  {
    assert FirstUnused(values, st.used, 0).None?;
  }

  lemma {:induction false} AssignAllSaturated(st: Assignment, keys: seq<SV>, values: seq<SV>)
    requires Saturated(st, values)
    ensures AssignAll(st, keys, values) == st
    decreases |keys|
  {
    if keys != [] {
      AssignAllSaturated(st, keys[..|keys| - 1], values);
      AssignKeySaturated(st, keys[|keys| - 1], values);
    }
  }

  /** The loop changes nothing when every known key already has an entry. */
  lemma {:induction false} AssignAllPlaced(st: Assignment, keys: seq<SV>, values: seq<SV>)
    requires forall i :: 0 <= i < |keys| && keys[i].Known? ==> keys[i].s in st.mapping
    ensures AssignAll(st, keys, values) == st
    decreases |keys|
  {
    if keys != [] {
      var init := keys[..|keys| - 1];
      assert forall i :: 0 <= i < |init| ==> init[i] == keys[i];
      AssignAllPlaced(st, init, values);
    }
  }

  // ---------------------------------------------------------------------------
  // Properties of the result

  /** Every value of a concrete result is unknown or a known member of
      `values` (every key is a known member of `keys` by the contract of
      StablePairing). */
  lemma ResultValuesKnown(existing: map<string, string>, keys: seq<SV>, values: seq<SV>)
    ensures StablePairing(existing, keys, values).KnownMap? ==>
      forall k :: k in StablePairing(existing, keys, values).m && StablePairing(existing, keys, values).m[k].Known? ==>
        StablePairing(existing, keys, values).m[k] in values
  {
    AssignedFacts(existing, keys, values);
  }

  /** Stability: a previous pair whose key and value are both still known
      members survives phase 3 unchanged, and so appears in a concrete result. */
  lemma Stability(existing: map<string, string>, keys: seq<SV>, values: seq<SV>, k: string)
    requires k in existing && Known(k) in keys && Known(existing[k]) in values
    ensures k in Assigned(existing, keys, values).mapping && Assigned(existing, keys, values).mapping[k] == Known(existing[k])
    ensures StablePairing(existing, keys, values).KnownMap? ==>
      k in StablePairing(existing, keys, values).m && StablePairing(existing, keys, values).m[k] == Known(existing[k])
  {
    var st0 := Initial(existing, KnownSet(keys), KnownSet(values), UnknownCount(values));
    assert st0.mapping[k] == Known(existing[k]);
  }

  /** Injectivity: if no two previous keys share a value, no two keys of a
      concrete result share a known value. */
  lemma Injectivity(existing: map<string, string>, keys: seq<SV>, values: seq<SV>)
    requires Injective(existing)
    ensures StablePairing(existing, keys, values).KnownMap? ==> InjectiveKnown(StablePairing(existing, keys, values).m)
  {
    AssignedFacts(existing, keys, values);
  }

  /** The keys marked unknown and the unknown-value slots left free together
      account for exactly the unknown elements of `values`; so a concrete
      result has at most that many unknown markers. */
  lemma UnknownMarkers(existing: map<string, string>, keys: seq<SV>, values: seq<SV>)
    ensures |UnknownMarked(Assigned(existing, keys, values).mapping)| + Assigned(existing, keys, values).slots == UnknownCount(values)
    ensures StablePairing(existing, keys, values).KnownMap? ==>
      |UnknownMarked(StablePairing(existing, keys, values).m)| <= UnknownCount(values)
  {
    AssignedFacts(existing, keys, values);
  }

  /** The code's test `len(valueMapping) - len(valuesUsed) > 0` holds exactly
      when some known value is still unused. */
  lemma UnusedValueRemains(used: set<string>, values: seq<SV>)
    requires used <= KnownSet(values)
    ensures |KnownSet(values)| - |used| > 0 <==> exists i :: 0 <= i < |values| && Available(values[i], used)
  {
    var vs := KnownSet(values);
    SubsetSize(used, vs);
    if vs - used == {} {
      assert vs == used;
      forall i | 0 <= i < |values| && values[i].Known? ensures values[i].s in used {
        assert Known(values[i].s) in values;
      }
    } else {
      var v :| v in vs - used;
      UnusedValueAt(used, values, v);
    }
  }

  lemma UnusedValueAt(used: set<string>, values: seq<SV>, v: string)
    requires v in KnownSet(values) && v !in used
    ensures exists i :: 0 <= i < |values| && Available(values[i], used)
  {
    var i :| 0 <= i < |values| && values[i] == Known(v);
    assert Available(values[i], used);
  }

  /** The result is unknown as a whole exactly when some key is unknown and,
      after phase 3, an unknown-value slot is still free or some known value
      is still unused. */
  lemma WholeUnknownExactly(existing: map<string, string>, keys: seq<SV>, values: seq<SV>)
    ensures StablePairing(existing, keys, values).UnknownMap? <==>
      Unknown in keys &&
      (Assigned(existing, keys, values).slots > 0 ||
       exists i :: 0 <= i < |values| && Available(values[i], Assigned(existing, keys, values).used))
  {
    var st := Assigned(existing, keys, values);
    AssignedFacts(existing, keys, values);
    UnusedValueRemains(st.used, values);
  }

  /** Size, keys side: whatever the previous result, the mapping has no more
      entries than there are known keys, and a concrete result no more than
      there are keys. */
  lemma SizeWithinKeys(existing: map<string, string>, keys: seq<SV>, values: seq<SV>)
    ensures |Assigned(existing, keys, values).mapping| <= |KnownSet(keys)|
    ensures StablePairing(existing, keys, values).KnownMap? ==>
      |StablePairing(existing, keys, values).m| <= |keys|
  {
    var st := Assigned(existing, keys, values);
    AssignedFacts(existing, keys, values);
    SubsetSize(st.mapping.Keys, KnownSet(keys));
    KnownAndUnknownCount(keys);
  }

  /** Size, values side: with no two previous keys sharing a value, the
      mapping has no more entries than there are values. */
  lemma SizeBound(existing: map<string, string>, keys: seq<SV>, values: seq<SV>)
    requires Injective(existing)
    ensures |Assigned(existing, keys, values).mapping| <= |KnownSet(values)| + UnknownCount(values)
    ensures StablePairing(existing, keys, values).KnownMap? ==>
      |StablePairing(existing, keys, values).m| <= |values|
  {
    var st := Assigned(existing, keys, values);
    AssignedFacts(existing, keys, values);
    MappingSize(st.mapping);
    SubsetSize(st.used, KnownSet(values));
    KnownAndUnknownCount(values);
  }

  /** Size, exactly: with no known string repeated in either input and no two
      previous keys sharing a value, a concrete result has min(|keys|, |values|)
      entries, and without unknown keys the result is always concrete. */
  lemma SizeExact(existing: map<string, string>, keys: seq<SV>, values: seq<SV>)
    requires Injective(existing) && KnownDistinct(keys) && KnownDistinct(values)
    ensures Unknown !in keys ==> StablePairing(existing, keys, values).KnownMap?
    ensures StablePairing(existing, keys, values).KnownMap? ==>
      |StablePairing(existing, keys, values).m| == Min(|keys|, |values|)
  {
    if Unknown !in keys {
      SizeExactKnownKeys(existing, keys, values);
    } else if StablePairing(existing, keys, values).KnownMap? {
      SizeExactUnknownKey(existing, keys, values);
    }
  }

  /** A concrete result despite an unknown key: nothing was left to hand out,
      so every value, known or unknown, went to exactly one key. */
  lemma SizeExactUnknownKey(existing: map<string, string>, keys: seq<SV>, values: seq<SV>)
    requires Injective(existing) && KnownDistinct(keys) && KnownDistinct(values)
    requires Unknown in keys && StablePairing(existing, keys, values).KnownMap?
    ensures |StablePairing(existing, keys, values).m| == Min(|keys|, |values|)
  {
    var st := Assigned(existing, keys, values);
    AssignedFacts(existing, keys, values);
    SizeWithinKeys(existing, keys, values);
    KnownAndUnknownCount(keys);
    KnownAndUnknownCount(values);
    assert st.slots == 0 && |KnownSet(values)| <= |st.used|;
    ExhaustedSize(st, KnownSet(keys), values);
  }

  /** A well-formed state with no slot left and every known value used has
      one entry per element of `values`. */
  lemma ExhaustedSize(st: Assignment, keySet: set<string>, values: seq<SV>)
    requires WellFormed(st, keySet, KnownSet(values)) && InjectiveKnown(st.mapping)
    requires |UnknownMarked(st.mapping)| + st.slots == UnknownCount(values)
    requires st.slots == 0 && |KnownSet(values)| <= |st.used|
    ensures |st.mapping| == |KnownSet(values)| + UnknownCount(values)
  {
    SubsetSize(st.used, KnownSet(values));
    MappingSize(st.mapping);
  }

  /** With every key known the result is concrete and has min(|keys|, |values|)
      entries. */
  lemma SizeExactKnownKeys(existing: map<string, string>, keys: seq<SV>, values: seq<SV>)
    requires Injective(existing) && Unknown !in keys && KnownDistinct(keys) && KnownDistinct(values)
    ensures StablePairing(existing, keys, values).KnownMap?
    ensures |StablePairing(existing, keys, values).m| == Min(|keys|, |values|)
  {
    var st := Assigned(existing, keys, values);
    var m := st.mapping;
    AssignedFacts(existing, keys, values);
    SizeWithinKeys(existing, keys, values);
    SizeBound(existing, keys, values);
    KnownAndUnknownCount(keys);
    KnownAndUnknownCount(values);
    AssignAllPlacesOrSaturates(Initial(existing, KnownSet(keys), KnownSet(values), UnknownCount(values)), keys, values);
    MappingSize(m);
    if Saturated(st, values) {
      SaturatedUsesAll(st, values);
    } else {
      AllKeysPlaced(m, keys);
    }
  }

  lemma SaturatedUsesAll(st: Assignment, values: seq<SV>)
    requires st.used <= KnownSet(values) && Saturated(st, values)
    ensures st.used == KnownSet(values)
  {
    forall v | v in KnownSet(values) ensures v in st.used {
      var i :| 0 <= i < |values| && values[i] == Known(v);
      assert !Available(values[i], st.used);
    }
  }

  lemma AllKeysPlaced(m: map<string, SV>, keys: seq<SV>)
    requires m.Keys <= KnownSet(keys)
    requires forall i :: 0 <= i < |keys| && keys[i].Known? ==> keys[i].s in m
    ensures m.Keys == KnownSet(keys)
  {
    forall k | k in KnownSet(keys) ensures k in m {
      var i :| 0 <= i < |keys| && keys[i] == Known(k);
    }
  }

  /** Idempotence: a concrete result with every entry known, fed back as the
      previous result with the same keys and values, comes out unchanged. */
  lemma Idempotence(existing: map<string, string>, keys: seq<SV>, values: seq<SV>)
    requires StablePairing(existing, keys, values).KnownMap?
    requires forall k :: k in StablePairing(existing, keys, values).m ==> StablePairing(existing, keys, values).m[k].Known?
    ensures StablePairing(Concrete(StablePairing(existing, keys, values).m), keys, values) == StablePairing(existing, keys, values)
  {
    var ks, vs, u := KnownSet(keys), KnownSet(values), UnknownCount(values);
    var st := Assigned(existing, keys, values);
    var m := st.mapping;
    AssignedFacts(existing, keys, values);
    assert UnknownMarked(m) == {};
    var again := Initial(Concrete(m), ks, vs, u);
    assert again.mapping == m;
    assert again.used == st.used by {
      forall v | v in st.used ensures v in again.used {
        var k :| k in m && m[k].Known? && m[k].s == v;
        assert Keeps(Concrete(m), ks, vs, k);
      }
    }
    assert again == st;
    AssignAllPlacesOrSaturates(Initial(existing, ks, vs, u), keys, values);
    if Saturated(st, values) {
      AssignAllSaturated(st, keys, values);
    } else {
      AssignAllPlaced(st, keys, values);
    }
  }
}
