/** Elements, results and the functional specification of the stable pairing
    that `pairStable` computes (internal/provider/resource_pair.go).

    The specification follows the four phases of the Go function: classify the
    inputs, carry forward the still-valid previous pairs, assign values to the
    remaining known keys in input order, and decide whether the whole result
    must be reported as unknown. */
module PairSpec {

  /** An element of the `keys` or `values` set attribute: a known string, or an
      element whose string the host will only supply later. */
  datatype SV = Known(s: string) | Unknown

  /** The `result` attribute: unknown as a whole, or a concrete map whose
      entries may individually be unknown. */
  datatype Res = UnknownMap | KnownMap(m: map<string, SV>)

  datatype Option<T> = None | Some(value: T)

  /** The working state of the assignment phase: `finalMapping`, the set
      `valuesUsed`, and `valuesUnknown`, the unknown-value slots still free. */
  datatype Assignment = Assignment(mapping: map<string, SV>, used: set<string>, slots: nat)

  // ---------------------------------------------------------------------------
  // Phase 1: classify

  /** The known strings among `xs` (`keyMapping` / `valueMapping`). */
  function KnownSet(xs: seq<SV>): (r: set<string>)
    ensures forall s :: s in r <==> Known(s) in xs
    decreases |xs|
  {
    if xs == [] then {}
    else
      var init, last := xs[..|xs| - 1], xs[|xs| - 1];
      assert xs == init + [last];
      KnownSet(init) + (if last.Known? then {last.s} else {})
  }

  /** The number of unknown elements of `xs` (`keysUnknown` / `valuesUnknown`). */
  function UnknownCount(xs: seq<SV>): (r: nat)
    ensures r <= |xs|
    ensures r == 0 <==> Unknown !in xs
    decreases |xs|
  {
    if xs == [] then 0
    else
      var init, last := xs[..|xs| - 1], xs[|xs| - 1];
      assert xs == init + [last];
      UnknownCount(init) + (if last.Unknown? then 1 else 0)
  }

  /** Classifying one more element: how the known set and the unknown count
      of a prefix grow. */
  lemma ClassifyStep(xs: seq<SV>, i: nat)
    requires i < |xs|
    ensures xs[i].Unknown? ==> KnownSet(xs[..i + 1]) == KnownSet(xs[..i]) && UnknownCount(xs[..i + 1]) == UnknownCount(xs[..i]) + 1
    ensures xs[i].Known? ==> KnownSet(xs[..i + 1]) == KnownSet(xs[..i]) + {xs[i].s} && UnknownCount(xs[..i + 1]) == UnknownCount(xs[..i])
  {
    assert xs[..i + 1][..i] == xs[..i];
  }

  // ---------------------------------------------------------------------------
  // Phase 2: carry forward

  /** A previous pair survives when its key is still a known key and its value
      is still a known value. */
  predicate Keeps(existing: map<string, string>, keySet: set<string>, valueSet: set<string>, k: string)
  {
    k in existing && k in keySet && existing[k] in valueSet
  }

  /** The state after carrying forward: the surviving previous pairs, the
      values they use, and one free slot per unknown value. */
  function Initial(existing: map<string, string>, keySet: set<string>, valueSet: set<string>, slots: nat): Assignment
  {
    Assignment(
      map k | k in existing && Keeps(existing, keySet, valueSet, k) :: Known(existing[k]),
      set k | k in existing && Keeps(existing, keySet, valueSet, k) :: existing[k],
      slots)
  }

  // ---------------------------------------------------------------------------
  // Phase 3: assign

  /** A value the scan may hand out: known and not yet used. */
  predicate Available(v: SV, used: set<string>)
  {
    v.Known? && v.s !in used
  }

  /** The index of the first available value at or after `from`, in input order. */
  function FirstUnused(values: seq<SV>, used: set<string>, from: nat): (r: Option<nat>)
    requires from <= |values|
    ensures r.Some? ==> from <= r.value < |values| && Available(values[r.value], used)
    ensures forall i :: from <= i < |values| && (r.None? || i < r.value) ==> !Available(values[i], used)
    decreases |values| - from
  {
    if from == |values| then None
    else if Available(values[from], used) then Some(from)
    else FirstUnused(values, used, from + 1)
  }

  /** One iteration of the loop over `keys`: an unknown key or a key that
      already has an entry is skipped; otherwise the key takes the first
      available value, or else reserves an unknown-value slot if one is free. */
  function AssignKey(st: Assignment, key: SV, values: seq<SV>): (r: Assignment)
    ensures forall k :: k in st.mapping ==> k in r.mapping && r.mapping[k] == st.mapping[k]
    ensures forall k :: k in r.mapping ==> k in st.mapping || key == Known(k)
    ensures st.used <= r.used && r.slots <= st.slots
  {
    if key.Unknown? || key.s in st.mapping then st
    else
      match FirstUnused(values, st.used, 0)
      case Some(j) =>
        st.(mapping := st.mapping[key.s := values[j]], used := st.used + {values[j].s})
      case None =>
        if st.slots > 0 then st.(mapping := st.mapping[key.s := Unknown], slots := st.slots - 1)
        else st
  }

  /** The loop over `keys`, run on `st`. */
  function AssignAll(st: Assignment, keys: seq<SV>, values: seq<SV>): (r: Assignment)
    ensures forall k :: k in st.mapping ==> k in r.mapping && r.mapping[k] == st.mapping[k]
    ensures forall k :: k in r.mapping ==> k in st.mapping || Known(k) in keys
    ensures st.used <= r.used && r.slots <= st.slots
    decreases |keys|
  {
    if keys == [] then st
    else
      var init, last := keys[..|keys| - 1], keys[|keys| - 1];
      assert keys == init + [last];
      AssignKey(AssignAll(st, init, values), last, values)
  }

  /** The state at the end of phase 3. */
  function Assigned(existing: map<string, string>, keys: seq<SV>, values: seq<SV>): Assignment
  {
    AssignAll(Initial(existing, KnownSet(keys), KnownSet(values), UnknownCount(values)), keys, values)
  }

  // ---------------------------------------------------------------------------
  // Phase 4: the result

  /** What `pairStable` returns for a previous result and the current keys and values. */
  function StablePairing(existing: map<string, string>, keys: seq<SV>, values: seq<SV>): (r: Res)
    ensures r.KnownMap? ==> forall k :: k in r.m ==> Known(k) in keys
    ensures Unknown !in keys ==> r.KnownMap?
  {
    var st := Assigned(existing, keys, values);
    if UnknownCount(keys) > 0 && (st.slots > 0 || |KnownSet(values)| - |st.used| > 0) then UnknownMap
    else KnownMap(st.mapping)
  }
}
