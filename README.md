# Stable pairing of keys to values

A model of `pairStable`, the function at the heart of the `stablepairer_pair`
resource of the `stablepairer` provider. Given the previous `result` map and
the current `keys` and `values` sets, it computes a new map from keys to
values that changes as little as possible:

1. **Classify.** The known keys and known values are collected as sets. The
   unknown elements of each input are counted.
2. **Carry forward.** Every previous pair whose key is still a known key and
   whose value is still a known value is kept. Its value is marked used.
3. **Assign.** Each known key without an entry, in input order, takes the
   first known value in input order that is not used yet. If none is left
   and an unknown value is still free, the key is mapped to an unknown value
   and that slot is taken.
4. **Decide.** If some key is unknown and anything could still be handed
   out (a free unknown-value slot or an unused known value), the whole result
   is unknown. Otherwise it is the concrete map, whose entries may
   individually be unknown.

Elements are `SV` (`Known(s)` or `Unknown`). The result is `Res`
(`UnknownMap` or `KnownMap(m)`).

The project has four modules:

- `PairSpec` (pair_spec.dfy) states the four phases as functions.
  `StablePairing` is the whole function.
- `Provider` (provider.dfy) is the Go code's own loops as methods. Each
  method is proved to compute its phase of `PairSpec`. `PairStable` runs
  them in order and returns exactly `StablePairing`.
- `PairProps` (pair_props.dfy) proves what the function promises:
  - stability of surviving pairs;
  - first-fit assignment;
  - when unknown markers appear;
  - exactly when the whole result is unknown;
  - injectivity;
  - the size bounds and the exact size `min(|keys|, |values|)`;
  - idempotence.
- `PairExamples` (pair_examples.dfy) works six cases of the Go unit-test table
  through the specification. It also shows one input that explains why the
  size bound needs a previous result without shared values.

## Model

| member | source | states |
|---|---|---|
| PairSpec.KnownSet | internal/provider/resource_pair.go:194-208 | a string is in `keyMapping`/`valueMapping` exactly when the input holds it as a known element |
| PairSpec.UnknownCount | internal/provider/resource_pair.go:194-208 | `keysUnknown`/`valuesUnknown` is at most the input's length and is zero exactly when no element is unknown |
| PairSpec.ClassifyStep | internal/provider/resource_pair.go:194-208 | one more element of the input adds its string to the known set, or adds one to the unknown count, and nothing else |
| Provider.Classify | internal/provider/resource_pair.go:194-208 | the classifying loop yields exactly the known set and the unknown count of its input |
| PairSpec.Initial | internal/provider/resource_pair.go:215-229 | no contract: the specification of phase 2, the previous pairs whose key and value are still known members with their values as `valuesUsed`; `Provider.CarryForward` is proved equal to it and `PairProps.InitialWellFormed`, `PairProps.Stability` and `PairProps.Idempotence` are stated about it |
| Provider.CarryForward | internal/provider/resource_pair.go:215-229 | whatever order the previous pairs are visited in, `finalMapping` holds exactly the previous pairs whose key and value are still known members, and `valuesUsed` holds exactly their values |
| PairSpec.FirstUnused | internal/provider/resource_pair.go:241-252 | the scan returns an index of a known, unused value, and no earlier index holds one; it returns none only when no index from the start does |
| PairSpec.AssignKey | internal/provider/resource_pair.go:232-261 | one iteration never changes or removes an existing entry, adds at most the current key, never un-uses a value and never frees a slot |
| PairSpec.AssignAll | internal/provider/resource_pair.go:232-262 | the key loop keeps every entry it starts with, adds only known keys of `keys`, only grows `valuesUsed` and only shrinks `valuesUnknown` |
| Provider.AssignKeys | internal/provider/resource_pair.go:232-262 | the nested loops with their `continue`s and `break` compute exactly `AssignAll` |
| PairSpec.Assigned | internal/provider/resource_pair.go:187-262 | no contract: the state at the end of phase 3, `AssignAll` run from `Initial`; `Provider.PairStable` reaches it through `Provider.CarryForward` and `Provider.AssignKeys`, and `PairProps.AssignedFacts`, `PairProps.Stability` and the size lemmas are stated about it |
| PairSpec.StablePairing | internal/provider/resource_pair.go:187-272 | every key of a concrete result is a known key, and without unknown keys the result is always concrete |
| Provider.PairStable | internal/provider/resource_pair.go:187-272 | the four phases in sequence return exactly `StablePairing` |
| PairProps.InitialWellFormed | internal/provider/resource_pair.go:218-229 | after carrying forward, every entry's key is a known key and its value a known value, `valuesUsed` is exactly the set of values in use, no entry is unknown, and if no two previous keys shared a value none share one now |
| PairProps.AssignKeyFirstFit | internal/provider/resource_pair.go:241-252 | a key without an entry takes the first available known value in input order and marks it used |
| PairProps.AssignKeyReserves | internal/provider/resource_pair.go:254-260 | when no known value is available, a key without an entry is marked unknown and takes a slot if one is free, and stays unassigned otherwise |
| PairProps.AssignKeyUnknownOnlyWhenExhausted | internal/provider/resource_pair.go:254-260 | a key is marked unknown only when a slot was free and every known value was already used |
| PairProps.AssignKeyInvariant | internal/provider/resource_pair.go:232-262 | one iteration keeps the state well formed and keeps the count of unknown markers plus free slots, and if no two keys shared a known value none do afterwards |
| PairProps.AssignAllInvariant | internal/provider/resource_pair.go:232-262 | the same three invariants hold across the whole key loop |
| PairProps.AssignedFacts | internal/provider/resource_pair.go:187-262 | at the end of phase 3 the state is well formed, unknown markers plus free slots equal the number of unknown values, and shared values appear only if the previous result had them |
| PairProps.AssignAllPlacesOrSaturates | internal/provider/resource_pair.go:232-262 | after the loop every known key has an entry, unless no slot is free and no known value is left |
| PairProps.AssignAllSaturated | internal/provider/resource_pair.go:232-262 | once nothing is left to hand out, the key loop changes nothing |
| PairProps.AssignAllPlaced | internal/provider/resource_pair.go:232-262 | when every known key already has an entry, the key loop changes nothing |
| PairProps.ResultValuesKnown | internal/provider/resource_pair.go:227-251 | every known value of a concrete result is one of the current values |
| PairProps.Stability | internal/provider/resource_pair.go:218-229 | a previous pair whose key and value are both still present keeps its value and appears unchanged in a concrete result |
| PairProps.Injectivity | internal/provider/resource_pair.go:245-251 | if no two previous keys shared a value, no two keys of a concrete result share a known value |
| PairProps.UnknownMarkers | internal/provider/resource_pair.go:254-260 | unknown markers plus free slots equal the number of unknown values, so a concrete result has at most that many unknown entries |
| PairProps.UnusedValueRemains | internal/provider/resource_pair.go:267 | the count test `len(valueMapping) - len(valuesUsed) > 0` holds exactly when some known value is still unused |
| PairProps.WholeUnknownExactly | internal/provider/resource_pair.go:264-269 | the result is unknown as a whole exactly when some key is unknown and, after phase 3, a slot is free or a known value is unused |
| PairProps.SizeWithinKeys | internal/provider/resource_pair.go:118 | whatever the previous result, the mapping has no more entries than known keys, and a concrete result no more than `keys` has elements |
| PairProps.SizeBound | internal/provider/resource_pair.go:118 | with no shared values in the previous result, a concrete result has no more entries than `values` has elements |
| PairProps.SizeExact | internal/provider/resource_pair.go:118 | with distinct inputs and no shared previous values, every concrete result, including one reached with an unknown key, has exactly `min(|keys|, |values|)` entries; without unknown keys the result is always concrete |
| PairProps.Idempotence | internal/provider/resource_pair.go:218-262 | feeding a concrete, fully known result back in as the previous result with the same inputs returns it unchanged |
| PairExamples.Trace | internal/provider/resource_pair.go:232-262 | the key loop is `AssignKey` applied key by key: listing the states between keys gives the final state |
| PairExamples.AdditionRemoval | internal/provider/resource_pair_test.go:337-359 | the pair of the removed key is dropped and the new key takes the first unused value, 1 |
| PairExamples.OverMax | internal/provider/resource_pair_test.go:388-414 | the new key e takes the value the removed key d gave up, and f, with nothing left, gets no entry |
| PairExamples.UnknownValue | internal/provider/resource_pair_test.go:459-476 | with two known values and one unknown value, the third key is marked unknown |
| PairExamples.WholeUnknown | internal/provider/resource_pair_test.go:477-492 | an unknown key with a free unknown-value slot makes the whole result unknown |
| PairExamples.UnusedValue | internal/provider/resource_pair_test.go:537-556 | an unknown key with an unused known value makes the whole result unknown |
| PairExamples.NoCandidate | internal/provider/resource_pair_test.go:557-579 | an unknown key with nothing left to take leaves the result concrete |
| PairExamples.SharedValueKept | internal/provider/resource_pair.go:218-229 | a previous result in which two keys share a value is carried forward as is, so the result has more entries than there are values |

## Left out

- The Terraform framework glue is not modelled. This covers `Create`, `Read`, `Update`, `Delete`, `ModifyPlan`, `Metadata`, `Schema` and `modify` in resource_pair.go, and provider.go. These only move values between the plan, the state and `pairStable`, and they depend on the plugin framework's types and diagnostics.
- Null elements of `keys` or `values` are not modelled. An element is either known or unknown.
- Go's random map iteration order in phase 2 is modelled as an arbitrary choice (`:|`) of the next previous pair. The outcome is proved the same for every order.
- Go's `map[string]bool` sets and `map[string]attr.Value` are modelled as Dafny `set<string>` and `map<string, SV>`.
- The Go loop over `keys` runs over a slice built from a Terraform set. The model takes the order of that slice as given.
- Lengths and counters are unbounded `nat`s. Go's `int` cannot overflow at any realistic set size.
- PairProps.SizeBound: the bound `|result| <= |values|` is proved only for previous results in which no two keys share a value. `PairExamples.SharedValueKept` shows it fails otherwise. `pairStable` never produces such a result itself, so the bound holds whenever the previous result is one of its own outputs. The keys side, `PairProps.SizeWithinKeys`, needs no such condition.
- PairProps.SizeExact: the exact size `min(|keys|, |values|)` that the schema promises is proved under the same condition on the previous result, and for inputs without repeated known strings, as Terraform sets are.
- Six cases of the unit-test table are worked through: `PairExamples.AdditionRemoval`, `OverMax`, `UnknownValue`, `WholeUnknown`, `UnusedValue` and `NoCandidate`. The other cases are covered by the general lemmas rather than worked one by one. For example, the case that ends with a free unknown-value slot and no unknown key (resource_pair_test.go:494-516) is covered by the contract of `PairSpec.StablePairing`: without unknown keys the result is concrete.
