# OR-Set map CRDT

A model of a replicated key/value map, an Observed-Remove Set map (OR-Set map),
and of the closed scalar union it stores.

Each local write becomes a **mutation**. A mutation is a list of Add or Remove
operations together with the hashes of its **parent** mutations, the ones it
was written after. The mutations form a causal log: a directed graph whose
vertices are the mutations, keyed by their hash, and whose edges run from each
mutation to each of its parents.

The map keeps a materialized view of that log:
- every key holds **slots**, one per **tag**;
- an Add makes its tags' slots hold its value, live;
- a Remove **tombstones** only the tags it observed, so a concurrent Add it did not see survives;
- the visible value of a key is the live slot with the greatest tag sequence.

Appending to the log sorts it topologically. It then applies every logged
mutation not applied yet, parents first, each at most once (judged by its
hash). Replicas exchange their logs with `ExportLog`/`ImportLog`.

Modules:

- `Scalar` (`scalar.dfy`): the six-variant value union, its type constants, its typed accessors, and `Value`.
- `Merge` (`merge.dfy`): slots, tags, operations, and how one operation changes the view. Also `Resolve`, and the merge rule's properties: idempotence, add-wins, order sensitivity, and which pairs commute.
- `Graph` (`graph.dfy`): the part of the graph store the map uses. This is vertex and edge insertion and a topological sort, given as Kahn's algorithm, which fails exactly on a cycle.
- `ORSet` (`orset_map.dfy`): the map as a class.
  - Fields: the counter, the applied hashes, the view, and the log (vertex map and edge set).
  - Operations: `getLeaves`, `appendMutation`, `applyMutation`, `gerOrderedMutations`, `Add`, `Remove`, `Get`, `Contains`, `List`, `ExportLog` and `ImportLog`.
  - A ghost `history` records the applied mutations in order. The invariant `Valid` says the view is the replay of that history, each hash applied once. It also says that once the log has no cycle, every logged mutation has been applied.
- `Scenarios` (`scenarios.dfy`): the scenarios of the map's tests, run on a map whose hash is the readable test hash, plus replication by log.
- `DirectApply` (`direct_apply.dfy`): the loop that applies mutations straight to a new map, and the merge cases it is expected to produce.

The map's hash function (JSON plus BLAKE3) is a parameter of the constructor.
The source itself swaps it for a test hash.

The operation type is an integer in the source. Codes other than Add (0) and Remove
(1) are one variant, `OtherOperation`, holding the code, which cannot be 0 or 1. Only an imported mutation
can carry one. Applying it changes nothing, although the mutation's hash is
recorded as applied.

### Cycles in the log

The graph is created with the library's acyclic trait, but without the option
that refuses edges closing a cycle (crdt/orset_map.go:106-109). `appendMutation`
also discards every vertex and edge insertion error (crdt/orset_map.go:143-149).
Nothing therefore keeps the log acyclic: an edge is recorded whenever both
endpoints are vertices.

A cycle surfaces only as a failing topological sort. Then `appendMutation`
applies nothing: not the new mutation, and nothing logged later either.
`AppendMutation` states this case. `Commit`, `Add` and `Remove` state it for
local writes, and `Graph.SortableWithoutVertex` shows that appending never
removes a cycle.

## Model

| member | source | states |
|---|---|---|
| Scalar.Code | scalar/scalar.go:5-12 | the six type constants are the integers 0..5 |
| Scalar.TypeOfCode | scalar/scalar.go:5-12 | exactly 0..5 name a type constant, and naming inverts `Code` |
| Scalar.CodeInjective | scalar/scalar.go:5-12 | distinct type constants have distinct values |
| Scalar.Scalar.String | scalar/scalar.go:60-65 | `(payload, true)` exactly when the scalar holds a string, and otherwise `("", false)` |
| Scalar.Scalar.Int64 | scalar/scalar.go:67-72 | `(payload, true)` exactly for an int64 scalar, and otherwise `(0, false)` |
| Scalar.Scalar.Uint64 | scalar/scalar.go:74-79 | `(payload, true)` exactly for a uint64 scalar, and otherwise `(0, false)` |
| Scalar.Scalar.Float64 | scalar/scalar.go:81-86 | `(payload, true)` exactly for a float64 scalar, and otherwise `(+0.0, false)` |
| Scalar.Scalar.ByteSlice | scalar/scalar.go:88-93 | `(payload, true)` exactly for a byte-slice scalar, and otherwise `(empty, false)` |
| Scalar.Scalar.Bool | scalar/scalar.go:95-100 | `(payload, true)` exactly for a bool scalar, and otherwise `(false, false)` |
| Scalar.Scalar.Type | scalar/scalar.go:41-58 | the type constant of the payload's type; `TypeOfNew` states it for each payload type |
| Scalar.Zero | scalar/scalar.go:33-35 | the zero value of a type is a scalar of that type |
| Scalar.Value | scalar/scalar.go:26-39 | returns true and the scalar exactly when the target type is the stored type; otherwise false and the target type's zero; the result always has the target type |
| Scalar.AccessorsOfNew | scalar/scalar.go:60-100 | exactly the accessor of the stored type succeeds, returning the payload the scalar was built from |
| Scalar.TypeOfNew | scalar/scalar.go:41-58 | `Type()` of a scalar built from each payload type is that type's constant, 0..5 |
| Scalar.ValueRoundTrip | scalar/scalar_test.go:81-124 | reading a scalar back with its own type returns it unchanged |
| Merge.AddTags | crdt/orset_map.go:187-191 | the slots of the key after an Add: every carried tag gets a slot holding the value, live; the other slots are kept |
| Merge.TombstoneTags | crdt/orset_map.go:193-197 | the slots of the key after a Remove: the same slots, each keeping its value, tombstoned exactly when already tombstoned or carried |
| Merge.ApplyOperation | crdt/orset_map.go:176-200 | one operation changes only its own key; an Add adds that key when missing, any other operation adds no key, and an operation of an unknown type changes nothing |
| Merge.NewMutation | crdt/orset_map.go:113-117 | the mutation holds the given operations, with no parents and no owner |
| Merge.Priority | crdt/orset_map.go:90-91 | `int(tag.Sequence)` on 64 bits: the priority is positive exactly for sequences in 1..2^63-1, and equals the sequence when it is non-negative |
| Merge.PriorityInjective | crdt/orset_map.go:89-93 | distinct tags have distinct priorities, so no two slots tie |
| Merge.WinnerExists | crdt/orset_map.go:86-97 | a slot map with a live slot of positive priority has a winner |
| Merge.WinnerUnique | crdt/orset_map.go:86-97 | the winner is unique |
| Merge.Winner | crdt/orset_map.go:86-97 | there is a winning tag exactly when some live slot has positive priority, and it is the greatest live one |
| Merge.Resolve | crdt/orset_map.go:86-97 | the loop over slots in any order returns the value of the live slot of greatest positive priority, or nil |
| Merge.ResolvedIsLive | crdt/orset_map.go:315-328 | a key whose value resolves to non-nil has a live slot, so every listed key is contained |
| Merge.LiveButUnresolved | crdt/orset_map.go:87-91 | a live slot with sequence 0 leaves the key contained but resolving to nil |
| Merge.GreatestSequenceWins | crdt/orset_map.go:86-97 | the live slot whose sequence is greatest, and below 2^63, is the visible one |
| Merge.AddEffect | crdt/orset_map.go:176-191 | an Add creates the key if it is missing, even for no tags; it makes every carried tag hold its value live, overwriting or reviving the slot; other keys and other tags are unchanged |
| Merge.RemoveEffect | crdt/orset_map.go:192-199 | a Remove tombstones only carried tags that already have a slot; it creates no key, deletes no slot, keeps every value and clears no tombstone |
| Merge.OperationIdempotent | crdt/orset_map.go:176-199 | applying an operation twice equals applying it once |
| Merge.AddThenRemove | crdt/orset_map.go:176-199 | an Add of a tag followed by a Remove of that tag leaves the slot tombstoned |
| Merge.RemoveThenAdd | crdt/orset_map.go:176-199 | the reverse order leaves the slot live, so operations on one tag do not commute |
| Merge.AddMakesLive | crdt/orset_map.go:187-191 | an Add with a tag leaves its key contained |
| Merge.NewestAddWins | crdt/orset_map.go:239-247 | an Add whose single tag is newer than every tag recorded under its key becomes the key's value |
| Merge.RemoveAllRecorded | crdt/orset_map.go:277-288 | a Remove carrying every recorded tag of its key leaves the key not contained |
| Merge.DisjointAddsCommute | crdt/orset_map.go:176-191 | Adds to different keys, or with disjoint tags, commute |
| Merge.RemovesCommute | crdt/orset_map.go:192-199 | Removes commute |
| Graph.Unreferenced | crdt/orset_map.go:125-133 | the leaves are the vertices that no vertex points to |
| Graph.TopologicalSort | crdt/orset_map.go:205-208 | fails exactly when no topological order exists, and otherwise returns one: each vertex once, every edge's source before its target |
| Graph.BlockedNotSortable | crdt/orset_map.go:205-208 | a non-empty set of vertices, each with a predecessor in the set, rules out every topological order |
| Graph.AddEdge | crdt/orset_map.go:146-148 | the edge is recorded exactly when both endpoints are vertices, and nothing else changes |
| Graph.SortableWithoutVertex | crdt/orset_map.go:143-155 | a graph that is sortable after gaining a vertex and some edges was sortable before: appending never removes a cycle |
| Graph.ReverseOfTopological | crdt/orset_map.go:219-222 | a topological order read backwards puts every parent before its children |
| Graph.ChainLeaves | crdt/orset_map.go:119-141 | a chain of mutations has exactly one leaf, its last |
| Graph.ChainUnique | crdt/orset_map.go:204-225 | a chain has exactly one parents-first order: itself |
| ORSet.AddVertex | crdt/orset_map.go:145 | the vertex set gains the hash; a mutation already stored under it is kept |
| ORSet.AddEdges | crdt/orset_map.go:146-148 | only edges from the mutation to a parent that is a vertex are added, and edges stay between vertices |
| ORSet.LoggedGrows | crdt/orset_map.go:144-149 | logging adds exactly the hashes of the logged mutations; it replaces no stored mutation, drops no edge, and keeps mutations under their own hash |
| ORSet.MergedStep | crdt/orset_map.go:169-174 | recording a new hash and applying its mutation keeps the view the replay of the history |
| ORSet.FreshAppendSortable | crdt/orset_map.go:143-149 | logging a mutation with a new hash that is not its own parent keeps an acyclic log acyclic |
| ORSet.FreshLeaf | crdt/orset_map.go:233-251 | a new mutation whose parents are the current leaves becomes the only leaf |
| ORSet.Inc | crdt/orset_map.go:231 | `sequence++` on a uint64 adds one, wrapping to 0 after 2^64-1 |
| ORSet.LinearOrder | crdt/orset_map.go:204-225 | a log written only locally has no cycle, and its only parents-first order is the order of application |
| ORSet.LinearLeaves | crdt/orset_map.go:119-141 | a log written only locally has at most one leaf, the last applied mutation |
| ORSet.LinearFresh | crdt/orset_map.go:337-346 | such a log can be imported into a new map: distinct hashes, and no mutation is its own parent |
| ORSet.LinearAppend | crdt/orset_map.go:227-253 | a local write with a new hash keeps the log linear |
| ORSet.ReplicateByLog | crdt/orset_map_test.go:152-166 | exporting a locally written map and importing the log into a new one yields the same history and view, hence the same `Get`, `Contains` and `List` |
| ORSet.ReversedCopy | crdt/orset_map.go:219-222 | the mutations come out in reverse order |
| ORSet.Reverse | crdt/orset_map.go:220-222 | swapping inwards leaves the array reversed |
| ORSet.ORSetMap.constructor | crdt/orset_map.go:99-111 | a new map: counter 0, nothing applied, empty view and log, valid |
| ORSet.ORSetMap.ApplyOperationInPlace | crdt/orset_map.go:176-200 | changes the view in place to the view after the operation |
| ORSet.ORSetMap.ApplyOperationsInPlace | crdt/orset_map.go:176-201 | applies the operations of a mutation in order |
| ORSet.ORSetMap.ApplyMutation | crdt/orset_map.go:169-202 | an already recorded hash changes nothing; otherwise the hash is recorded, the mutation joins the history and its operations are applied; each hash is applied at most once |
| ORSet.ORSetMap.GetLeaves | crdt/orset_map.go:119-141 | returns each vertex that no vertex points to, exactly once |
| ORSet.ORSetMap.LookUp | crdt/orset_map.go:210-217 | fetches the mutation stored under each hash, in order |
| ORSet.ORSetMap.OrderedMutations | crdt/orset_map.go:204-225 | no order exactly when the log has a cycle; otherwise every logged mutation once, each parent before its children |
| ORSet.ORSetMap.LogMutations | crdt/orset_map.go:144-149 | the log becomes the log with each mutation added as a vertex, then its parent edges |
| ORSet.ORSetMap.LinkParents | crdt/orset_map.go:146-148 | adds an edge from the mutation to each of its parents in turn, exactly the edges `AddEdges` gives |
| ORSet.ORSetMap.ApplyInOrder | crdt/orset_map.go:157-164 | applies, in order, exactly the listed mutations whose hash was not applied |
| ORSet.ORSetMap.ApplyNext | crdt/orset_map.go:158-163 | one step of that loop: the mutation stored under the hash is the listed one, and it is applied unless already applied |
| ORSet.ORSetMap.ReplayLog | crdt/orset_map.go:152-166 | on a cycle nothing changes; otherwise every logged mutation not yet applied is applied, parents first |
| ORSet.ORSetMap.AppendMutation | crdt/orset_map.go:143-167 | logs the mutations, then on a cycle applies nothing, and otherwise applies what was not applied, in a parents-first order; the map stays valid |
| ORSet.ORSetMap.AppendedOne | crdt/orset_map.go:143-167 | appending a known hash changes nothing applied; appending a new mutation that is not its own parent to an acyclic log applies exactly it |
| ORSet.ORSetMap.Commit | crdt/orset_map.go:248-252 | a local mutation holds the operation, has the current leaves as parents, and is appended; a new one becomes the only leaf, and is applied when the log had no cycle; on a cycle, which appending keeps, nothing is applied |
| ORSet.ORSetMap.Add | crdt/orset_map.go:227-253 | the counter rises by one (wrapping); one Add is emitted under the single tag of the new counter value, with the leaves as parents; a mutation with a new hash is applied on an acyclic log, the key is then contained, and when the tag is newest the key resolves to the value; a known hash changes nothing applied; on a cycle, which appending keeps, the view is unchanged |
| ORSet.ORSetMap.Remove | crdt/orset_map.go:267-295 | the counter is unchanged; one Remove is emitted carrying every tag recorded under the key, tombstoned or not; a mutation with a new hash is applied on an acyclic log, and the key is then not contained; a known hash changes nothing applied; on a cycle, which appending keeps, the view is unchanged |
| ORSet.ORSetMap.Contains | crdt/orset_map.go:297-313 | true exactly when the key has a live slot |
| ORSet.ORSetMap.Get | crdt/orset_map.go:255-265 | nil for an unknown key, otherwise the resolved value; a non-nil value means the key is contained |
| ORSet.ORSetMap.List | crdt/orset_map.go:315-328 | exactly the keys whose value resolves to non-nil, with those values; each listed key is contained |
| ORSet.ORSetMap.ExportLog | crdt/orset_map.go:330-335 | no log exactly on a cycle; otherwise every logged mutation once, parents first, all already applied; for a locally written map, the history itself |
| ORSet.ORSetMap.ImportLog | crdt/orset_map.go:337-346 | the log grows by every imported mutation; new mutations imported into an acyclic map are applied in the order given; the counter is unchanged |
| ORSet.ORSetMap.ImportOne | crdt/orset_map.go:341-343 | one step of the import loop keeps the log and the history those of the prefix imported so far |
| Scenarios.TestHash | crdt/orset_map_test.go:373-388 | the readable test hash; `TestHashConcatenates` states what it computes |
| Scenarios.TestHashConcatenates | crdt/orset_map_test.go:373-388 | the test hash concatenates, per operation, "add-" and the string value, or "remove-" and the key |
| Scenarios.AddNewKey | crdt/orset_map.go:176-191 | an Add of one newest tag under a new key adds only that key, contained, and lists its value |
| Scenarios.AddNewerOnly | crdt/orset_map.go:176-191 | an Add of a newer tag under the only key lists only the new value |
| Scenarios.RemoveOnly | crdt/orset_map.go:192-199 | a local Remove under the only key leaves nothing contained or listed |
| Scenarios.ReplicaView | crdt/orset_map_test.go:152-166 | a replica built from the exported log answers `Contains` and `List` as the map itself does |
| Scenarios.LeavesAfterThreeAdds | crdt/orset_map_test.go:345-356 | after three local Adds, the only leaf is "add-carrot" |
| Scenarios.SingleElementsView | crdt/orset_map_test.go:25-44 | three Adds under three distinct keys: each is contained and lists its value, and a fourth key is absent |
| Scenarios.AddSingleElements | crdt/orset_map_test.go:25-44 | fruit, computer and car are contained and list apple, laptop and Toyota; bike is not contained |
| Scenarios.UpdateExistingView | crdt/orset_map_test.go:45-59 | for any key, the second Add's value is the one listed |
| Scenarios.UpdateExisting | crdt/orset_map_test.go:45-59 | fruit is contained and lists banana |
| Scenarios.RemoveElementView | crdt/orset_map_test.go:61-72 | for any key, Add then Remove leaves nothing contained or listed |
| Scenarios.RemoveElement | crdt/orset_map_test.go:61-72 | fruit is not contained and nothing is listed |
| Scenarios.RemoveAndReAddView | crdt/orset_map_test.go:73-88 | for any key, an Add after a Remove is listed |
| Scenarios.RemoveAndReAdd | crdt/orset_map_test.go:73-88 | fruit is contained and lists cherry |
| Scenarios.RemoveMissingView | crdt/orset_map_test.go:89-100 | a Remove of an unknown key leaves nothing contained or listed |
| Scenarios.RemoveMissing | crdt/orset_map_test.go:89-100 | fruit is not contained and nothing is listed |
| Scenarios.AddUpdateRemoveView | crdt/orset_map_test.go:124-138 | for any key, a Remove after two Adds takes both back |
| Scenarios.AddUpdateRemove | crdt/orset_map_test.go:124-138 | fruit is not contained and nothing is listed |
| DirectApply.ApplyAll | crdt/orset_map_test.go:329-341 | applying mutations with distinct hashes one by one to a new map lists the view of their replay in order |
| DirectApply.AddRemoveSingle | crdt/orset_map_test.go:177-196 | a Remove of the added tag leaves nothing listed |
| DirectApply.RemoveUnknownTag | crdt/orset_map_test.go:197-219 | a Remove of a tag never added leaves the added value listed |
| DirectApply.AddTwoKeys | crdt/orset_map_test.go:220-242 | Adds under two keys list both values |
| DirectApply.UpdateSameTag | crdt/orset_map_test.go:243-265 | a second Add under the same tag overwrites the value listed |
| DirectApply.AddTwiceRemoveOne | crdt/orset_map_test.go:266-294 | with one of two tags removed, the value stays listed |
| DirectApply.AddTwiceRemoveBoth | crdt/orset_map_test.go:295-326 | with both tags removed, nothing is listed |

## Left out

- The mutex in every public method: the model is sequential.
- `HashMutation` (JSON encoding plus BLAKE3) and `Tags.MarshalJSON`, including their panic path. The hash is a constructor parameter.
- The model never assumes the hash is collision-free. Where a proof needs distinct hashes, the contract says so.
- `time.Now()`: `Add` and `Remove` take the time as a parameter `now`, which feeds only the hash.
- The graph library's internals. The log is a vertex map plus an edge set, with the library's observable behaviour:
  - inserting a vertex that is already there keeps the first;
  - an edge to a missing vertex is not recorded;
  - errors are discarded.

  The sort's tie-breaking among unrelated mutations is left open: any topological order may come back.
- The lookup errors in `appendMutation` and `gerOrderedMutations`, which cannot occur: every sorted hash is a vertex.
- The `getLeaves` error, which comes from listing the graph's adjacency map (crdt/orset_map.go:120-123): the in-memory store never fails to list its vertices and edges. The panics in `Add` and `Remove` on that error are therefore left out too.
- `Type()`'s default branch (-1), which no payload type reaches.
- The numeric meaning of float64 payloads: only their bit pattern is kept.
- `State()`, `Complete` and `Partial`, and the "unknown parents" test that depends on them. They are not defined in the map's file.
- The schema package, the experimental generator, and the benchmarks.
- The `owner` field is never set and plays no part.
- Tags carry no replica identifier, so two replicas can mint the same tag. Importing does not advance the counter either.
- ORSet.ORSetMap.ImportLog: the postcondition states that imported mutations are applied only for a new, distinct, acyclic import. For other imports it states only that the log grows and the map stays valid. A mutation already applied is skipped.
- ORSet.ReplicateByLog: the export/import round trip is stated for maps written only locally, whose log has a single parents-first order. Where concurrent mutations exist, the sort may order unrelated mutations differently on the two sides. Adds and Removes of one tag do not commute (`Merge.RemoveThenAdd`), so the copy's view need not match.
- Scenarios.AddSingleElements and the other scenario methods run on the readable test hash, not on BLAKE3. They check the map itself; the replication half of each test is covered in general by `ReplicaView` and `ReplicateByLog`, not scenario by scenario.
- Scenarios.TestHashConcatenates: an Add carrying nil makes the test hash panic in the source. The model hashes it as "add-".
- DirectApply.ApplyAll: the postcondition covers mutations with distinct hashes. A later mutation whose hash repeats an earlier one is skipped, and the contract says nothing about that case.
- `appendMutation` is modelled for any sequence of mutations, but `Add`, `Remove` and `ImportLog` call it with one mutation at a time.
