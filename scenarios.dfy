/** Client scenarios of the map, each run on a new map whose hash is the
    readable test hash, so that every local write has a hash of its own.
    The expected views and leaves follow from the contracts of the
    operations alone. */
module Scenarios {

  import opened Wrappers
  import opened Scalar
  import opened Graph
  import opened Merge
  import opened ORSet

  /** The test hash: per operation, "add-" followed by the value when it is
      a string, or "remove-" followed by the key, nothing for an operation
      of any other type, all concatenated.  A mutation of one operation is
      hashed by that operation directly. */
  function TestHash(mu: Mutation): Hash
  {
    if |mu.operations| == 1 then OperationHash(mu.operations[0])
    else OperationsHash(mu.operations)
  }

  function OperationsHash(ops: seq<Operation>): string
    decreases |ops|
  {
    if ops == [] then ""
    else OperationsHash(ops[..|ops| - 1]) + OperationHash(ops[|ops| - 1])
  }

  function OperationHash(op: Operation): string
  {
    match op.kind
    case AddOperation => "add-" + (if op.value.Some? then op.value.value.String().0 else "")
    case RemoveOperation => "remove-" + op.key
    case OtherOperation(_) => ""
  }

  /** The shortcut for one operation is the concatenation over all of them. */
  lemma TestHashConcatenates(mu: Mutation)
    ensures TestHash(mu) == OperationsHash(mu.operations)
  {
    if |mu.operations| == 1 {
      assert mu.operations[..0] == [];
      assert OperationsHash(mu.operations)
          == OperationsHash([]) + OperationHash(mu.operations[0]);
    }
  }

  /** A map that has only written locally, under the test hash. */
  ghost predicate Local(m: ORSetMap)
    reads m
  {
    m.Valid() && Sortable(m.vertices.Keys, m.edges) && m.hasher == TestHash
  }

  /** `Add(key, New(s))` with a hash not yet logged makes the new mutation
      the only leaf. */
  method LeafAdd(m: ORSetMap, key: string, s: string)
    requires Local(m) && "add-" + s !in m.vertices
    modifies m
    ensures Local(m)
    ensures m.vertices.Keys == old(m.vertices.Keys) + {"add-" + s}
    ensures Unreferenced(m.vertices.Keys, m.edges) == {"add-" + s}
  {
    var mu := m.Add(key, Some(OfString(s)), 0);
  }

  /** `Add(key, New(s))` with a hash not yet logged: the view takes the Add
      of one tag, the raised sequence. */
  method ViewAdd(m: ORSetMap, key: string, s: string)
    requires Local(m) && "add-" + s !in m.vertices
    modifies m
    ensures Local(m)
    ensures m.vertices.Keys == old(m.vertices.Keys) + {"add-" + s}
    ensures m.sequence == Inc(old(m.sequence))
    ensures m.elements == ApplyOperation(old(m.elements), AddOf(key, s, m.sequence))
  {
    var mu := m.Add(key, Some(OfString(s)), 0);
  }

  /** `Remove(key)` with a hash not yet logged: the view takes the Remove of
      every tag recorded under the key. */
  method ViewRemove(m: ORSetMap, key: string)
    requires Local(m) && "remove-" + key !in m.vertices
    modifies m
    ensures Local(m)
    ensures m.vertices.Keys == old(m.vertices.Keys) + {"remove-" + key}
    ensures m.sequence == old(m.sequence)
    ensures m.elements == ApplyOperation(old(m.elements), RemoveOf(key, old(m.elements)))
  {
    var mu := m.Remove(key, 0);
  }

  /** The operation `Add(key, New(s))` emits at sequence `n`. */
  function AddOf(key: string, s: string, n: uint64): Operation
  {
    Operation(AddOperation, key, Some(OfString(s)), {Tag(n)}, 0)
  }

  /** The operation `Remove(key)` emits on view `els`. */
  function RemoveOf(key: string, els: Elements): Operation
  {
    Operation(RemoveOperation, key, None, RecordedTags(els, key), 0)
  }

  /** The listing of a view whose keys all resolve, key by key. */
  lemma VisibleAll(els: Elements, view: map<string, Scalar>)
    requires els.Keys == view.Keys
    requires forall k :: k in els ==> ResolvedValue(els[k]) == Some(view[k])
    ensures Visible(els) == view
  {
  }

  /** The listing of a view with no live slot is empty. */
  lemma VisibleNone(els: Elements)
    requires forall k :: k in els ==> !HasLiveTag(els[k])
    ensures Visible(els) == map[]
  {
    forall k | k in els
      ensures ResolvedValue(els[k]).None?
    {
      if ResolvedValue(els[k]).Some? {
        ResolvedIsLive(els[k]);
      }
    }
  }

  /** Hashes with the same prefix differ when the rest differs. */
  lemma SuffixesDiffer(p: string, a: string, b: string)
    requires a != b
    ensures p + a != p + b
  {
    assert (p + a)[|p|..] == a && (p + b)[|p|..] == b;
  }

  /** Hashes whose prefixes start differently differ. */
  lemma PrefixesDiffer(p: string, q: string, a: string, b: string)
    requires |p| > 0 && |q| > 0 && p[0] != q[0]
    ensures p + a != q + b
  {
    assert (p + a)[0] == p[0] && (q + b)[0] == q[0];
  }

  /** The reads of a replica built from the exported log agree with the
      reads of the map itself. */
  method ReplicaView(m: ORSetMap, key: string) returns (contains: bool, list: map<string, Scalar>)
    requires m.Valid() && m.Linear()
    ensures contains <==> key in m.elements && HasLiveTag(m.elements[key])
    ensures list == Visible(m.elements)
  {
    var replica := ReplicateByLog(m);
    contains := replica.Contains(key);
    list := replica.List();
  }

  /** Three local Adds leave exactly one leaf, the last mutation
      ("add-carrot"). */
  method LeavesAfterThreeAdds() returns (leaves: seq<Hash>)
    ensures leaves == ["add-" + "carrot"]
  {
    var m := new ORSetMap(TestHash);
    LeafAdd(m, "fruit", "apple");
    SuffixesDiffer("add-", "banana", "apple");
    LeafAdd(m, "fruit", "banana");
    SuffixesDiffer("add-", "carrot", "apple");
    SuffixesDiffer("add-", "carrot", "banana");
    LeafAdd(m, "vegetable", "carrot");
    leaves := m.GetLeaves();
    DistinctOfSet(leaves, Unreferenced(m.vertices.Keys, m.edges));
  }

  /** An Add of one tag under a key not in the view adds that key alone,
      contained and listed with the added value. */
  lemma AddNewKey(els: Elements, op: Operation, t: Tag)
    requires op.kind == AddOperation && op.tags == {t} && op.value.Some? && op.key !in els
    requires 0 < t.sequence < 0x8000_0000_0000_0000
    ensures var r := ApplyOperation(els, op);
            && r.Keys == els.Keys + {op.key}
            && (forall k :: k in els ==> r[k] == els[k])
            && HasLiveTag(r[op.key])
            && Visible(r) == Visible(els)[op.key := op.value.value]
  {
    AddEffect(els, op);
    AddMakesLive(els, op, t);
    NewestAddWins(els, op, t);
  }

  /** An Add of a newer tag under the only key of the view keeps that key
      alone, contained and resolving to the added value. */
  lemma AddNewerOnly(els: Elements, op: Operation, t: Tag)
    requires op.kind == AddOperation && op.tags == {t} && op.value.Some? && els.Keys <= {op.key}
    requires 0 < t.sequence < 0x8000_0000_0000_0000
    requires op.key in els ==> forall u :: u in els[op.key] ==> u.sequence < t.sequence
    ensures var r := ApplyOperation(els, op);
            HasLiveTag(r[op.key]) && Visible(r) == map[op.key := op.value.value]
  {
    AddMakesLive(els, op, t);
    NewestAddWins(els, op, t);
    VisibleAll(ApplyOperation(els, op), map[op.key := op.value.value]);
  }

  /** A Remove of every recorded tag under the only key of the view leaves
      nothing contained or listed. */
  lemma RemoveOnly(els: Elements, key: string)
    requires els.Keys <= {key}
    ensures var r := ApplyOperation(els, RemoveOf(key, els));
            (forall k :: k in r ==> !HasLiveTag(r[k])) && Visible(r) == map[]
  {
    var r := ApplyOperation(els, RemoveOf(key, els));
    RemoveAllRecorded(els, RemoveOf(key, els));
    VisibleNone(r);
  }

  /** Two Adds under two keys: both are contained and list their values. */
  lemma TwoElementsView(k1: string, k2: string, s1: string, s2: string)
    requires k1 != k2
    ensures var e2 := ApplyOperation(ApplyOperation(map[], AddOf(k1, s1, 1)), AddOf(k2, s2, 2));
            && e2.Keys == {k1, k2}
            && HasLiveTag(e2[k1]) && HasLiveTag(e2[k2])
            && Visible(e2) == map[k1 := OfString(s1), k2 := OfString(s2)]
  {
    var e1 := ApplyOperation(map[], AddOf(k1, s1, 1));
    AddNewKey(map[], AddOf(k1, s1, 1), Tag(1));
    AddNewKey(e1, AddOf(k2, s2, 2), Tag(2));
    assert Visible(map[]) == map[];
  }

  /** "Add single elements", for any three distinct keys: each is contained
      and lists its value, and a fourth key is absent. */
  lemma SingleElementsView(k1: string, k2: string, k3: string, other: string,
                           s1: string, s2: string, s3: string)
    requires k1 != k2 && k1 != k3 && k2 != k3
    requires other != k1 && other != k2 && other != k3
    ensures var e1 := ApplyOperation(map[], AddOf(k1, s1, 1));
            var e2 := ApplyOperation(e1, AddOf(k2, s2, 2));
            var e3 := ApplyOperation(e2, AddOf(k3, s3, 3));
            && other !in e3
            && HasLiveTag(e3[k1]) && HasLiveTag(e3[k2]) && HasLiveTag(e3[k3])
            && Visible(e3) == map[k1 := OfString(s1), k2 := OfString(s2), k3 := OfString(s3)]
  {
    var e2 := ApplyOperation(ApplyOperation(map[], AddOf(k1, s1, 1)), AddOf(k2, s2, 2));
    TwoElementsView(k1, k2, s1, s2);
    AddNewKey(e2, AddOf(k3, s3, 3), Tag(3));
  }

  /** "Add single elements": three Adds under three keys; each is contained
      and lists its value, and an untouched key is not contained. */
  method AddSingleElements() returns (fruit: bool, computer: bool, car: bool, bike: bool,
                                      list: map<string, Scalar>)
    ensures fruit && computer && car && !bike
    ensures list == map["fruit" := OfString("apple"), "computer" := OfString("laptop"),
                        "car" := OfString("Toyota")]
  {
    var m := new ORSetMap(TestHash);
    ViewAdd(m, "fruit", "apple");
    SuffixesDiffer("add-", "laptop", "apple");
    ViewAdd(m, "computer", "laptop");
    SuffixesDiffer("add-", "Toyota", "apple");
    SuffixesDiffer("add-", "Toyota", "laptop");
    ViewAdd(m, "car", "Toyota");
    SingleElementsView("fruit", "computer", "car", "bike", "apple", "laptop", "Toyota");
    fruit := m.Contains("fruit");
    computer := m.Contains("computer");
    car := m.Contains("car");
    bike := m.Contains("bike");
    list := m.List();
  }

  /** "Update existing element", for any key and values: the second Add
      wins. */
  lemma UpdateExistingView(key: string, s1: string, s2: string)
    ensures var e1 := ApplyOperation(map[], AddOf(key, s1, 1));
            var e2 := ApplyOperation(e1, AddOf(key, s2, 2));
            HasLiveTag(e2[key]) && Visible(e2) == map[key := OfString(s2)]
  {
    AddNewerOnly(ApplyOperation(map[], AddOf(key, s1, 1)), AddOf(key, s2, 2), Tag(2));
  }

  /** "Update existing element": Add apple, then banana, under one key; the
      key lists as banana. */
  method UpdateExisting() returns (contains: bool, list: map<string, Scalar>)
    ensures contains && list == map["fruit" := OfString("banana")]
  {
    var m := new ORSetMap(TestHash);
    ViewAdd(m, "fruit", "apple");
    SuffixesDiffer("add-", "banana", "apple");
    ViewAdd(m, "fruit", "banana");
    UpdateExistingView("fruit", "apple", "banana");
    contains := m.Contains("fruit");
    list := m.List();
  }

  /** "Remove element", for any key and value: nothing is left. */
  lemma RemoveElementView(key: string, s: string)
    ensures var e1 := ApplyOperation(map[], AddOf(key, s, 1));
            var e2 := ApplyOperation(e1, RemoveOf(key, e1));
            (forall k :: k in e2 ==> !HasLiveTag(e2[k])) && Visible(e2) == map[]
  {
    RemoveOnly(ApplyOperation(map[], AddOf(key, s, 1)), key);
  }

  /** "Remove element": Add apple, then Remove; nothing is contained or
      listed. */
  method RemoveElement() returns (contains: bool, list: map<string, Scalar>)
    ensures !contains && list == map[]
  {
    var m := new ORSetMap(TestHash);
    ViewAdd(m, "fruit", "apple");
    PrefixesDiffer("remove-", "add-", "fruit", "apple");
    ViewRemove(m, "fruit");
    RemoveElementView("fruit", "apple");
    contains := m.Contains("fruit");
    list := m.List();
  }

  /** "Remove and re-add element", for any key and values: the Add after
      the Remove wins. */
  lemma RemoveAndReAddView(key: string, s1: string, s2: string)
    ensures var e1 := ApplyOperation(map[], AddOf(key, s1, 1));
            var e2 := ApplyOperation(e1, RemoveOf(key, e1));
            var e3 := ApplyOperation(e2, AddOf(key, s2, 2));
            HasLiveTag(e3[key]) && Visible(e3) == map[key := OfString(s2)]
  {
    var e1 := ApplyOperation(map[], AddOf(key, s1, 1));
    RemoveEffect(e1, RemoveOf(key, e1));
    AddNewerOnly(ApplyOperation(e1, RemoveOf(key, e1)), AddOf(key, s2, 2), Tag(2));
  }

  /** "Remove and re-add element": Add apple, Remove, Add cherry; the key is
      contained and lists as cherry. */
  method RemoveAndReAdd() returns (contains: bool, list: map<string, Scalar>)
    ensures contains && list == map["fruit" := OfString("cherry")]
  {
    var m := new ORSetMap(TestHash);
    ViewAdd(m, "fruit", "apple");
    PrefixesDiffer("remove-", "add-", "fruit", "apple");
    ViewRemove(m, "fruit");
    SuffixesDiffer("add-", "cherry", "apple");
    PrefixesDiffer("add-", "remove-", "cherry", "fruit");
    ViewAdd(m, "fruit", "cherry");
    RemoveAndReAddView("fruit", "apple", "cherry");
    contains := m.Contains("fruit");
    list := m.List();
  }

  /** "Remove non-existent element", for any key: nothing is left. */
  lemma RemoveMissingView(key: string)
    ensures var e1 := ApplyOperation(map[], RemoveOf(key, map[]));
            (forall k :: k in e1 ==> !HasLiveTag(e1[k])) && Visible(e1) == map[]
  {
    RemoveOnly(map[], key);
  }

  /** "Remove non-existent element": a Remove on a new map leaves nothing
      contained or listed. */
  method RemoveMissing() returns (contains: bool, list: map<string, Scalar>)
    ensures !contains && list == map[]
  {
    var m := new ORSetMap(TestHash);
    ViewRemove(m, "fruit");
    RemoveMissingView("fruit");
    contains := m.Contains("fruit");
    list := m.List();
  }

  /** "Add, Update, Remove element", for any key and values: the Remove
      takes both Adds back. */
  lemma AddUpdateRemoveView(key: string, s1: string, s2: string)
    ensures var e1 := ApplyOperation(map[], AddOf(key, s1, 1));
            var e2 := ApplyOperation(e1, AddOf(key, s2, 2));
            var e3 := ApplyOperation(e2, RemoveOf(key, e2));
            (forall k :: k in e3 ==> !HasLiveTag(e3[k])) && Visible(e3) == map[]
  {
    var e1 := ApplyOperation(map[], AddOf(key, s1, 1));
    AddEffect(e1, AddOf(key, s2, 2));
    RemoveOnly(ApplyOperation(e1, AddOf(key, s2, 2)), key);
  }

  /** "Add, Update, Remove element": Add apple, Add banana, Remove; nothing
      is contained or listed. */
  method AddUpdateRemove() returns (contains: bool, list: map<string, Scalar>)
    ensures !contains && list == map[]
  {
    var m := new ORSetMap(TestHash);
    ViewAdd(m, "fruit", "apple");
    SuffixesDiffer("add-", "banana", "apple");
    ViewAdd(m, "fruit", "banana");
    PrefixesDiffer("remove-", "add-", "fruit", "apple");
    PrefixesDiffer("remove-", "add-", "fruit", "banana");
    ViewRemove(m, "fruit");
    AddUpdateRemoveView("fruit", "apple", "banana");
    contains := m.Contains("fruit");
    list := m.List();
  }
}
