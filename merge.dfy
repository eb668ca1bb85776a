/** The OR-Set merge core: the per-key state of tagged value slots, how one
    operation changes it, and which slot is visible. */
module Merge {

  import opened Wrappers
  import opened Scalar

  /** A value held by the map: a scalar, or `None` for the nil interface
      (a Remove operation carries no value, and nothing stops an Add from
      carrying nil). */
  type Value = Option<Scalar>

  /** The source's operation type is a plain integer: 0 is Add, 1 is Remove,
      and any other value, which only an imported mutation can carry, is
      skipped when the mutation is applied. */
  datatype OperationType = AddOperation | RemoveOperation | OtherOperation(code: OtherCode)

  /** The integer codes that name neither an Add nor a Remove. */
  type OtherCode = c: int64 | c != 0 && c != 1 witness 2

  /** The identity of one Add: only the local sequence number.  There is no
      replica identifier, so two replicas can mint equal tags. */
  datatype Tag = Tag(sequence: uint64)

  /** One change to one key.  The source's tag collection is a map to bool of
      which only the keys are ever read, so it is a set here; `time` is the
      wall-clock stamp, which only feeds the hash. */
  datatype Operation = Operation(kind: OperationType, key: string, value: Value, tags: set<Tag>, time: int)

  /** A node of the causal log: operations applied in order, the hashes of
      the mutations it happens after, and an owner field nothing sets. */
  datatype Mutation = Mutation(operations: seq<Operation>, parents: seq<string>, owner: string)

  /** The state of one tag's slot. */
  datatype ValueDetail = ValueDetail(value: Value, tombstone: bool)

  /** Every tag ever associated with a key, alive or tombstoned. */
  type KeyValue = map<Tag, ValueDetail>

  /** The materialized view: key to its slots. */
  type Elements = map<string, KeyValue>

  /** A mutation with the given operations, no parents and no owner. */
  function NewMutation(operations: seq<Operation>): (mu: Mutation)
    ensures mu.operations == operations && mu.parents == [] && mu.owner == ""
  {
    Mutation(operations, [], "")
  }

  // ---------------------------------------------------------------------
  // Applying operations

  /** The slots of a key after an Add: every carried tag holds the value and
      is live, whatever it held before; other slots are untouched. */
  function AddTags(kv: KeyValue, tags: set<Tag>, v: Value): (r: KeyValue)
    ensures r.Keys == kv.Keys + tags
    ensures forall t :: t in tags ==> IsLive(r, t) && r[t].value == v
    ensures forall t :: t in kv && t !in tags ==> r[t] == kv[t]
  {
    map t | t in kv.Keys + tags :: if t in tags then ValueDetail(v, false) else kv[t]
  }

  /** The slots of a key after a Remove: every carried tag that has a slot is
      tombstoned, keeping its value; nothing is created or deleted. */
  function TombstoneTags(kv: KeyValue, tags: set<Tag>): (r: KeyValue)
    ensures r.Keys == kv.Keys
    ensures forall t :: t in kv ==> r[t].value == kv[t].value
    ensures forall t :: t in kv ==> (r[t].tombstone <==> kv[t].tombstone || t in tags)
  {
    map t | t in kv :: if t in tags then ValueDetail(kv[t].value, true) else kv[t]
  }

  /** The view after one operation.  An Add creates the key's slot map when it
      is missing (even for an empty tag set); a Remove of an unknown key does
      nothing, and so does an operation of any other type. */
  function ApplyOperation(els: Elements, op: Operation): (r: Elements)
    ensures forall k :: k in els && k != op.key ==> k in r && r[k] == els[k]
    ensures op.kind == AddOperation ==> r.Keys == els.Keys + {op.key}
    ensures op.kind != AddOperation ==> r.Keys == els.Keys
    ensures op.kind.OtherOperation? ==> r == els
  {
    match op.kind
    case AddOperation =>
      els[op.key := AddTags(if op.key in els then els[op.key] else map[], op.tags, op.value)]
    case RemoveOperation =>
      if op.key in els then els[op.key := TombstoneTags(els[op.key], op.tags)] else els
    case OtherOperation(_) =>
      els
  }

  /** The view after the operations of a mutation, in order. */
  function ApplyOperations(els: Elements, ops: seq<Operation>): Elements
    decreases |ops|
  {
    if ops == [] then els
    else ApplyOperation(ApplyOperations(els, ops[..|ops| - 1]), ops[|ops| - 1])
  }

  /** The view after applying mutations in order to an empty map. */
  function Replay(ms: seq<Mutation>): Elements
    decreases |ms|
  {
    if ms == [] then map[]
    else ApplyOperations(Replay(ms[..|ms| - 1]), ms[|ms| - 1].operations)
  }

  // ---------------------------------------------------------------------
  // Reading a key

  /** The slot holds a value that has not been removed. */
  predicate IsLive(kv: KeyValue, t: Tag)
  {
    t in kv && !kv[t].tombstone
  }

  /** What `Contains` asks of a key's slots: one of them is live. */
  predicate HasLiveTag(kv: KeyValue)
  {
    exists t :: t in kv && IsLive(kv, t)
  }

  /** `int(tag.Sequence)` on a 64-bit platform: the uint64 read as a two's
      complement int64, so sequences from 2^63 on become negative. */
  function Priority(t: Tag): (p: int)
    ensures -0x8000_0000_0000_0000 <= p < 0x8000_0000_0000_0000
    ensures p > 0 <==> 0 < t.sequence < 0x8000_0000_0000_0000
    ensures 0 <= p ==> p == t.sequence as int
  {
    if t.sequence < 0x8000_0000_0000_0000 then t.sequence as int
    else t.sequence as int - 0x1_0000_0000_0000_0000
  }

  /** Distinct tags have distinct priorities, so a greatest one is unique. */
  lemma PriorityInjective(s: Tag, t: Tag)
    requires Priority(s) == Priority(t)
    ensures s == t
  {
  }

  /** Resolve starts from priority 0 and only moves on a strictly greater
      one: a live slot with a positive priority can win. */
  predicate IsCandidate(kv: KeyValue, t: Tag)
  {
    IsLive(kv, t) && Priority(t) > 0
  }

  ghost predicate HasCandidate(kv: KeyValue)
  {
    exists t :: t in kv && IsCandidate(kv, t)
  }

  /** The slot Resolve picks: a candidate whose priority is at least that of
      every live slot. */
  ghost predicate IsWinner(kv: KeyValue, t: Tag)
  {
    IsCandidate(kv, t) && forall u :: IsLive(kv, u) ==> Priority(u) <= Priority(t)
  }

  /** Every key map with a candidate has a winner. */
  lemma {:induction false} WinnerExists(kv: KeyValue)
    requires HasCandidate(kv)
    ensures exists t :: IsWinner(kv, t)
    decreases kv.Keys
  {
    var c :| c in kv && IsCandidate(kv, c);
    var rest := map t | t in kv && t != c :: kv[t];
    assert rest.Keys == kv.Keys - {c};
    forall u | IsLive(kv, u) && u != c
      ensures IsLive(rest, u)
    {
      assert u in rest;
    }
    if HasCandidate(rest) {
      WinnerExists(rest);
      var m :| IsWinner(rest, m);
      if Priority(c) > Priority(m) {
        assert IsWinner(kv, c);
      } else {
        assert IsWinner(kv, m);
      }
    } else {
      forall u | IsLive(kv, u)
        ensures Priority(u) <= Priority(c)
      {
        if u != c {
          assert !IsCandidate(rest, u);
        }
      }
      assert IsWinner(kv, c);
    }
  }

  /** There is at most one winner. */
  lemma WinnerUnique(kv: KeyValue, s: Tag, t: Tag)
    requires IsWinner(kv, s) && IsWinner(kv, t)
    ensures s == t
  {
    PriorityInjective(s, t);
  }

  /** The tag whose value is visible, if any. */
  ghost function Winner(kv: KeyValue): (w: Option<Tag>)
    ensures w.Some? <==> HasCandidate(kv)
    ensures w.Some? ==> IsWinner(kv, w.value)
  {
    if HasCandidate(kv) then
      WinnerExists(kv);
      Some(var t :| IsWinner(kv, t); t)
    else None
  }

  /** What `Resolve` returns: the value of the winning slot, or nil. */
  ghost function ResolvedValue(kv: KeyValue): Value
  {
    match Winner(kv)
    case None => None
    case Some(t) => kv[t].value
  }

  /** `KeyValue.Resolve`: one pass over the slots in any order, keeping the
      live slot of greatest priority seen so far, starting from priority 0. */
  method Resolve(kv: KeyValue) returns (r: Value)
    ensures r == ResolvedValue(kv)
  {
    var maxPriority := 0;
    var maxValue: Value := None;
    ghost var best: Option<Tag> := None;
    var rest := kv.Keys;
    while rest != {}
      invariant rest <= kv.Keys
      invariant best.None? ==> maxPriority == 0 && maxValue == None
      invariant best.Some? ==> IsCandidate(kv, best.value) && best.value !in rest
                               && maxPriority == Priority(best.value) && maxValue == kv[best.value].value
      invariant forall u :: IsLive(kv, u) && u !in rest ==> Priority(u) <= maxPriority
      decreases rest
    {
      var tag :| tag in rest;
      var detail := kv[tag];
      if Priority(tag) > maxPriority && !detail.tombstone {
        maxPriority := Priority(tag);
        maxValue := detail.value;
        best := Some(tag);
      }
      rest := rest - {tag};
    }
    if best.Some? {
      assert IsWinner(kv, best.value);
      WinnerUnique(kv, best.value, Winner(kv).value);
    } else {
      assert !HasCandidate(kv);
    }
    r := maxValue;
  }

  /** The visible map `List` returns: each key whose resolved value is not
      nil, to that value. */
  ghost function Visible(els: Elements): map<string, Scalar>
  {
    map k | k in els && ResolvedValue(els[k]).Some? :: ResolvedValue(els[k]).value
  }

  // ---------------------------------------------------------------------
  // Properties of the merge rule

  /** A visible value comes from a live slot, so every listed key is
      contained. */
  lemma ResolvedIsLive(kv: KeyValue)
    requires ResolvedValue(kv).Some?
    ensures HasLiveTag(kv)
  {
    assert IsLive(kv, Winner(kv).value);
  }

  /** The converse fails: a live slot with sequence 0 is never picked, so a
      key can be contained and yet resolve to nil (and be absent from
      `List`). */
  lemma LiveButUnresolved(v: Scalar)
    ensures var kv := map[Tag(0) := ValueDetail(Some(v), false)];
            HasLiveTag(kv) && ResolvedValue(kv) == None
  {
    var kv := map[Tag(0) := ValueDetail(Some(v), false)];
    assert IsLive(kv, Tag(0));
    assert !HasCandidate(kv) by {
      forall t | t in kv ensures !IsCandidate(kv, t) {
        assert t == Tag(0);
      }
    }
  }

  /** Resolution picks the greatest live sequence: a live slot whose sequence
      is below 2^63 and above that of every other live slot is visible. */
  lemma GreatestSequenceWins(kv: KeyValue, t: Tag)
    requires IsLive(kv, t) && 0 < t.sequence < 0x8000_0000_0000_0000
    requires forall u :: IsLive(kv, u) && u != t ==> u.sequence < t.sequence
    ensures ResolvedValue(kv) == kv[t].value
  {
    assert IsCandidate(kv, t);
    forall u | IsLive(kv, u)
      ensures Priority(u) <= Priority(t)
    {
    }
    assert IsWinner(kv, t);
    WinnerUnique(kv, t, Winner(kv).value);
  }

  /** An Add creates the key if it is missing, makes every carried tag hold
      the value live (overwriting and reviving), and touches no other key and
      no other tag. */
  lemma AddEffect(els: Elements, op: Operation)
    requires op.kind == AddOperation
    ensures var r := ApplyOperation(els, op);
            && r.Keys == els.Keys + {op.key}
            && (forall k :: k in els && k != op.key ==> r[k] == els[k])
            && (forall t :: t in op.tags ==> t in r[op.key] && r[op.key][t] == ValueDetail(op.value, false))
            && (op.key in els ==> r[op.key].Keys == els[op.key].Keys + op.tags)
            && (op.key in els ==> forall t :: t in els[op.key] && t !in op.tags ==> r[op.key][t] == els[op.key][t])
            && (op.key !in els ==> r[op.key].Keys == op.tags)
  {
  }

  /** A Remove tombstones only the carried tags that already have a slot: it
      never creates a key, deletes a slot, changes a value or clears a
      tombstone, and an uncarried tag (a concurrent Add it did not observe)
      keeps its slot as it was. */
  lemma RemoveEffect(els: Elements, op: Operation)
    requires op.kind == RemoveOperation
    ensures var r := ApplyOperation(els, op);
            && r.Keys == els.Keys
            && (forall k :: k in els && k != op.key ==> r[k] == els[k])
            && (forall k :: k in els ==> r[k].Keys == els[k].Keys)
            && (forall k, t :: k in els && t in els[k] ==> r[k][t].value == els[k][t].value)
            && (forall k, t :: k in els && t in els[k] && els[k][t].tombstone ==> r[k][t].tombstone)
            && (op.key in els ==> forall t :: t in els[op.key] && t in op.tags ==> r[op.key][t].tombstone)
            && (op.key in els ==> forall t :: t in els[op.key] && t !in op.tags ==> r[op.key][t] == els[op.key][t])
  {
  }

  /** Applying an operation a second time changes nothing. */
  lemma OperationIdempotent(els: Elements, op: Operation)
    ensures ApplyOperation(ApplyOperation(els, op), op) == ApplyOperation(els, op)
  {
    var once := ApplyOperation(els, op);
    match op.kind
    case AddOperation =>
      assert once[op.key] == AddTags(once[op.key], op.tags, op.value);
    case RemoveOperation =>
      if op.key in els {
        assert once[op.key] == TombstoneTags(once[op.key], op.tags);
      }
    case OtherOperation(_) =>
  }

  /** An Add followed by a Remove that observed its tag leaves the key
      without a live slot for that tag. */
  lemma AddThenRemove(els: Elements, key: string, v: Value, t: Tag, time1: int, time2: int)
    ensures var r := ApplyOperation(ApplyOperation(els, Operation(AddOperation, key, v, {t}, time1)),
                                    Operation(RemoveOperation, key, None, {t}, time2));
            key in r && t in r[key] && r[key][t] == ValueDetail(v, true)
  {
  }

  /** The other order differs: a Remove followed by an Add of the same tag
      leaves the slot live.  Operations on one tag do not commute. */
  lemma RemoveThenAdd(els: Elements, key: string, v: Value, t: Tag, time1: int, time2: int)
    ensures var r := ApplyOperation(ApplyOperation(els, Operation(RemoveOperation, key, None, {t}, time1)),
                                    Operation(AddOperation, key, v, {t}, time2));
            key in r && t in r[key] && r[key][t] == ValueDetail(v, false) && HasLiveTag(r[key])
  {
    var r := ApplyOperation(ApplyOperation(els, Operation(RemoveOperation, key, None, {t}, time1)),
                            Operation(AddOperation, key, v, {t}, time2));
    assert IsLive(r[key], t);
  }

  /** An Add with at least one tag leaves its key contained. */
  lemma AddMakesLive(els: Elements, op: Operation, t: Tag)
    requires op.kind == AddOperation && t in op.tags
    ensures var r := ApplyOperation(els, op);
            op.key in r && HasLiveTag(r[op.key])
  {
    assert IsLive(ApplyOperation(els, op)[op.key], t);
  }

  /** An Add whose one tag has a positive priority and a sequence greater
      than every tag recorded under its key makes its value the one `Get`
      returns. */
  lemma NewestAddWins(els: Elements, op: Operation, t: Tag)
    requires op.kind == AddOperation && op.tags == {t}
    requires 0 < t.sequence < 0x8000_0000_0000_0000
    requires op.key in els ==> forall u :: u in els[op.key] ==> u.sequence < t.sequence
    ensures var r := ApplyOperation(els, op);
            op.key in r && ResolvedValue(r[op.key]) == op.value
  {
    var kv := ApplyOperation(els, op)[op.key];
    assert IsLive(kv, t);
    GreatestSequenceWins(kv, t);
  }

  /** A Remove carrying every recorded tag of its key, as a local Remove
      does, leaves the key without a live slot. */
  lemma RemoveAllRecorded(els: Elements, op: Operation)
    requires op.kind == RemoveOperation
    requires op.key in els ==> els[op.key].Keys <= op.tags
    ensures var r := ApplyOperation(els, op);
            !(op.key in r && HasLiveTag(r[op.key]))
  {
    var r := ApplyOperation(els, op);
    if op.key in r {
      forall t | t in r[op.key]
        ensures !IsLive(r[op.key], t)
      {
      }
    }
  }

  /** Adds of disjoint tag sets to one key's slots commute. */
  lemma AddTagsCommute(kv: KeyValue, ta: set<Tag>, va: Value, tb: set<Tag>, vb: Value)
    requires ta !! tb
    ensures AddTags(AddTags(kv, ta, va), tb, vb) == AddTags(AddTags(kv, tb, vb), ta, va)
  {
    var x, y := AddTags(AddTags(kv, ta, va), tb, vb), AddTags(AddTags(kv, tb, vb), ta, va);
    forall t | t in x
      ensures x[t] == y[t]
    {
    }
  }

  /** Two Adds whose tag sets are disjoint, or that target different keys,
      can be applied in either order. */
  lemma DisjointAddsCommute(els: Elements, a: Operation, b: Operation)
    requires a.kind == AddOperation && b.kind == AddOperation
    requires a.key != b.key || a.tags !! b.tags
    ensures ApplyOperation(ApplyOperation(els, a), b) == ApplyOperation(ApplyOperation(els, b), a)
  {
    if a.key == b.key {
      SameKeyAddsCommute(els, a, b);
    } else {
      OtherKeyAddsCommute(els, a, b);
    }
  }

  /** Adds of disjoint tag sets to one key commute. */
  lemma SameKeyAddsCommute(els: Elements, a: Operation, b: Operation)
    requires a.kind == AddOperation && b.kind == AddOperation
    requires a.key == b.key && a.tags !! b.tags
    ensures ApplyOperation(ApplyOperation(els, a), b) == ApplyOperation(ApplyOperation(els, b), a)
  {
    var kv := if a.key in els then els[a.key] else map[];
    AddTagsCommute(kv, a.tags, a.value, b.tags, b.value);
    assert ApplyOperation(ApplyOperation(els, a), b)
        == els[a.key := AddTags(AddTags(kv, a.tags, a.value), b.tags, b.value)];
    assert ApplyOperation(ApplyOperation(els, b), a)
        == els[a.key := AddTags(AddTags(kv, b.tags, b.value), a.tags, a.value)];
  }

  /** Adds to different keys commute. */
  lemma OtherKeyAddsCommute(els: Elements, a: Operation, b: Operation)
    requires a.kind == AddOperation && b.kind == AddOperation
    requires a.key != b.key
    ensures ApplyOperation(ApplyOperation(els, a), b) == ApplyOperation(ApplyOperation(els, b), a)
  {
    var sa := AddTags(if a.key in els then els[a.key] else map[], a.tags, a.value);
    var sb := AddTags(if b.key in els then els[b.key] else map[], b.tags, b.value);
    var x, y := ApplyOperation(els, a), ApplyOperation(els, b);
    assert x == els[a.key := sa] && y == els[b.key := sb];
    assert (if b.key in x then x[b.key] else map[]) == (if b.key in els then els[b.key] else map[]);
    assert (if a.key in y then y[a.key] else map[]) == (if a.key in els then els[a.key] else map[]);
    UpdatesCommute(els, a.key, sa, b.key, sb);
  }

  /** Updates of a map at two different keys commute. */
  lemma UpdatesCommute(m: Elements, k1: string, v1: KeyValue, k2: string, v2: KeyValue)
    requires k1 != k2
    ensures m[k1 := v1][k2 := v2] == m[k2 := v2][k1 := v1]
  {
    var x, y := m[k1 := v1][k2 := v2], m[k2 := v2][k1 := v1];
    assert x.Keys == y.Keys;
  }

  /** Two Removes can be applied in either order. */
  lemma RemovesCommute(els: Elements, a: Operation, b: Operation)
    requires a.kind == RemoveOperation && b.kind == RemoveOperation
    ensures ApplyOperation(ApplyOperation(els, a), b) == ApplyOperation(ApplyOperation(els, b), a)
  {
    var ab := ApplyOperation(ApplyOperation(els, a), b);
    var ba := ApplyOperation(ApplyOperation(els, b), a);
    forall k | k in ab
      ensures ab[k] == ba[k]
    {
    }
  }
}
