/** Mutations applied straight to a new map, bypassing the log, and the
    views that result for the cases the map is expected to merge: removing
    an observed or an unobserved tag, re-adding under the same tag, and
    adding one tag twice before removing one or both. */
module DirectApply {

  import opened Wrappers
  import opened Scalar
  import opened Graph
  import opened Merge
  import opened ORSet
  import opened Scenarios

  /** In a sequence of mutations with distinct hashes, applying the next
      one to a map that has applied those before it extends its history by
      that mutation. */
  lemma AppliedNext(hasher: Mutation -> Hash, ms: seq<Mutation>, i: nat, applied: set<Hash>,
                    history: seq<Mutation>, history': seq<Mutation>)
    requires i < |ms| && Distinct(HashSeq(hasher, ms))
    requires history == ms[..i] && applied == Hashes(hasher, history)
    requires hasher(ms[i]) in applied ==> history' == history
    requires hasher(ms[i]) !in applied ==> history' == history + [ms[i]]
    ensures history' == ms[..i + 1]
  {
    forall m | m in ms[..i]
      ensures hasher(m) != hasher(ms[i])
    {
      var k :| 0 <= k < i && ms[..i][k] == m;
      assert HashSeq(hasher, ms)[k] != HashSeq(hasher, ms)[i];
    }
    assert ms[..i + 1] == ms[..i] + [ms[i]];
  }

  /** Apply each mutation in turn to a new map, then list it.  Mutations
      with distinct hashes are all applied, in order. */
  method ApplyAll(hasher: Mutation -> Hash, ms: seq<Mutation>) returns (list: map<string, Scalar>)
    ensures Distinct(HashSeq(hasher, ms)) ==> list == Visible(Replay(ms))
  {
    var m := new ORSetMap(hasher);
    var i := 0;
    while i < |ms|
      invariant 0 <= i <= |ms| && m.Merged() && m.hasher == hasher
      invariant Distinct(HashSeq(hasher, ms)) ==> m.history == ms[..i]
    {
      ghost var applied, history := m.mutations, m.history;
      m.ApplyMutation(ms[i]);
      if Distinct(HashSeq(hasher, ms)) {
        AppliedNext(hasher, ms, i, applied, history, m.history);
      }
      i := i + 1;
    }
    assert ms[..i] == ms;
    list := m.List();
  }

  /** A mutation holding only an Add of `v` under `key` with tags `tags`. */
  function AddMutation(key: string, v: Scalar, tags: set<Tag>): Mutation
  {
    NewMutation([Operation(AddOperation, key, Some(v), tags, 0)])
  }

  /** A mutation holding only a Remove of `key` carrying `tags`. */
  function RemoveMutation(key: string, tags: set<Tag>): Mutation
  {
    NewMutation([Operation(RemoveOperation, key, None, tags, 0)])
  }

  /** Replaying one more single-operation mutation applies its operation. */
  lemma ReplayNext(ms: seq<Mutation>, op: Operation)
    ensures Replay(ms + [NewMutation([op])]) == ApplyOperation(Replay(ms), op)
  {
    assert (ms + [NewMutation([op])])[..|ms|] == ms;
    assert [op][..0] == [];
    assert ApplyOperations(Replay(ms), [op]) == ApplyOperation(ApplyOperations(Replay(ms), []), op);
  }

  /** Replaying two more single-operation mutations applies their
      operations in order. */
  lemma ReplayTwoMore(ms: seq<Mutation>, op1: Operation, op2: Operation)
    ensures Replay(ms + [NewMutation([op1]), NewMutation([op2])])
         == ApplyOperation(ApplyOperation(Replay(ms), op1), op2)
  {
    var m1, m2 := NewMutation([op1]), NewMutation([op2]);
    ReplayNext(ms, op1);
    ReplayNext(ms + [m1], op2);
    assert ms + [m1, m2] == (ms + [m1]) + [m2];
  }

  /** Under one key, a slot map in which `t` is the only live tag and has a
      positive priority lists that tag's value. */
  lemma OnlyLiveListed(els: Elements, key: string, t: Tag, v: Scalar)
    requires els.Keys == {key} && IsLive(els[key], t) && els[key][t].value == Some(v)
    requires 0 < t.sequence < 0x8000_0000_0000_0000
    requires forall u :: IsLive(els[key], u) ==> u == t
    ensures Visible(els) == map[key := v]
  {
    GreatestSequenceWins(els[key], t);
    VisibleAll(els, map[key := v]);
  }

  /** "Add and remove single item": a Remove of the added tag leaves nothing
      listed. */
  lemma AddRemoveSingle(key: string, v: Scalar, t: Tag)
    ensures Visible(Replay([AddMutation(key, v, {t}), RemoveMutation(key, {t})])) == map[]
  {
    var a, r := AddMutation(key, v, {t}), RemoveMutation(key, {t});
    ReplayNext([], a.operations[0]);
    ReplayNext([a], r.operations[0]);
    assert [a, r] == [a] + [r] && [a] == [] + [a];
    var els := Replay([a, r]);
    RemoveAllRecorded(Replay([a]), r.operations[0]);
    VisibleNone(els);
  }

  /** "Add and remove non existent tag": a Remove of a tag that was never
      added leaves the added value listed. */
  lemma RemoveUnknownTag(key: string, v: Scalar, t1: Tag, t2: Tag)
    requires t1 != t2 && 0 < t1.sequence < 0x8000_0000_0000_0000
    ensures Visible(Replay([AddMutation(key, v, {t1}), RemoveMutation(key, {t2})])) == map[key := v]
  {
    var a, r := AddMutation(key, v, {t1}), RemoveMutation(key, {t2});
    ReplayNext([], a.operations[0]);
    ReplayNext([a], r.operations[0]);
    assert [a, r] == [a] + [r] && [a] == [] + [a];
    var els := Replay([a, r]);
    assert els[key] == map[t1 := ValueDetail(Some(v), false)];
    OnlyLiveListed(els, key, t1, v);
  }

  /** "Add multiple items": Adds under two keys list both values. */
  lemma AddTwoKeys(k1: string, k2: string, v1: Scalar, v2: Scalar, t1: Tag, t2: Tag)
    requires k1 != k2
    requires 0 < t1.sequence < 0x8000_0000_0000_0000 && 0 < t2.sequence < 0x8000_0000_0000_0000
    ensures Visible(Replay([AddMutation(k1, v1, {t1}), AddMutation(k2, v2, {t2})]))
         == map[k1 := v1, k2 := v2]
  {
    var a, b := AddMutation(k1, v1, {t1}), AddMutation(k2, v2, {t2});
    ReplayNext([], a.operations[0]);
    ReplayNext([a], b.operations[0]);
    assert [a, b] == [a] + [b] && [a] == [] + [a];
    AddNewKey(map[], a.operations[0], t1);
    AddNewKey(Replay([a]), b.operations[0], t2);
    assert Visible(map[]) == map[];
  }

  /** "Update existing item": a second Add under the same tag overwrites the
      value in its slot. */
  lemma UpdateSameTag(key: string, v1: Scalar, v2: Scalar, t: Tag)
    requires 0 < t.sequence < 0x8000_0000_0000_0000
    ensures Visible(Replay([AddMutation(key, v1, {t}), AddMutation(key, v2, {t})])) == map[key := v2]
  {
    var a, b := AddMutation(key, v1, {t}), AddMutation(key, v2, {t});
    ReplayNext([], a.operations[0]);
    ReplayNext([a], b.operations[0]);
    assert [a, b] == [a] + [b] && [a] == [] + [a];
    var els := Replay([a, b]);
    assert els[key] == map[t := ValueDetail(Some(v2), false)];
    OnlyLiveListed(els, key, t, v2);
  }

  /** Two Adds of one value under one key leave both tags live. */
  lemma AddTwice(key: string, v: Scalar, t1: Tag, t2: Tag)
    ensures Replay([AddMutation(key, v, {t1}), AddMutation(key, v, {t2})])
         == map[key := map[t1 := ValueDetail(Some(v), false), t2 := ValueDetail(Some(v), false)]]
  {
    var a, b := AddMutation(key, v, {t1}), AddMutation(key, v, {t2});
    ReplayNext([], a.operations[0]);
    ReplayNext([a], b.operations[0]);
    assert [a, b] == [a] + [b] && [a] == [] + [a];
    var live := ValueDetail(Some(v), false);
    assert AddTags(map[], {t1}, Some(v)) == map[t1 := live];
    assert Replay([a]) == map[key := map[t1 := live]];
    var slots := Replay([a, b])[key];
    assert slots.Keys == {t1, t2};
    assert slots == map[t1 := live, t2 := live];
  }

  /** "Add item twice, remove only one": the Add whose tag was not removed
      keeps the value listed. */
  lemma AddTwiceRemoveOne(key: string, v: Scalar, t1: Tag, t2: Tag)
    requires t1 != t2 && 0 < t2.sequence < 0x8000_0000_0000_0000
    ensures Visible(Replay([AddMutation(key, v, {t1}), AddMutation(key, v, {t2}), RemoveMutation(key, {t1})]))
         == map[key := v]
  {
    var a, b, r := AddMutation(key, v, {t1}), AddMutation(key, v, {t2}), RemoveMutation(key, {t1});
    AddTwice(key, v, t1, t2);
    ReplayNext([a, b], r.operations[0]);
    assert [a, b, r] == [a, b] + [r];
    RemoveFirstOfTwo(key, Some(v), t1, t2);
    OnlyLiveListed(Replay([a, b, r]), key, t2, v);
  }

  /** Removing the first of two live tags under one key tombstones it and
      keeps the other live. */
  lemma RemoveFirstOfTwo(key: string, v: Value, t1: Tag, t2: Tag)
    requires t1 != t2
    ensures ApplyOperation(map[key := map[t1 := ValueDetail(v, false), t2 := ValueDetail(v, false)]],
                           Operation(RemoveOperation, key, None, {t1}, 0))
         == map[key := map[t1 := ValueDetail(v, true), t2 := ValueDetail(v, false)]]
  {
    var live := ValueDetail(v, false);
    var slots := TombstoneTags(map[t1 := live, t2 := live], {t1});
    assert slots.Keys == {t1, t2};
    assert slots == map[t1 := ValueDetail(v, true), t2 := live];
  }

  /** Removing the two tags of two Adds under one key, one at a time,
      tombstones every slot of the key. */
  lemma RemoveBothTombstones(key: string, v: Scalar, t1: Tag, t2: Tag)
    ensures var els := Replay([AddMutation(key, v, {t1}), AddMutation(key, v, {t2}),
                               RemoveMutation(key, {t1}), RemoveMutation(key, {t2})]);
            els.Keys == {key} && forall u :: u in els[key] ==> els[key][u].tombstone
  {
    var a, b := AddMutation(key, v, {t1}), AddMutation(key, v, {t2});
    var r1, r2 := RemoveMutation(key, {t1}), RemoveMutation(key, {t2});
    AddTwice(key, v, t1, t2);
    ReplayTwoMore([a, b], r1.operations[0], r2.operations[0]);
    assert [a, b, r1, r2] == [a, b] + [r1, r2];
    RemoveEach(Replay([a, b]), key, t1, t2);
  }

  /** Under a single key whose slots are at most `t1` and `t2`, Removes of
      `t1` and then of `t2` tombstone every slot. */
  lemma RemoveEach(els: Elements, key: string, t1: Tag, t2: Tag)
    requires els.Keys == {key} && els[key].Keys <= {t1, t2}
    ensures var r := ApplyOperation(ApplyOperation(els, Operation(RemoveOperation, key, None, {t1}, 0)),
                                    Operation(RemoveOperation, key, None, {t2}, 0));
            r.Keys == {key} && forall u :: u in r[key] ==> r[key][u].tombstone
  {
    var r1 := ApplyOperation(els, Operation(RemoveOperation, key, None, {t1}, 0));
    assert r1[key] == TombstoneTags(els[key], {t1});
    var r2 := ApplyOperation(r1, Operation(RemoveOperation, key, None, {t2}, 0));
    assert r2[key] == TombstoneTags(r1[key], {t2});
  }

  /** "Add item twice, remove both": once both tags are removed nothing is
      listed. */
  lemma AddTwiceRemoveBoth(key: string, v: Scalar, t1: Tag, t2: Tag)
    ensures Visible(Replay([AddMutation(key, v, {t1}), AddMutation(key, v, {t2}),
                            RemoveMutation(key, {t1}), RemoveMutation(key, {t2})])) == map[]
  {
    var els := Replay([AddMutation(key, v, {t1}), AddMutation(key, v, {t2}),
                       RemoveMutation(key, {t1}), RemoveMutation(key, {t2})]);
    RemoveBothTombstones(key, v, t1, t2);
    forall k | k in els
      ensures !HasLiveTag(els[k])
    {
      assert k == key;
    }
    VisibleNone(els);
  }
}
