/** The replicated map itself: the causal log of mutations, the hashes of
    the mutations already applied, the materialized view, and the local
    Add/Remove/Get/Contains/List/ExportLog/ImportLog operations over them. */
module ORSet {

  import opened Wrappers
  import opened Scalar
  import opened Graph
  import opened Merge

  /** The hash of each mutation, in order. */
  function HashSeq(hasher: Mutation -> Hash, ms: seq<Mutation>): (hs: seq<Hash>)
  {
    seq(|ms|, i requires 0 <= i < |ms| => hasher(ms[i]))
  }

  /** The set of hashes of some mutations. */
  function Hashes(hasher: Mutation -> Hash, ms: seq<Mutation>): set<Hash>
  {
    set m | m in ms :: hasher(m)
  }

  /** The hash sequence of a non-empty log ends with the hash of its last
      mutation. */
  lemma HashSeqSnoc(hasher: Mutation -> Hash, ms: seq<Mutation>)
    requires ms != []
    ensures HashSeq(hasher, ms) == HashSeq(hasher, ms[..|ms| - 1]) + [hasher(ms[|ms| - 1])]
  {
  }

  /** Hashing distributes over concatenation. */
  lemma HashesConcat(hasher: Mutation -> Hash, a: seq<Mutation>, b: seq<Mutation>)
    ensures Hashes(hasher, a + b) == Hashes(hasher, a) + Hashes(hasher, b)
  {
  }

  /** The hashes listed in order are the set of hashes. */
  lemma HashesListed(hasher: Mutation -> Hash, ms: seq<Mutation>)
    ensures forall h :: h in HashSeq(hasher, ms) <==> h in Hashes(hasher, ms)
  {
    forall h | h in Hashes(hasher, ms)
      ensures h in HashSeq(hasher, ms)
    {
      var m :| m in ms && hasher(m) == h;
      var k :| 0 <= k < |ms| && ms[k] == m;
      assert HashSeq(hasher, ms)[k] == h;
    }
  }

  /** Recording a new hash and applying its mutation keeps the recorded
      hashes and the view those of the history extended by it. */
  lemma MergedStep(hasher: Mutation -> Hash, history: seq<Mutation>, mutations: set<Hash>,
                   elements: Elements, mu: Mutation)
    requires Distinct(HashSeq(hasher, history)) && mutations == Hashes(hasher, history)
    requires elements == Replay(history) && hasher(mu) !in mutations
    ensures Distinct(HashSeq(hasher, history + [mu]))
    ensures mutations + {hasher(mu)} == Hashes(hasher, history + [mu])
    ensures ApplyOperations(elements, mu.operations) == Replay(history + [mu])
  {
    assert (history + [mu])[..|history|] == history;
    HashesConcat(hasher, history, [mu]);
    HashesListed(hasher, history);
    assert HashSeq(hasher, history + [mu]) == HashSeq(hasher, history) + [hasher(mu)];
  }

  /** Every mutation of the log is stored under its own hash. */
  ghost predicate KeyedBy(hasher: Mutation -> Hash, vertices: map<Hash, Mutation>)
  {
    forall h :: h in vertices ==> hasher(vertices[h]) == h
  }

  /** The vertex map after `AddVertex`: a hash already present keeps the
      mutation stored first, and the call fails. */
  function AddVertex(vertices: map<Hash, Mutation>, h: Hash, mu: Mutation): (r: map<Hash, Mutation>)
    ensures r.Keys == vertices.Keys + {h}
    ensures forall k :: k in vertices ==> r[k] == vertices[k]
    ensures h !in vertices ==> r[h] == mu
  {
    if h in vertices then vertices else vertices[h := mu]
  }

  /** The edge set after adding `(source, t)` for each target in turn. */
  function AddEdges(vs: set<Hash>, es: set<Edge>, source: Hash, targets: seq<Hash>): (r: set<Edge>)
    ensures es <= r
    ensures forall e :: e in r ==> e in es || (e.0 == source && e.1 in targets)
    ensures source in vs ==> forall t :: t in targets && t in vs ==> (source, t) in r
    ensures Within(vs, es) ==> Within(vs, r)
    decreases |targets|
  {
    if targets == [] then es
    else
      var init := targets[..|targets| - 1];
      assert forall t :: t in targets ==> t in init || t == targets[|targets| - 1];
      AddEdge(vs, AddEdges(vs, es, source, init), source, targets[|targets| - 1])
  }

  /** The log after the first loop of `appendMutation`: each mutation in turn
      becomes a vertex under its hash, then gets an edge to each parent. */
  function Logged(hasher: Mutation -> Hash, vertices: map<Hash, Mutation>, edges: set<Edge>,
                  mus: seq<Mutation>): (map<Hash, Mutation>, set<Edge>)
    decreases |mus|
  {
    if mus == [] then (vertices, edges)
    else
      var prev := Logged(hasher, vertices, edges, mus[..|mus| - 1]);
      var mu := mus[|mus| - 1];
      var vs := AddVertex(prev.0, hasher(mu), mu);
      (vs, AddEdges(vs.Keys, prev.1, hasher(mu), mu.parents))
  }

  /** Logging adds exactly the hashes of the logged mutations as vertices,
      never replaces a stored mutation or drops an edge, and keeps every
      mutation under its own hash and every edge between vertices. */
  lemma LoggedGrows(hasher: Mutation -> Hash, vertices: map<Hash, Mutation>, edges: set<Edge>,
                    mus: seq<Mutation>)
    ensures var r := Logged(hasher, vertices, edges, mus);
            && (forall h :: h in r.0 <==> h in vertices || h in HashSeq(hasher, mus))
            && (forall h :: h in vertices ==> r.0[h] == vertices[h])
            && edges <= r.1
            && (Within(vertices.Keys, edges) ==> Within(r.0.Keys, r.1))
            && (KeyedBy(hasher, vertices) ==> KeyedBy(hasher, r.0))
  {
    LoggedVertices(hasher, vertices, edges, mus);
    LoggedEdges(hasher, vertices, edges, mus);
  }

  /** The vertex half of `LoggedGrows`. */
  lemma {:induction false} LoggedVertices(hasher: Mutation -> Hash, vertices: map<Hash, Mutation>, edges: set<Edge>,
                                          mus: seq<Mutation>)
    ensures var r := Logged(hasher, vertices, edges, mus);
            && (forall h :: h in r.0 <==> h in vertices || h in HashSeq(hasher, mus))
            && (forall h :: h in vertices ==> r.0[h] == vertices[h])
            && (KeyedBy(hasher, vertices) ==> KeyedBy(hasher, r.0))
    decreases |mus|
  {
    if mus != [] {
      var init, mu := mus[..|mus| - 1], mus[|mus| - 1];
      LoggedVertices(hasher, vertices, edges, init);
      var prev := Logged(hasher, vertices, edges, init);
      var vs := AddVertex(prev.0, hasher(mu), mu);
      assert Logged(hasher, vertices, edges, mus).0 == vs;
      HashSeqSnoc(hasher, mus);
      assert KeyedBy(hasher, prev.0) ==> KeyedBy(hasher, vs);
    }
  }

  /** The edge half of `LoggedGrows`. */
  lemma {:induction false} LoggedEdges(hasher: Mutation -> Hash, vertices: map<Hash, Mutation>, edges: set<Edge>,
                                       mus: seq<Mutation>)
    ensures var r := Logged(hasher, vertices, edges, mus);
            && edges <= r.1
            && (Within(vertices.Keys, edges) ==> Within(r.0.Keys, r.1))
    decreases |mus|
  {
    if mus != [] {
      var init, mu := mus[..|mus| - 1], mus[|mus| - 1];
      LoggedEdges(hasher, vertices, edges, init);
      LoggedVertices(hasher, vertices, edges, init);
      var prev := Logged(hasher, vertices, edges, init);
      var vs := AddVertex(prev.0, hasher(mu), mu);
      assert Logged(hasher, vertices, edges, mus) == (vs, AddEdges(vs.Keys, prev.1, hasher(mu), mu.parents));
      assert prev.0.Keys <= vs.Keys;
    }
  }

  /** Logging one more mutation extends the log by its vertex, then by its
      parent edges. */
  lemma LoggedStep(hasher: Mutation -> Hash, vertices: map<Hash, Mutation>, edges: set<Edge>,
                   mus: seq<Mutation>, i: nat)
    requires i < |mus|
    ensures var prev := Logged(hasher, vertices, edges, mus[..i]);
            var vs := AddVertex(prev.0, hasher(mus[i]), mus[i]);
            Logged(hasher, vertices, edges, mus[..i + 1]) == (vs, AddEdges(vs.Keys, prev.1, hasher(mus[i]), mus[i].parents))
  {
    assert mus[..i + 1][..i] == mus[..i];
  }

  /** The mutations of `ms` whose hash is not in `done`, in order: what
      applying `ms` adds to the history when `done` is already applied and
      the hashes of `ms` are distinct. */
  function Unapplied(hasher: Mutation -> Hash, ms: seq<Mutation>, done: set<Hash>): seq<Mutation>
    decreases |ms|
  {
    if ms == [] then []
    else
      var last := ms[|ms| - 1];
      Unapplied(hasher, ms[..|ms| - 1], done) + (if hasher(last) in done then [] else [last])
  }

  /** One more mutation adds itself unless its hash is done. */
  lemma UnappliedStep(hasher: Mutation -> Hash, ms: seq<Mutation>, done: set<Hash>, i: nat)
    requires i < |ms|
    ensures Unapplied(hasher, ms[..i + 1], done)
         == Unapplied(hasher, ms[..i], done) + (if hasher(ms[i]) in done then [] else [ms[i]])
  {
    assert ms[..i + 1][..i] == ms[..i];
  }

  /** What is left to apply is what is not done. */
  lemma {:induction false} UnappliedMembers(hasher: Mutation -> Hash, ms: seq<Mutation>, done: set<Hash>)
    ensures forall m :: m in Unapplied(hasher, ms, done) <==> m in ms && hasher(m) !in done
    decreases |ms|
  {
    if ms != [] {
      var init := ms[..|ms| - 1];
      UnappliedMembers(hasher, init, done);
      assert ms == init + [ms[|ms| - 1]];
    }
  }

  /** The hashes left to apply are those of `ms` not in `done`. */
  lemma UnappliedHashes(hasher: Mutation -> Hash, ms: seq<Mutation>, done: set<Hash>)
    ensures Hashes(hasher, Unapplied(hasher, ms, done)) == Hashes(hasher, ms) - done
  {
    UnappliedMembers(hasher, ms, done);
  }

  /** In a log without repeated hashes, the next mutation's hash is among
      those applied so far exactly when it was done before, and it is
      applied next exactly when it was not. */
  lemma UnappliedNext(hasher: Mutation -> Hash, ms: seq<Mutation>, done: set<Hash>, i: nat, applied: set<Hash>)
    requires i < |ms| && Distinct(HashSeq(hasher, ms))
    requires applied == done + Hashes(hasher, Unapplied(hasher, ms[..i], done))
    ensures hasher(ms[i]) in applied <==> hasher(ms[i]) in done
    ensures Unapplied(hasher, ms[..i + 1], done)
         == Unapplied(hasher, ms[..i], done) + (if hasher(ms[i]) in done then [] else [ms[i]])
  {
    UnappliedStep(hasher, ms, done, i);
    UnappliedHashes(hasher, ms[..i], done);
    forall m | m in ms[..i]
      ensures hasher(m) != hasher(ms[i])
    {
      var k :| 0 <= k < i && ms[k] == m;
      assert HashSeq(hasher, ms)[k] != HashSeq(hasher, ms)[i];
    }
  }

  /** Applying `ms[i]` to a state that has applied the unapplied part of
      `ms[..i]` leaves one that has applied the unapplied part of `ms[..i + 1]`. */
  lemma UnappliedApplied(hasher: Mutation -> Hash, ms: seq<Mutation>, i: nat, done: set<Hash>,
                         history0: seq<Mutation>, history: seq<Mutation>, applied: set<Hash>,
                         history': seq<Mutation>, applied': set<Hash>)
    requires i < |ms| && Distinct(HashSeq(hasher, ms))
    requires history == history0 + Unapplied(hasher, ms[..i], done)
    requires applied == done + Hashes(hasher, Unapplied(hasher, ms[..i], done))
    requires hasher(ms[i]) in applied ==> history' == history && applied' == applied
    requires hasher(ms[i]) !in applied ==>
               history' == history + [ms[i]] && applied' == applied + {hasher(ms[i])}
    ensures history' == history0 + Unapplied(hasher, ms[..i + 1], done)
    ensures applied' == done + Hashes(hasher, Unapplied(hasher, ms[..i + 1], done))
  {
    UnappliedNext(hasher, ms, done, i, applied);
    HashesConcat(hasher, Unapplied(hasher, ms[..i], done), [ms[i]]);
  }

  /** Nothing is left to apply when every hash is done. */
  lemma {:induction false} UnappliedNone(hasher: Mutation -> Hash, ms: seq<Mutation>, done: set<Hash>)
    requires forall m :: m in ms ==> hasher(m) in done
    ensures Unapplied(hasher, ms, done) == []
    decreases |ms|
  {
    if ms != [] {
      assert forall m :: m in ms[..|ms| - 1] ==> m in ms;
      UnappliedNone(hasher, ms[..|ms| - 1], done);
    }
  }

  /** When the hashes of `ms` are distinct and all but the one of `mu` are
      done, exactly `mu` is left to apply. */
  lemma {:induction false} UnappliedOnly(hasher: Mutation -> Hash, ms: seq<Mutation>, done: set<Hash>, mu: Mutation)
    requires Distinct(HashSeq(hasher, ms)) && mu in ms && hasher(mu) !in done
    requires forall m :: m in ms && hasher(m) != hasher(mu) ==> hasher(m) in done
    ensures Unapplied(hasher, ms, done) == [mu]
    decreases |ms|
  {
    var init := ms[..|ms| - 1];
    var last := ms[|ms| - 1];
    var hs := HashSeq(hasher, ms);
    assert forall m :: m in init ==> m in ms;
    assert HashSeq(hasher, init) == hs[..|ms| - 1];
    if hasher(last) == hasher(mu) {
      assert last == mu by {
        var k :| 0 <= k < |ms| && ms[k] == mu;
        assert hs[k] == hs[|ms| - 1];
      }
      forall m | m in init
        ensures hasher(m) in done
      {
        var k :| 0 <= k < |init| && init[k] == m;
        assert hs[k] != hs[|ms| - 1];
      }
      UnappliedNone(hasher, init, done);
    } else {
      assert mu in init;
      UnappliedOnly(hasher, init, done, mu);
    }
  }

  /** Logging one mutation whose hash is new and which does not name itself
      as a parent keeps a log that has a topological order sortable: the new
      vertex can go first, since only edges leaving it are added. */
  lemma FreshAppendSortable(hasher: Mutation -> Hash, vertices: map<Hash, Mutation>, edges: set<Edge>, mu: Mutation)
    requires Sortable(vertices.Keys, edges) && Within(vertices.Keys, edges)
    requires hasher(mu) !in vertices && hasher(mu) !in mu.parents
    ensures var r := Logged(hasher, vertices, edges, [mu]);
            && r.0 == vertices[hasher(mu) := mu]
            && Sortable(r.0.Keys, r.1)
  {
    var h := hasher(mu);
    LoggedStep(hasher, vertices, edges, [mu], 0);
    assert [mu][..0] == [] && [mu][..1] == [mu];
    var r := Logged(hasher, vertices, edges, [mu]);
    assert r.0 == vertices[h := mu];
    var order :| IsTopologicalOrder(order, vertices.Keys, edges);
    assert r.0.Keys == vertices.Keys + {h};
    PrependFresh(order, vertices.Keys, edges, h, r.1);
  }

  /** After a mutation with a new hash is logged with every leaf of the log
      as a parent, it is the only leaf. */
  lemma FreshLeaf(vs: set<Hash>, es: set<Edge>, h: Hash, parents: seq<Hash>)
    requires Within(vs, es) && h !in vs
    requires forall p :: p in parents <==> p in Unreferenced(vs, es)
    ensures Unreferenced(vs + {h}, AddEdges(vs + {h}, es, h, parents)) == {h}
  {
    var vs', es' := vs + {h}, AddEdges(vs + {h}, es, h, parents);
    forall u | u in vs'
      ensures (u, h) !in es'
    {
    }
    forall v | v in vs
      ensures v !in Unreferenced(vs', es')
    {
      if v in Unreferenced(vs, es) {
        assert (h, v) in es';
      } else {
        var u :| u in vs && (u, v) in es;
        assert (u, v) in es';
      }
    }
  }

  /** Replaying a whole log in which every hash but that of `mu` is done
      applies exactly `mu`. */
  lemma ReplayOnly(hasher: Mutation -> Hash, replay: seq<Mutation>, vertices: map<Hash, Mutation>,
                   edges: set<Edge>, done: set<Hash>, mu: Mutation)
    requires IsReverseTopologicalOrder(HashSeq(hasher, replay), vertices.Keys, edges)
    requires forall m :: m in replay ==> hasher(m) in vertices && vertices[hasher(m)] == m
    requires hasher(mu) in vertices && vertices[hasher(mu)] == mu && hasher(mu) !in done
    requires vertices.Keys - {hasher(mu)} <= done
    ensures Unapplied(hasher, replay, done) == [mu]
  {
    var hs := HashSeq(hasher, replay);
    assert hasher(mu) in hs;
    var k :| 0 <= k < |replay| && hs[k] == hasher(mu);
    assert replay[k] in replay;
    UnappliedOnly(hasher, replay, done, mu);
  }

  /** Replaying a log whose every hash is done applies nothing. */
  lemma ReplayNone(hasher: Mutation -> Hash, replay: seq<Mutation>, vs: set<Hash>, edges: set<Edge>, done: set<Hash>)
    requires IsReverseTopologicalOrder(HashSeq(hasher, replay), vs, edges)
    requires vs <= done
    ensures Unapplied(hasher, replay, done) == []
  {
    forall m | m in replay
      ensures hasher(m) in done
    {
      var k :| 0 <= k < |replay| && replay[k] == m;
      assert HashSeq(hasher, replay)[k] == hasher(m);
    }
    UnappliedNone(hasher, replay, done);
  }

  /** A log to import whose mutations have distinct hashes, none already
      logged, and none naming itself as a parent. */
  ghost predicate FreshLog(hasher: Mutation -> Hash, vs: set<Hash>, ms: seq<Mutation>)
  {
    && Distinct(HashSeq(hasher, ms))
    && forall m :: m in ms ==> hasher(m) !in vs && hasher(m) !in m.parents
  }

  /** The tags a local Remove carries for `key`: every tag recorded under it,
      tombstoned or not. */
  function RecordedTags(els: Elements, key: string): set<Tag>
  {
    if key in els then els[key].Keys else {}
  }

  /** The hashes `getLeaves` deletes from its candidates: every target of an
      edge leaving one of `sources`. */
  function TargetsFrom(es: set<Edge>, sources: set<Hash>): set<Hash>
  {
    set e | e in es && e.0 in sources :: e.1
  }

  /** The next mutation of a log to import is new to the vertices and to the
      mutations before it. */
  lemma FreshNext(hasher: Mutation -> Hash, ms: seq<Mutation>, i: nat, vs: set<Hash>)
    requires i < |ms| && FreshLog(hasher, vs, ms)
    ensures hasher(ms[i]) !in vs && hasher(ms[i]) !in ms[i].parents
    ensures hasher(ms[i]) !in HashSeq(hasher, ms[..i])
  {
    assert ms[i] in ms;
    forall k | 0 <= k < i
      ensures HashSeq(hasher, ms[..i])[k] != hasher(ms[i])
    {
      assert HashSeq(hasher, ms[..i])[k] == HashSeq(hasher, ms)[k] != HashSeq(hasher, ms)[i];
    }
  }

  /** The parents a mutation of a linear log has: none for the first, the
      one before it for every other. */
  function ChainParents(hasher: Mutation -> Hash, ms: seq<Mutation>, i: nat): seq<Hash>
    requires i < |ms|
  {
    if i == 0 then [] else [hasher(ms[i - 1])]
  }

  /** The state of a replica that has only ever written locally, each time
      with a new hash: every logged mutation is applied, each names the one
      before it as its only parent, and the log is the chain of those parent
      edges. */
  ghost predicate LinearLog(hasher: Mutation -> Hash, vertices: map<Hash, Mutation>, edges: set<Edge>,
                            mutations: set<Hash>, history: seq<Mutation>)
  {
    && vertices.Keys == mutations
    && edges == ChainEdges(HashSeq(hasher, history))
    && forall i :: 0 <= i < |history| ==> history[i].parents == ChainParents(hasher, history, i)
  }

  /** The hashes of a linear log, in order of application, list its
      vertices. */
  lemma LinearVertices(hasher: Mutation -> Hash, vertices: map<Hash, Mutation>, history: seq<Mutation>)
    requires vertices.Keys == Hashes(hasher, history)
    ensures forall v :: v in HashSeq(hasher, history) <==> v in vertices.Keys
  {
    HashesListed(hasher, history);
  }

  /** A linear log has no cycle, and its one reverse topological order is
      the order of application. */
  lemma LinearOrder(hasher: Mutation -> Hash, vertices: map<Hash, Mutation>, edges: set<Edge>,
                    mutations: set<Hash>, history: seq<Mutation>)
    requires LinearLog(hasher, vertices, edges, mutations, history)
    requires Distinct(HashSeq(hasher, history)) && mutations == Hashes(hasher, history)
    ensures IsReverseTopologicalOrder(HashSeq(hasher, history), vertices.Keys, edges)
    ensures Sortable(vertices.Keys, edges)
    ensures forall o :: IsReverseTopologicalOrder(o, vertices.Keys, edges) ==> o == HashSeq(hasher, history)
  {
    var hs := HashSeq(hasher, history);
    LinearVertices(hasher, vertices, history);
    ChainOrder(hs, vertices.Keys);
    ReverseOrderSortable(hs, vertices.Keys, edges);
    forall o | IsReverseTopologicalOrder(o, vertices.Keys, edges)
      ensures o == hs
    {
      ChainUnique(o, hs, vertices.Keys);
    }
  }

  /** The only leaf of a non-empty linear log is the last mutation applied. */
  lemma LinearLeaves(hasher: Mutation -> Hash, vertices: map<Hash, Mutation>, edges: set<Edge>,
                     mutations: set<Hash>, history: seq<Mutation>)
    requires LinearLog(hasher, vertices, edges, mutations, history)
    requires Distinct(HashSeq(hasher, history)) && mutations == Hashes(hasher, history)
    ensures history == [] ==> Unreferenced(vertices.Keys, edges) == {}
    ensures history != [] ==> Unreferenced(vertices.Keys, edges) == {hasher(history[|history| - 1])}
  {
    var hs := HashSeq(hasher, history);
    LinearVertices(hasher, vertices, history);
    ChainLeaves(hs, vertices.Keys);
  }

  /** A linear log can be imported into an empty map: its hashes are
      distinct and no mutation names itself as a parent. */
  lemma LinearFresh(hasher: Mutation -> Hash, vertices: map<Hash, Mutation>, edges: set<Edge>,
                    mutations: set<Hash>, history: seq<Mutation>)
    requires LinearLog(hasher, vertices, edges, mutations, history)
    requires Distinct(HashSeq(hasher, history))
    ensures FreshLog(hasher, {}, history)
  {
    var hs := HashSeq(hasher, history);
    forall i | 0 <= i < |history|
      ensures hasher(history[i]) !in history[i].parents
    {
      if i > 0 {
        assert hs[i - 1] != hs[i];
      }
    }
  }

  /** The parents of a local mutation appended to a linear log: the last
      mutation applied, or none for the first. */
  lemma LinearParents(hasher: Mutation -> Hash, vertices: map<Hash, Mutation>, edges: set<Edge>,
                      mutations: set<Hash>, history: seq<Mutation>, mu: Mutation)
    requires LinearLog(hasher, vertices, edges, mutations, history)
    requires Distinct(HashSeq(hasher, history)) && mutations == Hashes(hasher, history)
    requires Distinct(mu.parents) && forall p :: p in mu.parents <==> p in Unreferenced(vertices.Keys, edges)
    ensures mu.parents == ChainParents(hasher, history + [mu], |history|)
  {
    LinearLeaves(hasher, vertices, edges, mutations, history);
    DistinctOfSet(mu.parents, Unreferenced(vertices.Keys, edges));
  }

  /** A local mutation with a new hash, whose parents are the leaves of a
      linear log, keeps it linear once logged and applied. */
  lemma LinearAppend(hasher: Mutation -> Hash, vertices: map<Hash, Mutation>, edges: set<Edge>,
                     mutations: set<Hash>, history: seq<Mutation>, mu: Mutation)
    requires LinearLog(hasher, vertices, edges, mutations, history)
    requires Distinct(HashSeq(hasher, history)) && mutations == Hashes(hasher, history)
    requires hasher(mu) !in vertices
    requires Distinct(mu.parents) && forall p :: p in mu.parents <==> p in Unreferenced(vertices.Keys, edges)
    ensures var vs := AddVertex(vertices, hasher(mu), mu);
            LinearLog(hasher, vs, AddEdges(vs.Keys, edges, hasher(mu), mu.parents),
                      mutations + {hasher(mu)}, history + [mu])
  {
    var h := hasher(mu);
    var history' := history + [mu];
    LinearParents(hasher, vertices, edges, mutations, history, mu);
    LinearChainEdges(hasher, vertices, edges, history, mu);
    forall i | 0 <= i < |history'|
      ensures history'[i].parents == ChainParents(hasher, history', i)
    {
      if i < |history| {
        assert history'[i] == history[i];
        if i > 0 {
          assert history'[i - 1] == history[i - 1];
        }
      }
    }
  }

  /** The edges after logging a mutation whose parents are the last mutation
      of a chain, or none, are the longer chain. */
  lemma LinearChainEdges(hasher: Mutation -> Hash, vertices: map<Hash, Mutation>, edges: set<Edge>,
                         history: seq<Mutation>, mu: Mutation)
    requires edges == ChainEdges(HashSeq(hasher, history))
    requires vertices.Keys == Hashes(hasher, history)
    requires mu.parents == ChainParents(hasher, history + [mu], |history|)
    ensures var vs := AddVertex(vertices, hasher(mu), mu);
            AddEdges(vs.Keys, edges, hasher(mu), mu.parents) == ChainEdges(HashSeq(hasher, history + [mu]))
  {
    var h := hasher(mu);
    var hs := HashSeq(hasher, history);
    var vs := AddVertex(vertices, h, mu);
    assert HashSeq(hasher, history + [mu]) == hs + [h];
    ChainExtend(hs, h);
    if history != [] {
      var last := history[|history| - 1];
      assert (history + [mu])[|history| - 1] == last;
      assert last in history;
      assert hs[|hs| - 1] == hasher(last);
      assert mu.parents == [hasher(last)];
    }
  }

  /** Extending a prefix by the next element. */
  lemma PrefixStep(front: seq<Mutation>, ms: seq<Mutation>, i: nat)
    requires i < |ms|
    ensures front + ms[..i] + [ms[i]] == front + ms[..i + 1]
  {
    assert ms[..i + 1] == ms[..i] + [ms[i]];
  }

  /** The empty log: nothing applied, no vertex, no edge, and it sorts. */
  lemma EmptyLog(hasher: Mutation -> Hash)
    ensures HashSeq(hasher, []) == [] && Distinct([])
    ensures Hashes(hasher, []) == {} && Replay([]) == map[]
    ensures ChainEdges([]) == {} && Within({}, {}) && Sortable({}, {})
    ensures LinearLog(hasher, map[], {}, {}, [])
  {
    assert IsTopologicalOrder([], {}, {});
    assert HashSeq(hasher, []) == [];
    forall e | e in ChainEdges([])
      ensures false
    {
    }
    forall h | h in Hashes(hasher, [])
      ensures false
    {
    }
  }

  /** A counter step of a uint64: `sequence++` wraps to 0 after the largest
      value. */
  function Inc(s: uint64): (r: uint64)
    ensures s as int + 1 < 0x1_0000_0000_0000_0000 ==> r as int == s as int + 1
    ensures s as int + 1 == 0x1_0000_0000_0000_0000 ==> r == 0
  {
    if s == 0xffff_ffff_ffff_ffff then 0 else s + 1
  }

  class ORSetMap {

    /** The content hash of a mutation; the log keys its vertices by it too. */
    const hasher: Mutation -> Hash
    /** The local counter from which `Add` draws its tags. */
    var sequence: uint64
    /** The hashes of the mutations already applied to `elements`. */
    var mutations: set<Hash>
    /** The materialized view. */
    var elements: Elements
    /** The causal log: each mutation under its hash ... */
    var vertices: map<Hash, Mutation>
    /** ... and an edge from each mutation to each of its parents. */
    var edges: set<Edge>
    /** The mutations applied to `elements`, in the order they were applied. */
    ghost var history: seq<Mutation>

    /** The view is the replay of the applied mutations, each applied once. */
    ghost predicate Merged()
      reads this
    {
      && Distinct(HashSeq(hasher, history))
      && mutations == Hashes(hasher, history)
      && elements == Replay(history)
    }

    /** The invariant of a map used through its public operations: the view
        is merged from logged mutations only, and once the log has no cycle
        every logged mutation has been applied. */
    ghost predicate Valid()
      reads this
    {
      && Merged()
      && KeyedBy(hasher, vertices)
      && Within(vertices.Keys, edges)
      && (forall m :: m in history ==> hasher(m) in vertices && vertices[hasher(m)] == m)
      && (Sortable(vertices.Keys, edges) ==> mutations == vertices.Keys)
    }

    /** The map has only ever written locally, each time with a new hash. */
    ghost predicate Linear()
      reads this
    {
      LinearLog(hasher, vertices, edges, mutations, history)
    }

    /** `NewORSetMap`, with the hash function as a parameter. */
    constructor (hasher: Mutation -> Hash)
      ensures Valid()
      ensures this.hasher == hasher && sequence == 0 && mutations == {} && elements == map[]
      ensures vertices == map[] && edges == {} && history == []
      ensures Linear() && Sortable(vertices.Keys, edges)
    {
      this.hasher := hasher;
      sequence := 0;
      mutations := {};
      elements := map[];
      vertices := map[];
      edges := {};
      history := [];
      EmptyLog(hasher);
    }

    /** One operation of `applyMutation`, changing the view in place. */
    method ApplyOperationInPlace(op: Operation)
      modifies `elements
      ensures elements == ApplyOperation(old(elements), op)
    {
      match op.kind {
        case AddOperation =>
          if op.key !in elements {
            elements := elements[op.key := map[]];
          }
          var slots := elements[op.key];
          ghost var initial := slots;
          var rest := op.tags;
          while rest != {}
            invariant rest <= op.tags
            invariant slots == AddTags(initial, op.tags - rest, op.value)
            decreases rest
          {
            var tag :| tag in rest;
            slots := slots[tag := ValueDetail(op.value, false)];
            rest := rest - {tag};
          }
          assert op.tags - rest == op.tags;
          elements := elements[op.key := slots];
        case RemoveOperation =>
          if op.key in elements {
            var slots := elements[op.key];
            ghost var initial := slots;
            var rest := op.tags;
            while rest != {}
              invariant rest <= op.tags
              invariant slots == TombstoneTags(initial, op.tags - rest)
              decreases rest
            {
              var tag :| tag in rest;
              if tag in slots {
                slots := slots[tag := ValueDetail(slots[tag].value, true)];
              }
              rest := rest - {tag};
            }
            assert op.tags - rest == op.tags;
            elements := elements[op.key := slots];
          }
        case OtherOperation(_) =>
      }
    }

    /** `applyMutation`: a mutation whose hash is already recorded is skipped;
        otherwise its hash is recorded and its operations are applied in
        order. */
    method ApplyMutation(mu: Mutation)
      requires Merged()
      modifies `mutations, `elements, `history
      ensures Merged()
      ensures hasher(mu) in old(mutations) ==>
                mutations == old(mutations) && history == old(history) && elements == old(elements)
      ensures hasher(mu) !in old(mutations) ==>
                && mutations == old(mutations) + {hasher(mu)}
                && history == old(history) + [mu]
                && elements == ApplyOperations(old(elements), mu.operations)
    {
      var h := hasher(mu);
      if h in mutations {
        return;
      }
      MergedStep(hasher, history, mutations, elements, mu);
      mutations := mutations + {h};
      history := history + [mu];
      ApplyOperationsInPlace(mu.operations);
    }

    /** The loop of `applyMutation` over the operations of one mutation. */
    method ApplyOperationsInPlace(ops: seq<Operation>)
      modifies `elements
      ensures elements == ApplyOperations(old(elements), ops)
    {
      var i := 0;
      while i < |ops|
        invariant 0 <= i <= |ops|
        invariant elements == ApplyOperations(old(elements), ops[..i])
      {
        assert ops[..i + 1][..i] == ops[..i];
        ApplyOperationInPlace(ops[i]);
        i := i + 1;
      }
      assert ops[..i] == ops;
    }

    /** `getLeaves`: every vertex that no vertex points to, once each, in
        some order.  These are the mutations nothing has been built on. */
    method GetLeaves() returns (leaves: seq<Hash>)
      ensures Distinct(leaves)
      ensures forall v :: v in leaves <==> v in Unreferenced(vertices.Keys, edges)
    {
      var found := vertices.Keys;
      var sources := vertices.Keys;
      while sources != {}
        invariant sources <= vertices.Keys
        invariant found == vertices.Keys - TargetsFrom(edges, vertices.Keys - sources)
        decreases sources
      {
        var u :| u in sources;
        var targets := TargetsFrom(edges, {u});
        ghost var before := found;
        while targets != {}
          invariant targets <= TargetsFrom(edges, {u})
          invariant found == before - (TargetsFrom(edges, {u}) - targets)
          decreases targets
        {
          var t :| t in targets;
          found := found - {t};
          targets := targets - {t};
        }
        assert TargetsFrom(edges, vertices.Keys - (sources - {u}))
            == TargetsFrom(edges, vertices.Keys - sources) + TargetsFrom(edges, {u});
        sources := sources - {u};
      }
      forall v | v in vertices.Keys
        ensures v in found <==> v in Unreferenced(vertices.Keys, edges)
      {
        if v !in found {
          var e :| e in edges && e.0 in vertices.Keys && e.1 == v;
        }
      }
      leaves := [];
      var rest := found;
      while rest != {}
        invariant rest <= found
        invariant Distinct(leaves)
        invariant forall v :: v in leaves <==> v in found && v !in rest
        decreases rest
      {
        var v :| v in rest;
        leaves := leaves + [v];
        rest := rest - {v};
      }
    }

    /** `gerOrderedMutations`: the logged mutations in a topological order of
        the log reversed, so that every parent comes before its children; no
        order when the log has a cycle.  `order` is the matching sequence of
        hashes. */
    method OrderedMutations() returns (r: Option<seq<Mutation>>, ghost order: seq<Hash>)
      ensures r.None? <==> !Sortable(vertices.Keys, edges)
      ensures r.Some? ==> && IsReverseTopologicalOrder(order, vertices.Keys, edges)
                          && |r.value| == |order|
                          && forall k :: 0 <= k < |order| ==> r.value[k] == vertices[order[k]]
    {
      var sorted := TopologicalSort(vertices.Keys, edges);
      if sorted.None? {
        return None, [];
      }
      var hashes := sorted.value;
      var n := |hashes|;
      order := seq(n, k requires 0 <= k < n => hashes[n - 1 - k]);
      ReverseOfTopological(hashes, order, vertices.Keys, edges);
      var log := LookUp(hashes);
      var reversed := ReversedCopy(log);
      r := Some(reversed);
    }

    /** The loop of `gerOrderedMutations` fetching the mutation stored under
        each hash. */
    method LookUp(hashes: seq<Hash>) returns (log: seq<Mutation>)
      requires forall h :: h in hashes ==> h in vertices
      ensures |log| == |hashes|
      ensures forall k :: 0 <= k < |hashes| ==> log[k] == vertices[hashes[k]]
    {
      log := [];
      var i := 0;
      while i < |hashes|
        invariant 0 <= i <= |hashes| && |log| == i
        invariant forall k :: 0 <= k < i ==> log[k] == vertices[hashes[k]]
      {
        log := log + [vertices[hashes[i]]];
        i := i + 1;
      }
    }

    /** The first loop of `appendMutation`: add each mutation as a vertex
        (kept as it is when its hash is already there), then an edge from it
        to each of its parents. */
    method LogMutations(mus: seq<Mutation>)
      modifies `vertices, `edges
      ensures (vertices, edges) == Logged(hasher, old(vertices), old(edges), mus)
    {
      var i := 0;
      while i < |mus|
        invariant 0 <= i <= |mus|
        invariant vertices == Logged(hasher, old(vertices), old(edges), mus[..i]).0
        invariant edges == Logged(hasher, old(vertices), old(edges), mus[..i]).1
      {
        var mu := mus[i];
        var h := hasher(mu);
        LoggedStep(hasher, old(vertices), old(edges), mus, i);
        vertices := AddVertex(vertices, h, mu);
        LinkParents(h, mu.parents);
        i := i + 1;
      }
      assert mus[..i] == mus;
    }

    /** The inner loop of that first loop: an edge from `h` to each parent
        in turn. */
    method LinkParents(h: Hash, parents: seq<Hash>)
      modifies `edges
      ensures edges == AddEdges(vertices.Keys, old(edges), h, parents)
    {
      var j := 0;
      while j < |parents|
        invariant 0 <= j <= |parents|
        invariant edges == AddEdges(vertices.Keys, old(edges), h, parents[..j])
      {
        assert parents[..j + 1][..j] == parents[..j];
        edges := AddEdge(vertices.Keys, edges, h, parents[j]);
        j := j + 1;
      }
      assert parents[..j] == parents;
    }

    /** `replay` lists every logged mutation once, each parent before its
        children. */
    ghost predicate IsReplayOrder(replay: seq<Mutation>)
      reads this
    {
      && IsReverseTopologicalOrder(HashSeq(hasher, replay), vertices.Keys, edges)
      && (forall m :: m in replay ==> hasher(m) in vertices && vertices[hasher(m)] == m)
    }

    /** The second loop of `appendMutation`: look up each mutation of `log`
        in the log by its hash and apply it; those already applied are
        skipped. */
    method ApplyInOrder(log: seq<Mutation>)
      requires Merged()
      requires forall m :: m in history ==> hasher(m) in vertices && vertices[hasher(m)] == m
      requires Distinct(HashSeq(hasher, log))
      requires forall m :: m in log ==> hasher(m) in vertices && vertices[hasher(m)] == m
      modifies `mutations, `elements, `history
      ensures Merged()
      ensures forall m :: m in history ==> hasher(m) in vertices && vertices[hasher(m)] == m
      ensures history == old(history) + Unapplied(hasher, log, old(mutations))
    {
      var i := 0;
      while i < |log|
        invariant 0 <= i <= |log|
        invariant Merged()
        invariant forall m :: m in history ==> hasher(m) in vertices && vertices[hasher(m)] == m
        invariant history == old(history) + Unapplied(hasher, log[..i], old(mutations))
        invariant mutations == old(mutations) + Hashes(hasher, Unapplied(hasher, log[..i], old(mutations)))
      {
        ApplyNext(log, i, old(mutations), old(history));
        i := i + 1;
      }
      assert log[..i] == log;
    }

    /** One step of the second loop of `appendMutation`: apply the mutation
        stored under the hash of `log[i]`, which is `log[i]` itself. */
    method ApplyNext(log: seq<Mutation>, i: nat, ghost done: set<Hash>, ghost history0: seq<Mutation>)
      requires i < |log| && Merged()
      requires forall m :: m in history ==> hasher(m) in vertices && vertices[hasher(m)] == m
      requires Distinct(HashSeq(hasher, log))
      requires forall m :: m in log ==> hasher(m) in vertices && vertices[hasher(m)] == m
      requires history == history0 + Unapplied(hasher, log[..i], done)
      requires mutations == done + Hashes(hasher, Unapplied(hasher, log[..i], done))
      modifies `mutations, `elements, `history
      ensures Merged()
      ensures forall m :: m in history ==> hasher(m) in vertices && vertices[hasher(m)] == m
      ensures history == history0 + Unapplied(hasher, log[..i + 1], done)
      ensures mutations == done + Hashes(hasher, Unapplied(hasher, log[..i + 1], done))
    {
      assert log[i] in log;
      var mu := vertices[hasher(log[i])];
      ghost var history1, mutations1 := history, mutations;
      ApplyMutation(mu);
      UnappliedApplied(hasher, log, i, done, history0, history1, mutations1, history, mutations);
    }

    /** The rest of `appendMutation` after logging: sort the log and, when
        that succeeds, apply the mutations in the order it gives. */
    method ReplayLog() returns (ghost replay: seq<Mutation>)
      requires Merged() && KeyedBy(hasher, vertices) && Within(vertices.Keys, edges)
      requires forall m :: m in history ==> hasher(m) in vertices && vertices[hasher(m)] == m
      requires mutations <= vertices.Keys
      modifies `mutations, `elements, `history
      ensures Valid()
      ensures !Sortable(vertices.Keys, edges) ==>
                mutations == old(mutations) && history == old(history) && elements == old(elements)
      ensures Sortable(vertices.Keys, edges) ==>
                && IsReplayOrder(replay)
                && history == old(history) + Unapplied(hasher, replay, old(mutations))
    {
      var log;
      ghost var order;
      log, order := OrderedMutations();
      if log.None? {
        replay := [];
        return;
      }
      replay := log.value;
      assert HashSeq(hasher, replay) == order;
      forall m | m in replay
        ensures hasher(m) in vertices && vertices[hasher(m)] == m
      {
        var k :| 0 <= k < |replay| && replay[k] == m;
      }
      ApplyInOrder(log.value);
      UnappliedHashes(hasher, replay, old(mutations));
      HashesConcat(hasher, old(history), Unapplied(hasher, replay, old(mutations)));
      HashesListed(hasher, replay);
      assert Hashes(hasher, replay) == vertices.Keys;
    }

    /** `appendMutation`: log every mutation with its parent edges, then, if
        the log has a topological order, apply every logged mutation not yet
        applied, parents first.  On a cycle the sort fails and nothing is
        applied (the error is returned to callers that discard it).
        `replay` is the order the second loop walks. */
    method AppendMutation(mus: seq<Mutation>) returns (ghost replay: seq<Mutation>)
      requires Valid()
      modifies this
      ensures Valid()
      ensures sequence == old(sequence)
      ensures (vertices, edges) == Logged(hasher, old(vertices), old(edges), mus)
      ensures !Sortable(vertices.Keys, edges) ==>
                mutations == old(mutations) && history == old(history) && elements == old(elements)
      ensures Sortable(vertices.Keys, edges) ==>
                && IsReplayOrder(replay)
                && history == old(history) + Unapplied(hasher, replay, old(mutations))
    {
      AppliedAreLogged();
      LogMutations(mus);
      LoggedGrows(hasher, old(vertices), old(edges), mus);
      replay := ReplayLog();
    }

    /** Appending one mutation, read off the contract of `AppendMutation`: an
        already logged hash changes nothing that is applied, and a new one
        appended to a log without a cycle is applied, and only it. */
    lemma AppendedOne(mu: Mutation, replay: seq<Mutation>, vertices0: map<Hash, Mutation>, edges0: set<Edge>,
                      mutations0: set<Hash>, history0: seq<Mutation>, elements0: Elements)
      requires Valid()
      requires Within(vertices0.Keys, edges0)
      requires mutations0 == Hashes(hasher, history0) && elements0 == Replay(history0)
      requires Sortable(vertices0.Keys, edges0) ==> mutations0 == vertices0.Keys
      requires (vertices, edges) == Logged(hasher, vertices0, edges0, [mu])
      requires !Sortable(vertices.Keys, edges) ==>
                 mutations == mutations0 && history == history0 && elements == elements0
      requires Sortable(vertices.Keys, edges) ==>
                 && IsReplayOrder(replay)
                 && history == history0 + Unapplied(hasher, replay, mutations0)
      ensures hasher(mu) in vertices0 ==>
                mutations == mutations0 && history == history0 && elements == elements0
      ensures hasher(mu) !in vertices0 && hasher(mu) !in mu.parents && Sortable(vertices0.Keys, edges0) ==>
                && Sortable(vertices.Keys, edges)
                && mutations == vertices.Keys
                && history == history0 + [mu]
                && elements == ApplyOperations(elements0, mu.operations)
    {
      if hasher(mu) in vertices0 {
        KnownAppend([mu], replay, vertices0, edges0, mutations0);
      }
      if hasher(mu) !in vertices0 && hasher(mu) !in mu.parents && Sortable(vertices0.Keys, edges0) {
        FreshAppend(mu, replay, vertices0, edges0, mutations0, history0);
      }
    }

    /** When the appended mutation is new and the log sorted before, it still
        sorts and the replay applies exactly the new mutation. */
    lemma FreshAppend(mu: Mutation, replay: seq<Mutation>, vertices0: map<Hash, Mutation>,
                      edges0: set<Edge>, mutations0: set<Hash>, history0: seq<Mutation>)
      requires Merged()
      requires hasher(mu) !in vertices0 && hasher(mu) !in mu.parents
      requires Sortable(vertices0.Keys, edges0) && Within(vertices0.Keys, edges0)
      requires mutations0 == vertices0.Keys
      requires (vertices, edges) == Logged(hasher, vertices0, edges0, [mu])
      requires Sortable(vertices.Keys, edges) ==>
                 && IsReplayOrder(replay)
                 && history == history0 + Unapplied(hasher, replay, mutations0)
      ensures Sortable(vertices.Keys, edges)
      ensures history == history0 + [mu]
      ensures elements == ApplyOperations(Replay(history0), mu.operations)
    {
      FreshAppendSortable(hasher, vertices0, edges0, mu);
      ReplayOnly(hasher, replay, vertices, edges, mutations0, mu);
      assert history[..|history| - 1] == history0;
    }

    /** When every appended hash was already logged the vertex set is the
        same; if the log still sorts, it sorted before, so everything in it
        had been applied already. */
    lemma KnownAppend(mus: seq<Mutation>, replay: seq<Mutation>, vertices0: map<Hash, Mutation>,
                      edges0: set<Edge>, mutations0: set<Hash>)
      requires Valid()
      requires forall m :: m in mus ==> hasher(m) in vertices0
      requires (vertices, edges) == Logged(hasher, vertices0, edges0, mus)
      requires Sortable(vertices0.Keys, edges0) ==> mutations0 == vertices0.Keys
      requires Sortable(vertices.Keys, edges) ==> IsReplayOrder(replay)
      ensures Sortable(vertices.Keys, edges) ==> Unapplied(hasher, replay, mutations0) == []
    {
      LoggedGrows(hasher, vertices0, edges0, mus);
      if Sortable(vertices.Keys, edges) {
        forall h | h in HashSeq(hasher, mus)
          ensures h in vertices0
        {
          var k :| 0 <= k < |mus| && HashSeq(hasher, mus)[k] == h;
          assert mus[k] in mus;
        }
        assert vertices.Keys == vertices0.Keys;
        SortableSubgraph(vertices0.Keys, edges0, edges);
        ReplayNone(hasher, replay, vertices.Keys, edges, mutations0);
      }
    }

    /** The tail shared by `Add` and `Remove`: take the current leaves as
        parents, wrap `op` into a local mutation (no owner) and append it.
        A new mutation becomes the only leaf; one whose hash is already
        logged changes nothing that is applied. */
    method Commit(op: Operation) returns (ghost mu: Mutation)
      requires Valid()
      modifies this
      ensures Valid() && sequence == old(sequence)
      ensures mu.operations == [op] && mu.owner == ""
      ensures Distinct(mu.parents)
      ensures forall p :: p in mu.parents <==> p in Unreferenced(old(vertices).Keys, old(edges))
      ensures vertices == AddVertex(old(vertices), hasher(mu), mu)
      ensures edges == AddEdges(vertices.Keys, old(edges), hasher(mu), mu.parents)
      ensures hasher(mu) !in old(vertices) ==> Unreferenced(vertices.Keys, edges) == {hasher(mu)}
      ensures old(Linear()) ==> mu.parents == ChainParents(hasher, old(history) + [mu], |old(history)|)
      ensures old(Linear()) && hasher(mu) !in old(vertices) ==> Linear()
      ensures hasher(mu) in old(vertices) ==>
                mutations == old(mutations) && history == old(history) && elements == old(elements)
      ensures !Sortable(old(vertices).Keys, old(edges)) ==> !Sortable(vertices.Keys, edges)
      ensures !Sortable(vertices.Keys, edges) ==>
                mutations == old(mutations) && history == old(history) && elements == old(elements)
      ensures hasher(mu) !in old(vertices) && Sortable(old(vertices).Keys, old(edges)) ==>
                && Sortable(vertices.Keys, edges)
                && mutations == vertices.Keys
                && history == old(history) + [mu]
                && elements == ApplyOperation(old(elements), op)
    {
      var leaves := GetLeaves();
      var m := Mutation([op], leaves, "");
      mu := m;
      ghost var vertices0, edges0, mutations0, history0, elements0 := vertices, edges, mutations, history, elements;
      ghost var replay := AppendMutation([m]);
      AppendedOne(m, replay, vertices0, edges0, mutations0, history0, elements0);
      assert [op][..0] == [];
      LoggedStep(hasher, vertices0, edges0, [m], 0);
      assert [m][..0] == [] && [m][..1] == [m];
      if hasher(m) !in vertices0 {
        FreshLeaf(vertices0.Keys, edges0, hasher(m), leaves);
      }
      if Sortable(vertices.Keys, edges) {
        SortableWithoutVertex(vertices0.Keys, hasher(m), edges0, edges);
      }
      if LinearLog(hasher, vertices0, edges0, mutations0, history0) {
        LinearParents(hasher, vertices0, edges0, mutations0, history0, m);
        LinearOrder(hasher, vertices0, edges0, mutations0, history0);
        if hasher(m) !in vertices0 {
          LinearAppend(hasher, vertices0, edges0, mutations0, history0, m);
        }
      }
    }

    /** `Add`: bump the counter, then append a mutation holding one Add of
        `value` under `key` tagged with the new counter value, whose parents
        are the current leaves.  `now` stands for the wall-clock time. */
    method Add(key: string, value: Value, now: int) returns (ghost mu: Mutation)
      requires Valid()
      modifies this
      ensures Valid()
      ensures sequence == Inc(old(sequence))
      ensures mu.operations == [Operation(AddOperation, key, value, {Tag(sequence)}, now)] && mu.owner == ""
      ensures Distinct(mu.parents)
      ensures forall p :: p in mu.parents <==> p in Unreferenced(old(vertices).Keys, old(edges))
      ensures vertices == AddVertex(old(vertices), hasher(mu), mu)
      ensures edges == AddEdges(vertices.Keys, old(edges), hasher(mu), mu.parents)
      ensures hasher(mu) !in old(vertices) ==> Unreferenced(vertices.Keys, edges) == {hasher(mu)}
      ensures old(Linear()) ==> mu.parents == ChainParents(hasher, old(history) + [mu], |old(history)|)
      ensures old(Linear()) && hasher(mu) !in old(vertices) ==> Linear()
      ensures hasher(mu) in old(vertices) ==> history == old(history) && elements == old(elements)
      ensures !Sortable(old(vertices).Keys, old(edges)) ==> !Sortable(vertices.Keys, edges)
      ensures !Sortable(vertices.Keys, edges) ==> history == old(history) && elements == old(elements)
      ensures hasher(mu) !in old(vertices) && Sortable(old(vertices).Keys, old(edges)) ==>
                && Sortable(vertices.Keys, edges)
                && history == old(history) + [mu]
                && elements == ApplyOperation(old(elements), mu.operations[0])
                && key in elements && HasLiveTag(elements[key])
      ensures hasher(mu) !in old(vertices) && Sortable(old(vertices).Keys, old(edges))
              && 0 < sequence < 0x8000_0000_0000_0000
              && (key in old(elements) ==> forall u :: u in old(elements)[key] ==> u.sequence < sequence) ==>
                ResolvedValue(elements[key]) == value
    {
      sequence := Inc(sequence);
      var op := Operation(AddOperation, key, value, {Tag(sequence)}, now);
      ghost var elements0 := elements;
      mu := Commit(op);
      AddMakesLive(elements0, op, Tag(sequence));
      if 0 < sequence < 0x8000_0000_0000_0000
         && (key in elements0 ==> forall u: Tag :: u in elements0[key] ==> u.sequence < sequence) {
        NewestAddWins(elements0, op, Tag(sequence));
      }
    }

    /** `Remove`: append a mutation holding one Remove of `key` that carries
        every tag recorded under it, whose parents are the current leaves.
        Once applied, the key is no longer contained. */
    method Remove(key: string, now: int) returns (ghost mu: Mutation)
      requires Valid()
      modifies this
      ensures Valid()
      ensures sequence == old(sequence)
      ensures mu.operations == [Operation(RemoveOperation, key, None, RecordedTags(old(elements), key), now)]
      ensures mu.owner == ""
      ensures Distinct(mu.parents)
      ensures forall p :: p in mu.parents <==> p in Unreferenced(old(vertices).Keys, old(edges))
      ensures vertices == AddVertex(old(vertices), hasher(mu), mu)
      ensures edges == AddEdges(vertices.Keys, old(edges), hasher(mu), mu.parents)
      ensures hasher(mu) !in old(vertices) ==> Unreferenced(vertices.Keys, edges) == {hasher(mu)}
      ensures old(Linear()) ==> mu.parents == ChainParents(hasher, old(history) + [mu], |old(history)|)
      ensures old(Linear()) && hasher(mu) !in old(vertices) ==> Linear()
      ensures hasher(mu) in old(vertices) ==> history == old(history) && elements == old(elements)
      ensures !Sortable(old(vertices).Keys, old(edges)) ==> !Sortable(vertices.Keys, edges)
      ensures !Sortable(vertices.Keys, edges) ==> history == old(history) && elements == old(elements)
      ensures hasher(mu) !in old(vertices) && Sortable(old(vertices).Keys, old(edges)) ==>
                && Sortable(vertices.Keys, edges)
                && history == old(history) + [mu]
                && elements == ApplyOperation(old(elements), mu.operations[0])
                && !(key in elements && HasLiveTag(elements[key]))
    {
      var tags: set<Tag> := {};
      if key in elements {
        var rest := elements[key].Keys;
        while rest != {}
          invariant rest <= elements[key].Keys
          invariant tags == elements[key].Keys - rest
          decreases rest
        {
          var t :| t in rest;
          tags := tags + {t};
          rest := rest - {t};
        }
      }
      assert tags == RecordedTags(elements, key);
      var op := Operation(RemoveOperation, key, None, tags, now);
      ghost var elements0 := elements;
      mu := Commit(op);
      RemoveAllRecorded(elements0, op);
    }

    /** `Contains`: the key has a slot that is not tombstoned. */
    method Contains(key: string) returns (b: bool)
      ensures b <==> key in elements && HasLiveTag(elements[key])
    {
      if key !in elements {
        return false;
      }
      var slots := elements[key];
      var rest := slots.Keys;
      while rest != {}
        invariant rest <= slots.Keys
        invariant forall t :: t in slots && t !in rest ==> slots[t].tombstone
        decreases rest
      {
        var t :| t in rest;
        if !slots[t].tombstone {
          assert IsLive(slots, t);
          return true;
        }
        rest := rest - {t};
      }
      return false;
    }

    /** `Get`: nil for an unknown key, otherwise the key's resolved value,
        which is never that of a tombstoned slot. */
    method Get(key: string) returns (v: Value)
      ensures key !in elements ==> v == None
      ensures key in elements ==> v == ResolvedValue(elements[key])
      ensures v.Some? ==> key in elements && HasLiveTag(elements[key])
    {
      if key !in elements {
        return None;
      }
      v := Resolve(elements[key]);
      if v.Some? {
        ResolvedIsLive(elements[key]);
      }
    }

    /** `List`: every key whose resolved value is not nil, with that value;
        each listed key is contained. */
    method List() returns (result: map<string, Scalar>)
      ensures result == Visible(elements)
      ensures forall k :: k in result ==> k in elements && HasLiveTag(elements[k])
    {
      result := map[];
      var keys := elements.Keys;
      while keys != {}
        invariant keys <= elements.Keys
        invariant result == map k | k in elements && k !in keys && ResolvedValue(elements[k]).Some?
                                 :: ResolvedValue(elements[k]).value
        decreases keys
      {
        var key :| key in keys;
        var value := Resolve(elements[key]);
        if value.Some? {
          result := result[key := value.value];
        }
        keys := keys - {key};
      }
      forall k | k in result
        ensures k in elements && HasLiveTag(elements[k])
      {
        ResolvedIsLive(elements[k]);
      }
    }

    /** `ExportLog`: the logged mutations with every parent before its
        children, or no log when it has a cycle.  In a valid map every
        exported mutation has already been applied. */
    method ExportLog() returns (r: Option<seq<Mutation>>, ghost order: seq<Hash>)
      requires Valid()
      ensures r.None? <==> !Sortable(vertices.Keys, edges)
      ensures r.Some? ==> && IsReverseTopologicalOrder(order, vertices.Keys, edges)
                          && |r.value| == |order|
                          && (forall k :: 0 <= k < |order| ==> r.value[k] == vertices[order[k]])
                          && Hashes(hasher, r.value) == mutations
      ensures Linear() ==> r == Some(history)
    {
      r, order := OrderedMutations();
      if r.Some? {
        assert HashSeq(hasher, r.value) == order;
        HashesListed(hasher, r.value);
      }
      if Linear() {
        LinearOrder(hasher, vertices, edges, mutations, history);
        LinearExported(r.value, order);
      }
    }

    /** The mutations listed in the one reverse topological order of a linear
        log are the history itself. */
    lemma LinearExported(exported: seq<Mutation>, order: seq<Hash>)
      requires Valid() && Linear()
      requires order == HashSeq(hasher, history)
      requires |exported| == |order| && forall k :: 0 <= k < |order| ==> exported[k] == vertices[order[k]]
      ensures exported == history
    {
      forall k | 0 <= k < |history|
        ensures exported[k] == history[k]
      {
        assert history[k] in history;
      }
    }

    /** `ImportLog`: append the mutations one at a time.  The log grows by all
        of them; when the map had no cycle and the imported mutations are
        new, have distinct hashes and do not name themselves as parents, they
        are applied in the order given. */
    method ImportLog(imported: seq<Mutation>)
      requires Valid()
      modifies this
      ensures Valid()
      ensures sequence == old(sequence)
      ensures (vertices, edges) == Logged(hasher, old(vertices), old(edges), imported)
      ensures Sortable(old(vertices).Keys, old(edges)) && FreshLog(hasher, old(vertices).Keys, imported) ==>
                && Sortable(vertices.Keys, edges)
                && history == old(history) + imported
    {
      ghost var vertices0, edges0, history0 := vertices, edges, history;
      ghost var clean := Sortable(vertices0.Keys, edges0) && FreshLog(hasher, vertices0.Keys, imported);
      var i := 0;
      while i < |imported|
        invariant 0 <= i <= |imported|
        invariant Valid() && sequence == old(sequence)
        invariant vertices == Logged(hasher, vertices0, edges0, imported[..i]).0
        invariant edges == Logged(hasher, vertices0, edges0, imported[..i]).1
        invariant clean ==> Sortable(vertices.Keys, edges) && history == history0 + imported[..i]
      {
        ImportOne(imported, i, vertices0, edges0, history0);
        i := i + 1;
      }
      assert imported[..i] == imported;
    }

    /** One step of `ImportLog`: append `imported[i]` to the log built from
        the mutations before it. */
    method ImportOne(imported: seq<Mutation>, i: nat, ghost vertices0: map<Hash, Mutation>,
                     ghost edges0: set<Edge>, ghost history0: seq<Mutation>)
      requires Valid() && i < |imported|
      requires vertices == Logged(hasher, vertices0, edges0, imported[..i]).0
      requires edges == Logged(hasher, vertices0, edges0, imported[..i]).1
      requires Sortable(vertices0.Keys, edges0) && FreshLog(hasher, vertices0.Keys, imported) ==>
                 && Sortable(vertices.Keys, edges)
                 && history == history0 + imported[..i]
      modifies this
      ensures Valid() && sequence == old(sequence)
      ensures vertices == Logged(hasher, vertices0, edges0, imported[..i + 1]).0
      ensures edges == Logged(hasher, vertices0, edges0, imported[..i + 1]).1
      ensures Sortable(vertices0.Keys, edges0) && FreshLog(hasher, vertices0.Keys, imported) ==>
                && Sortable(vertices.Keys, edges)
                && history == history0 + imported[..i + 1]
    {
      var mu := imported[i];
      ImportStep(imported, i, vertices0, edges0);
      ghost var v, e, m, h, el := vertices, edges, mutations, history, elements;
      ghost var replay := AppendMutation([mu]);
      AppendedOne(mu, replay, v, e, m, h, el);
      PrefixStep(history0, imported, i);
    }

    /** The facts one step of `ImportLog` needs about the log so far: one
        more mutation of a fresh log is new to it, and logging it extends the
        log of the prefix. */
    lemma ImportStep(imported: seq<Mutation>, i: nat, vertices0: map<Hash, Mutation>, edges0: set<Edge>)
      requires i < |imported|
      requires vertices == Logged(hasher, vertices0, edges0, imported[..i]).0
      requires edges == Logged(hasher, vertices0, edges0, imported[..i]).1
      ensures Logged(hasher, vertices, edges, [imported[i]]) == Logged(hasher, vertices0, edges0, imported[..i + 1])
      ensures FreshLog(hasher, vertices0.Keys, imported) ==>
                hasher(imported[i]) !in vertices && hasher(imported[i]) !in imported[i].parents
    {
      var mu := imported[i];
      LoggedStep(hasher, vertices, edges, [mu], 0);
      assert [mu][..0] == [] && [mu][..1] == [mu];
      LoggedStep(hasher, vertices0, edges0, imported, i);
      if FreshLog(hasher, vertices0.Keys, imported) {
        LoggedGrows(hasher, vertices0, edges0, imported[..i]);
        FreshNext(hasher, imported, i, vertices0.Keys);
      }
    }

    /** Every applied hash is a logged vertex. */
    lemma AppliedAreLogged()
      requires Valid()
      ensures mutations <= vertices.Keys
    {
      forall h | h in mutations
        ensures h in vertices
      {
        var m :| m in history && hasher(m) == h;
      }
    }
  }

  /** Replication by log, as a client does it: export the log of `a` and
      import it into a new map with the same hash function.  When `a` has
      only ever written locally, the copy applies the same mutations in the
      same order, so its view, and with it `Get`, `Contains` and `List`, is
      that of `a`. */
  method ReplicateByLog(a: ORSetMap) returns (b: ORSetMap)
    requires a.Valid() && a.Linear()
    ensures fresh(b) && b.Valid() && b.hasher == a.hasher
    ensures b.history == a.history && b.elements == a.elements
    ensures b.vertices.Keys == a.vertices.Keys
  {
    var log, order := a.ExportLog();
    LinearFresh(a.hasher, a.vertices, a.edges, a.mutations, a.history);
    b := new ORSetMap(a.hasher);
    assert IsTopologicalOrder([], b.vertices.Keys, b.edges);
    b.ImportLog(log.value);
    LoggedGrows(a.hasher, map[], {}, a.history);
    HashesListed(a.hasher, a.history);
  }

  /** The mutations of `log` in reverse order, reversed in place in an array
      as `gerOrderedMutations` does. */
  method ReversedCopy(log: seq<Mutation>) returns (r: seq<Mutation>)
    ensures |r| == |log|
    ensures forall k :: 0 <= k < |log| ==> r[k] == log[|log| - 1 - k]
  {
    var a := new Mutation[|log|](k requires 0 <= k < |log| => log[k]);
    ghost var before := a[..];
    assert before == log;
    Reverse(a);
    r := a[..];
    assert forall k :: 0 <= k < |log| ==> r[k] == before[|log| - 1 - k];
  }

  /** The reversal loop of `gerOrderedMutations`: swap the ends of the array
      inwards. */
  method Reverse(a: array<Mutation>)
    modifies a
    ensures forall k :: 0 <= k < a.Length ==> a[k] == old(a[a.Length - 1 - k])
  {
    var n := a.Length;
    var lo, hi := 0, n - 1;
    while lo < hi
      invariant 0 <= lo && lo + hi == n - 1 && lo <= hi + 1
      invariant forall k :: 0 <= k < lo ==> a[k] == old(a[n - 1 - k])
      invariant forall k :: hi < k < n ==> a[k] == old(a[n - 1 - k])
      invariant forall k :: lo <= k <= hi ==> a[k] == old(a[k])
    {
      a[lo], a[hi] := a[hi], a[lo];
      lo, hi := lo + 1, hi - 1;
    }
  }
}
