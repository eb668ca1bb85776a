/** The directed-graph store that holds the causal log, seen only through the
    operations the map uses: vertices keyed by their hash, directed edges
    `(source, target)`, edge insertion and the topological sort.

    The store is modelled as recording an edge only when both endpoints are
    already vertices.  The map creates it with the Acyclic option but not the
    option that refuses cycle-closing edges, and it discards every insertion
    error, so nothing here keeps the graph acyclic: a cycle shows up only as a
    failing topological sort.  The sort may break ties among unrelated vertices
    in any order; the one below picks any ready vertex. */
module Graph {

  import opened Wrappers

  /** Vertices are identified by the hash of the mutation they hold. */
  type Hash = string

  /** A directed edge `(source, target)`. */
  type Edge = (Hash, Hash)

  /** No element occurs twice. */
  ghost predicate Distinct(s: seq<Hash>)
  {
    forall i, j :: 0 <= i < j < |s| ==> s[i] != s[j]
  }

  /** `order` lists every vertex exactly once, and the source of every edge
      before its target. */
  ghost predicate IsTopologicalOrder(order: seq<Hash>, vs: set<Hash>, es: set<Edge>)
  {
    && Distinct(order)
    && (forall v :: v in order <==> v in vs)
    && (forall i, j :: 0 <= i < |order| && 0 <= j < |order| && (order[i], order[j]) in es ==> i < j)
  }

  /** `order` lists every vertex exactly once, and the target of every edge
      before its source: a topological order read backwards. */
  ghost predicate IsReverseTopologicalOrder(order: seq<Hash>, vs: set<Hash>, es: set<Edge>)
  {
    && Distinct(order)
    && (forall v :: v in order <==> v in vs)
    && (forall i, j :: 0 <= i < |order| && 0 <= j < |order| && (order[i], order[j]) in es ==> j < i)
  }

  /** The graph has no cycle: some topological order exists. */
  ghost predicate Sortable(vs: set<Hash>, es: set<Edge>)
  {
    exists order :: IsTopologicalOrder(order, vs, es)
  }

  /** Every edge joins two vertices. */
  ghost predicate Within(vs: set<Hash>, es: set<Edge>)
  {
    forall e :: e in es ==> e.0 in vs && e.1 in vs
  }

  /** Every vertex of `rest` has a predecessor in `rest`: no vertex of `rest`
      can be placed next. */
  ghost predicate Blocked(rest: set<Hash>, es: set<Edge>)
  {
    forall v :: v in rest ==> HasPredecessorIn(rest, es, v)
  }

  /** Some vertex of `rest` points to `v`. */
  ghost predicate HasPredecessorIn(rest: set<Hash>, es: set<Edge>, v: Hash)
  {
    exists u :: u in rest && (u, v) in es
  }

  /** A position at which `x` occurs in `s`. */
  lemma IndexOf(s: seq<Hash>, x: Hash) returns (i: nat)
    requires x in s
    ensures i < |s| && s[i] == x
  {
    i :| i < |s| && s[i] == x;
  }

  /** In a topological order no vertex of a blocked set occurs: the first of
      them would need a predecessor placed before it. */
  lemma {:induction false} BlockedAbsentAt(order: seq<Hash>, vs: set<Hash>, es: set<Edge>, rest: set<Hash>, i: nat)
    requires IsTopologicalOrder(order, vs, es)
    requires rest <= vs && Blocked(rest, es)
    requires i < |order|
    ensures order[i] !in rest
    decreases i
  {
    if order[i] in rest {
      var u :| u in rest && (u, order[i]) in es;
      var j := IndexOf(order, u);
      BlockedAbsentAt(order, vs, es, rest, j);
      assert false;
    }
  }

  /** A non-empty blocked set of vertices rules out every topological order. */
  lemma BlockedNotSortable(vs: set<Hash>, es: set<Edge>, rest: set<Hash>)
    requires rest <= vs && Blocked(rest, es)
    requires rest != {}
    ensures !Sortable(vs, es)
  {
    if Sortable(vs, es) {
      var order :| IsTopologicalOrder(order, vs, es);
      var v :| v in rest;
      var i := IndexOf(order, v);
      BlockedAbsentAt(order, vs, es, rest, i);
      assert false;
    }
  }

  /** The state of Kahn's algorithm: `order` is a topological order of the
      vertices placed so far, `rest` the vertices still to place, and every
      predecessor of a placed vertex is placed. */
  ghost predicate Placed(order: seq<Hash>, rest: set<Hash>, vs: set<Hash>, es: set<Edge>)
  {
    && rest <= vs
    && Distinct(order)
    && (forall v :: v in order <==> v in vs && v !in rest)
    && (forall i, j :: 0 <= i < |order| && 0 <= j < |order| && (order[i], order[j]) in es ==> i < j)
    && (forall u, v :: u in vs && v in order && (u, v) in es ==> u in order)
  }

  /** Placing a vertex with no predecessor among the remaining ones keeps the
      state of Kahn's algorithm. */
  lemma PlaceReady(order: seq<Hash>, rest: set<Hash>, vs: set<Hash>, es: set<Edge>, v: Hash)
    requires Placed(order, rest, vs, es)
    requires v in rest && forall u :: u in rest ==> (u, v) !in es
    ensures Placed(order + [v], rest - {v}, vs, es)
  {
    var o := order + [v];
    assert forall k :: 0 <= k < |order| ==> o[k] == order[k] && o[k] != v;
    assert o[|order|] == v;
  }

  /** The vertices of `rest` that no vertex of `rest` points to.  Kahn's
      algorithm places one of them next; in the causal log, whose edges run
      from a mutation to its parents, they are the leaves. */
  function Unreferenced(rest: set<Hash>, es: set<Edge>): (ready: set<Hash>)
    ensures ready <= rest
    ensures forall v :: v in ready ==> forall u :: u in rest ==> (u, v) !in es
  {
    set v | v in rest && forall u :: u in rest ==> (u, v) !in es
  }

  /** When no vertex is ready, every remaining vertex has a remaining
      predecessor. */
  lemma NothingReadyBlocked(rest: set<Hash>, es: set<Edge>)
    requires Unreferenced(rest, es) == {}
    ensures Blocked(rest, es)
  {
    forall v | v in rest
      ensures HasPredecessorIn(rest, es, v)
    {
      assert v !in Unreferenced(rest, es);
    }
  }

  /** Kahn's algorithm: repeatedly place a vertex none of whose remaining
      vertices points to it.  It fails exactly when the graph has a cycle. */
  method TopologicalSort(vs: set<Hash>, es: set<Edge>) returns (r: Option<seq<Hash>>)
    ensures r.Some? ==> IsTopologicalOrder(r.value, vs, es)
    ensures r.None? <==> !Sortable(vs, es)
  {
    var order: seq<Hash> := [];
    var rest := vs;
    while rest != {}
      invariant Placed(order, rest, vs, es)
      decreases rest
    {
      var ready := Unreferenced(rest, es);
      if ready == {} {
        NothingReadyBlocked(rest, es);
        BlockedNotSortable(vs, es, rest);
        return None;
      }
      var v :| v in ready;
      PlaceReady(order, rest, vs, es, v);
      order := order + [v];
      rest := rest - {v};
    }
    assert IsTopologicalOrder(order, vs, es);
    return Some(order);
  }

  /** The edge set after asking the store to add `(source, target)`: the edge
      is recorded when both endpoints are vertices, and otherwise the call
      fails and changes nothing. */
  function AddEdge(vs: set<Hash>, es: set<Edge>, source: Hash, target: Hash): (es': set<Edge>)
    ensures es <= es' <= es + {(source, target)}
    ensures (source, target) in es' <==> (source, target) in es || (source in vs && target in vs)
    ensures Within(vs, es) ==> Within(vs, es')
  {
    if source in vs && target in vs then es + {(source, target)} else es
  }

  /** Dropping edges keeps a topological order one. */
  lemma SortableSubgraph(vs: set<Hash>, es: set<Edge>, es': set<Edge>)
    requires es <= es' && Sortable(vs, es')
    ensures Sortable(vs, es)
  {
    var order :| IsTopologicalOrder(order, vs, es');
    assert IsTopologicalOrder(order, vs, es);
  }

  /** A graph that stays sortable after gaining a vertex and some edges was
      sortable before: dropping the new vertex from an order keeps it one.
      Read the other way, adding to a graph with a cycle never removes it. */
  lemma SortableWithoutVertex(vs: set<Hash>, h: Hash, es: set<Edge>, es': set<Edge>)
    requires es <= es' && Sortable(vs + {h}, es')
    ensures Sortable(vs, es)
  {
    var order' :| IsTopologicalOrder(order', vs + {h}, es');
    if h in vs {
      assert vs + {h} == vs;
      assert IsTopologicalOrder(order', vs, es);
    } else {
      var k := IndexOf(order', h);
      var order := order'[..k] + order'[k + 1..];
      assert forall i :: 0 <= i < |order| ==> order[i] == order'[if i < k then i else i + 1];
      forall v | v in vs
        ensures v in order
      {
        var j := IndexOf(order', v);
        assert order[if j < k then j else j - 1] == v;
      }
      assert IsTopologicalOrder(order, vs, es);
    }
  }

  /** Reading a topological order backwards puts every edge's target first. */
  lemma ReverseOfTopological(order: seq<Hash>, reversed: seq<Hash>, vs: set<Hash>, es: set<Edge>)
    requires IsTopologicalOrder(order, vs, es)
    requires |reversed| == |order|
    requires forall k :: 0 <= k < |order| ==> reversed[k] == order[|order| - 1 - k]
    ensures IsReverseTopologicalOrder(reversed, vs, es)
  {
    var n := |order|;
    forall v | v in vs
      ensures v in reversed
    {
      var i :| 0 <= i < n && order[i] == v;
      assert reversed[n - 1 - i] == v;
    }
    forall i, j | 0 <= i < j < n
      ensures reversed[i] != reversed[j]
    {
      assert reversed[i] == order[n - 1 - i] && reversed[j] == order[n - 1 - j];
    }
  }

  /** A vertex `h` that is new and that only has edges leaving it can be
      placed before all the others. */
  lemma PrependFresh(order: seq<Hash>, vs: set<Hash>, es: set<Edge>, h: Hash, es': set<Edge>)
    requires IsTopologicalOrder(order, vs, es)
    requires h !in vs
    requires forall a, b :: (a, b) in es' ==> (a, b) in es || a == h
    requires forall a :: (a, h) !in es'
    ensures IsTopologicalOrder([h] + order, vs + {h}, es')
  {
    var o := [h] + order;
    forall i, j | 0 <= i < |o| && 0 <= j < |o| && (o[i], o[j]) in es'
      ensures i < j
    {
      assert j != 0;
      if i != 0 {
        assert (o[i], o[j]) in es;
        assert o[i] == order[i - 1] && o[j] == order[j - 1];
      }
    }
  }

  /** Reading a reverse topological order backwards gives a topological
      order, so the graph has no cycle. */
  lemma ReverseOrderSortable(order: seq<Hash>, vs: set<Hash>, es: set<Edge>)
    requires IsReverseTopologicalOrder(order, vs, es)
    ensures Sortable(vs, es)
  {
    var n := |order|;
    var forward := seq(n, k requires 0 <= k < n => order[n - 1 - k]);
    forall v | v in vs
      ensures v in forward
    {
      var i :| 0 <= i < n && order[i] == v;
      assert forward[n - 1 - i] == v;
    }
    forall i, j | 0 <= i < j < n
      ensures forward[i] != forward[j]
    {
      assert forward[i] == order[n - 1 - i] && forward[j] == order[n - 1 - j];
    }
    assert IsTopologicalOrder(forward, vs, es);
  }

  /** The edge from the `i`th vertex of a chain to the one before it. */
  function Link(hs: seq<Hash>, i: int): Edge
    requires 1 <= i < |hs|
  {
    (hs[i], hs[i - 1])
  }

  /** The edges of a log in which each vertex points to the one listed
      before it. */
  function ChainEdges(hs: seq<Hash>): set<Edge>
  {
    set i | 1 <= i < |hs| :: Link(hs, i)
  }

  /** A sequence without repeats has as many elements as its length. */
  lemma {:induction false} DistinctCard(s: seq<Hash>)
    requires Distinct(s)
    ensures |set x | x in s| == |s|
    decreases |s|
  {
    if s != [] {
      var init, last := s[..|s| - 1], s[|s| - 1];
      assert Distinct(init) by {
        forall i, j | 0 <= i < j < |init|
          ensures init[i] != init[j]
        {
          assert init[i] == s[i] && init[j] == s[j];
        }
      }
      DistinctCard(init);
      assert last !in init by {
        forall j | 0 <= j < |init|
          ensures init[j] != last
        {
          assert init[j] == s[j];
        }
      }
      assert s == init + [last];
      assert (set x | x in s) == (set x | x in init) + {last};
    }
  }

  /** A chain listed in its own order is a reverse topological order. */
  lemma ChainOrder(hs: seq<Hash>, vs: set<Hash>)
    requires Distinct(hs) && forall v :: v in hs <==> v in vs
    ensures IsReverseTopologicalOrder(hs, vs, ChainEdges(hs))
  {
    forall i, j | 0 <= i < |hs| && 0 <= j < |hs| && (hs[i], hs[j]) in ChainEdges(hs)
      ensures j < i
    {
      var k :| 1 <= k < |hs| && Link(hs, k) == (hs[i], hs[j]);
    }
  }

  /** Any reverse topological order of a chain agrees with the chain on its
      first `k` positions. */
  lemma {:induction false} ChainPrefix(order: seq<Hash>, hs: seq<Hash>, vs: set<Hash>, k: nat)
    requires Distinct(hs) && forall v :: v in hs <==> v in vs
    requires IsReverseTopologicalOrder(order, vs, ChainEdges(hs))
    requires k <= |order| && k <= |hs|
    ensures forall j :: 0 <= j < k ==> order[j] == hs[j]
    decreases k
  {
    if k > 0 {
      ChainPrefix(order, hs, vs, k - 1);
      var m := IndexOf(hs, order[k - 1]);
      if m >= 1 {
        assert Link(hs, m) in ChainEdges(hs);
        var p := IndexOf(order, hs[m - 1]);
        assert (order[k - 1], order[p]) in ChainEdges(hs);
      }
      assert m == k - 1;
    }
  }

  /** A chain has exactly one reverse topological order: itself. */
  lemma ChainUnique(order: seq<Hash>, hs: seq<Hash>, vs: set<Hash>)
    requires Distinct(hs) && forall v :: v in hs <==> v in vs
    requires IsReverseTopologicalOrder(order, vs, ChainEdges(hs))
    ensures order == hs
  {
    assert (set x | x in order) == (set x | x in hs);
    DistinctCard(order);
    DistinctCard(hs);
    ChainPrefix(order, hs, vs, |hs|);
  }

  /** The only leaf of a non-empty chain is its last vertex. */
  lemma ChainLeaves(hs: seq<Hash>, vs: set<Hash>)
    requires Distinct(hs) && forall v :: v in hs <==> v in vs
    ensures hs == [] ==> Unreferenced(vs, ChainEdges(hs)) == {}
    ensures hs != [] ==> Unreferenced(vs, ChainEdges(hs)) == {hs[|hs| - 1]}
  {
    var n := |hs|;
    var es := ChainEdges(hs);
    forall v | v in vs
      ensures v in Unreferenced(vs, es) <==> v == hs[n - 1]
    {
      var i := IndexOf(hs, v);
      if i < n - 1 {
        assert Link(hs, i + 1) in es;
      } else {
        forall u | u in vs
          ensures (u, v) !in es
        {
          forall k | 1 <= k < n
            ensures Link(hs, k) != (u, v)
          {
          }
        }
      }
    }
  }

  /** Appending a vertex to a chain adds the one edge from it to the former
      last vertex. */
  lemma ChainExtend(hs: seq<Hash>, h: Hash)
    ensures hs == [] ==> ChainEdges(hs + [h]) == {}
    ensures hs != [] ==> ChainEdges(hs + [h]) == ChainEdges(hs) + {(h, hs[|hs| - 1])}
  {
    var hs' := hs + [h];
    var extra: set<Edge> := if hs == [] then {} else {(h, hs[|hs| - 1])};
    forall e | e in ChainEdges(hs')
      ensures e in ChainEdges(hs) + extra
    {
      var i :| 1 <= i < |hs'| && Link(hs', i) == e;
      if i < |hs| {
        assert Link(hs', i) == Link(hs, i);
      }
    }
    forall e | e in ChainEdges(hs) + extra
      ensures e in ChainEdges(hs')
    {
      if e in ChainEdges(hs) {
        var i :| 1 <= i < |hs| && Link(hs, i) == e;
        assert Link(hs', i) == e;
      } else {
        assert Link(hs', |hs|) == e;
      }
    }
  }

  /** A sequence without repeats is determined by its elements when it has at
      most one. */
  lemma DistinctOfSet(s: seq<Hash>, elems: set<Hash>)
    requires Distinct(s) && forall x :: x in s <==> x in elems
    ensures elems == {} ==> s == []
    ensures forall y :: elems == {y} ==> s == [y]
  {
    DistinctCard(s);
    assert (set x | x in s) == elems;
    if |s| == 1 {
      assert s[0] in elems;
    }
  }
}
