/**
 * The conflict graph `graph_coloring` builds (graph_coloring.py:75-96): a node
 * per application id, through `add_node` (a later application with the same
 * id replaces the node), and for every slot of the requester map, in order,
 * an edge from each requester to each requester with a different id, through
 * `add_edge`, which appends to a neighbour list.
 */
module ConflictEdges {
  import opened Applications
  import opened RequestMap
  import opened GraphSearch

  /** What the `add_node` loop leaves: the id of each application mapped to its requested slots. */
  function NodeOptions<T, K>(reqs: seq<seq<T>>, ids: seq<K>): map<K, seq<T>>
    requires |ids| == |reqs|
  {
    if reqs == [] then map[]
    else
      var n := |reqs| - 1;
      NodeOptions(reqs[..n], ids[..n])[ids[n] := reqs[n]]
  }

  /** There is a node for every id, and for no other key. */
  lemma {:induction false} NodeOptionsKeys<T, K>(reqs: seq<seq<T>>, ids: seq<K>, k: K)
    requires |ids| == |reqs|
    ensures k in NodeOptions(reqs, ids) <==> k in ids
  {
    if reqs != [] {
      var n := |reqs| - 1;
      NodeOptionsKeys(reqs[..n], ids[..n], k);
      assert ids == ids[..n] + [ids[n]];
    }
  }

  /** A node carries the requests of the last application with its id. */
  lemma {:induction false} NodeOptionsLast<T, K>(reqs: seq<seq<T>>, ids: seq<K>, i: nat)
    requires |ids| == |reqs| && i < |reqs|
    requires forall j :: i < j < |ids| ==> ids[j] != ids[i]
    ensures ids[i] in NodeOptions(reqs, ids) && NodeOptions(reqs, ids)[ids[i]] == reqs[i]
  {
    var n := |reqs| - 1;
    if i < n {
      NodeOptionsLast(reqs[..n], ids[..n], i);
    }
  }

  /** The edges `add_edge(id, id2)` adds for one `id`, over the list `ids` of a slot. */
  function Row<K(==)>(id: K, ids: seq<K>): seq<(K, K)> {
    if ids == [] then []
    else
      var x := ids[|ids| - 1];
      Row(id, ids[..|ids| - 1]) + (if id != x then [(id, x)] else [])
  }

  /** The edges of one slot whose requester list is `ids`: a row for each entry of `rows`. */
  function Block<K(==)>(rows: seq<K>, ids: seq<K>): seq<(K, K)> {
    if rows == [] then []
    else Block(rows[..|rows| - 1], ids) + Row(rows[|rows| - 1], ids)
  }

  /** The edges of all slots, in the order of `keys`. */
  function Links<T, K(==)>(keys: seq<T>, requests: map<T, seq<K>>): seq<(K, K)> {
    if keys == [] then []
    else
      var l := Get(requests, keys[|keys| - 1]);
      Links(keys[..|keys| - 1], requests) + Block(l, l)
  }

  /** The neighbour list the edges give node `k`: the targets of its edges, in order. */
  function Targets<K(==)>(links: seq<(K, K)>, k: K): seq<K> {
    if links == [] then []
    else
      var e := links[|links| - 1];
      Targets(links[..|links| - 1], k) + (if e.0 == k then [e.1] else [])
  }

  lemma TargetsAppend<K>(xs: seq<(K, K)>, ys: seq<(K, K)>, k: K)
    ensures Targets(xs + ys, k) == Targets(xs, k) + Targets(ys, k)
    decreases |ys|
  {
    if ys != [] {
      var n := |ys| - 1;
      assert (xs + ys)[..|xs + ys| - 1] == xs + ys[..n];
      TargetsAppend(xs, ys[..n], k);
    } else {
      assert xs + ys == xs;
    }
  }

  lemma TargetsSnoc<K>(xs: seq<(K, K)>, e: (K, K), k: K)
    ensures Targets(xs + [e], k) == Targets(xs, k) + (if e.0 == k then [e.1] else [])
  {
    assert (xs + [e])[..|xs|] == xs;
  }

  lemma {:induction false} TargetsMembers<K>(links: seq<(K, K)>, k: K, x: K)
    ensures x in Targets(links, k) <==> (k, x) in links
  {
    if links != [] {
      var n := |links| - 1;
      TargetsMembers(links[..n], k, x);
      assert links == links[..n] + [links[n]];
    }
  }

  lemma {:induction false} RowMembers<K>(id: K, ids: seq<K>, e: (K, K))
    ensures e in Row(id, ids) <==> e.0 == id && e.1 in ids && e.1 != id
  {
    if ids != [] {
      var n := |ids| - 1;
      RowMembers(id, ids[..n], e);
      assert ids == ids[..n] + [ids[n]];
    }
  }

  lemma {:induction false} BlockMembers<K>(rows: seq<K>, ids: seq<K>, e: (K, K))
    ensures e in Block(rows, ids) <==> e.0 in rows && e.1 in ids && e.0 != e.1
  {
    if rows != [] {
      var n := |rows| - 1;
      BlockMembers(rows[..n], ids, e);
      RowMembers(rows[n], ids, e);
      assert rows == rows[..n] + [rows[n]];
    }
  }

  /** An edge joins two different ids that share the list of some slot. */
  lemma {:induction false} LinksMembers<T, K>(keys: seq<T>, requests: map<T, seq<K>>, e: (K, K))
    ensures e in Links(keys, requests) <==>
      e.0 != e.1 && exists s :: s in keys && e.0 in Get(requests, s) && e.1 in Get(requests, s)
  {
    if keys != [] {
      var n := |keys| - 1;
      var l := Get(requests, keys[n]);
      LinksMembers(keys[..n], requests, e);
      BlockMembers(l, l, e);
      assert keys == keys[..n] + [keys[n]];
      if e.0 != e.1 && exists s :: s in keys && e.0 in Get(requests, s) && e.1 in Get(requests, s) {
        var s :| s in keys && e.0 in Get(requests, s) && e.1 in Get(requests, s);
        if s != keys[n] {
          assert s in keys[..n];
        }
      }
    }
  }

  /** The requester map of `graph_coloring`: each requested slot to the ids requesting it. */
  function RequestLists<T(==), K>(reqs: seq<seq<T>>, ids: seq<K>): map<T, seq<K>>
    requires |ids| == |reqs|
  {
    map s | s in Flatten(reqs) :: Requesters(reqs, ids, s)
  }

  /** The graph after the node and edge loops, as the traversals read it. */
  function ConflictGraph<T(==), K(==)>(reqs: seq<seq<T>>, ids: seq<K>): map<K, Vertex<T, K>>
    requires |ids| == |reqs|
  {
    var opts := NodeOptions(reqs, ids);
    var links := Links(Dedup(Flatten(reqs)), RequestLists(reqs, ids));
    map k | k in opts :: Vertex(opts[k], Targets(links, k))
  }

  /** Applications `i` and `j` request a common slot. */
  predicate Share<T(==)>(reqs: seq<seq<T>>, i: nat, j: nat)
    requires i < |reqs| && j < |reqs|
  {
    exists s :: s in reqs[i] && s in reqs[j]
  }

  /**
   * `x` is in the neighbour list of `a` exactly when `x` is a different id
   * and some application with id `a` and some application with id `x`
   * request a common slot.
   */
  lemma ConflictNeighbours<T, K>(reqs: seq<seq<T>>, ids: seq<K>, a: K, x: K)
    requires |ids| == |reqs| && a in ConflictGraph(reqs, ids)
    ensures x in ConflictGraph(reqs, ids)[a].neighbours <==>
      a != x && exists i, j :: 0 <= i < |reqs| && 0 <= j < |reqs| && ids[i] == a && ids[j] == x && Share(reqs, i, j)
  {
    var keys := Dedup(Flatten(reqs));
    var lists := RequestLists(reqs, ids);
    var links := Links(keys, lists);
    TargetsMembers(links, a, x);
    LinksMembers(keys, lists, (a, x));
    DedupFacts(Flatten(reqs));
    if x in ConflictGraph(reqs, ids)[a].neighbours {
      var s :| s in keys && a in Get(lists, s) && x in Get(lists, s);
      RequestersMembers(reqs, ids, s, a);
      RequestersMembers(reqs, ids, s, x);
      var i :| 0 <= i < |reqs| && ids[i] == a && s in reqs[i];
      var j :| 0 <= j < |reqs| && ids[j] == x && s in reqs[j];
      assert Share(reqs, i, j);
    }
    if a != x && exists i, j :: 0 <= i < |reqs| && 0 <= j < |reqs| && ids[i] == a && ids[j] == x && Share(reqs, i, j) {
      var i, j :| 0 <= i < |reqs| && 0 <= j < |reqs| && ids[i] == a && ids[j] == x && Share(reqs, i, j);
      var s :| s in reqs[i] && s in reqs[j];
      FlattenMembers(reqs, s);
      RequestersMembers(reqs, ids, s, a);
      RequestersMembers(reqs, ids, s, x);
      assert s in keys && a in Get(lists, s) && x in Get(lists, s);
    }
  }

  /** The nodes are the ids, and a node's options are the requests of the last application with its id. */
  lemma ConflictNodes<T, K>(reqs: seq<seq<T>>, ids: seq<K>)
    requires |ids| == |reqs|
    ensures forall k :: k in ConflictGraph(reqs, ids) <==> k in ids
    ensures forall i :: 0 <= i < |reqs| && (forall j :: i < j < |ids| ==> ids[j] != ids[i]) ==>
      ConflictGraph(reqs, ids)[ids[i]].options == reqs[i]
  {
    forall k ensures k in ConflictGraph(reqs, ids) <==> k in ids {
      NodeOptionsKeys(reqs, ids, k);
    }
    forall i | 0 <= i < |reqs| && (forall j :: i < j < |ids| ==> ids[j] != ids[i])
      ensures ConflictGraph(reqs, ids)[ids[i]].options == reqs[i]
    {
      NodeOptionsLast(reqs, ids, i);
    }
  }

  /** The edges are symmetric: each neighbour of `a` has `a` as a neighbour. */
  lemma ConflictSymmetric<T, K>(reqs: seq<seq<T>>, ids: seq<K>, a: K, x: K)
    requires |ids| == |reqs| && a in ConflictGraph(reqs, ids) && x in ConflictGraph(reqs, ids)
    ensures x in ConflictGraph(reqs, ids)[a].neighbours <==> a in ConflictGraph(reqs, ids)[x].neighbours
  {
    ConflictNeighbours(reqs, ids, a, x);
    ConflictNeighbours(reqs, ids, x, a);
    if x in ConflictGraph(reqs, ids)[a].neighbours {
      var i, j :| 0 <= i < |reqs| && 0 <= j < |reqs| && ids[i] == a && ids[j] == x && Share(reqs, i, j);
      var s :| s in reqs[i] && s in reqs[j];
      assert Share(reqs, j, i);
    }
    if a in ConflictGraph(reqs, ids)[x].neighbours {
      var j, i :| 0 <= j < |reqs| && 0 <= i < |reqs| && ids[j] == x && ids[i] == a && Share(reqs, j, i);
      var s :| s in reqs[j] && s in reqs[i];
      assert Share(reqs, i, j);
    }
  }

  /** Every neighbour is a node, so the traversals never look up a missing key. */
  lemma ConflictClosed<T, K>(reqs: seq<seq<T>>, ids: seq<K>)
    requires |ids| == |reqs|
    ensures Closed(ConflictGraph(reqs, ids))
  {
    var g := ConflictGraph(reqs, ids);
    ConflictNodes(reqs, ids);
    forall k, j | k in g && 0 <= j < |g[k].neighbours|
      ensures g[k].neighbours[j] in g
    {
      var x := g[k].neighbours[j];
      ConflictNeighbours(reqs, ids, k, x);
    }
  }

  /**
   * With distinct ids, the neighbours of a node are exactly the other nodes
   * that share one of its options, which are its application's requests.
   */
  lemma ConflictSharingEdges<T, K>(reqs: seq<seq<T>>, ids: seq<K>)
    requires |ids| == |reqs| && Distinct(ids)
    ensures SharingEdges(ConflictGraph(reqs, ids))
  {
    var g := ConflictGraph(reqs, ids);
    ConflictNodes(reqs, ids);
    forall a, b | a in g && b in g
      ensures b in g[a].neighbours <==> a != b && exists s :: s in g[a].options && s in g[b].options
    {
      NodeOptionsKeys(reqs, ids, a);
      NodeOptionsKeys(reqs, ids, b);
      var i :| 0 <= i < |ids| && ids[i] == a;
      var j :| 0 <= j < |ids| && ids[j] == b;
      assert g[a].options == reqs[i] && g[b].options == reqs[j];
      ConflictNeighbours(reqs, ids, a, b);
      if b in g[a].neighbours {
        var i', j' :| 0 <= i' < |reqs| && 0 <= j' < |reqs| && ids[i'] == a && ids[j'] == b && Share(reqs, i', j');
        assert i' == i && j' == j;
        var s :| s in reqs[i] && s in reqs[j];
        assert s in g[a].options && s in g[b].options;
      }
      if a != b && exists s :: s in g[a].options && s in g[b].options {
        var s :| s in g[a].options && s in g[b].options;
        assert Share(reqs, i, j);
      }
    }
  }

  /** Two applications `a` and `b` that both request the slots 1 and 2. */
  const TwiceShared: seq<seq<int>> := [[1, 2], [1, 2]]
  const TwoIds: seq<string> := ["a", "b"]

  lemma TwiceSharedKeys()
    ensures Dedup(Flatten(TwiceShared)) == [1, 2]
  {
    assert TwiceShared[..1] == [[1, 2]];
    assert Flatten(TwiceShared) == [1, 2, 1, 2];
    assert [1, 2, 1, 2][..3] == [1, 2, 1];
    assert [1, 2, 1][..2] == [1, 2];
    assert [1, 2][..1] == [1];
  }

  lemma TwiceSharedRequesters(s: int)
    requires s == 1 || s == 2
    ensures Requesters(TwiceShared, TwoIds, s) == ["a", "b"]
  {
    assert TwiceShared[..1] == [[1, 2]] && TwoIds[..1] == ["a"];
    assert [1, 2][..1] == [1] && [1][..0] == [];
    assert Occurrences("a", [1, 2], s) == ["a"] && Occurrences("b", [1, 2], s) == ["b"];
  }

  lemma TwiceSharedLinks(lists: map<int, seq<string>>)
    requires Get(lists, 1) == ["a", "b"] && Get(lists, 2) == ["a", "b"]
    ensures Links([1, 2], lists) == [("a", "b"), ("b", "a")] + [("a", "b"), ("b", "a")]
  {
    assert ["a", "b"][..1] == ["a"];
    assert Row("a", ["a", "b"]) == [("a", "b")];
    assert Row("b", ["a", "b"]) == [("b", "a")];
    assert Block(["a", "b"], ["a", "b"]) == [("a", "b"), ("b", "a")];
    assert [1, 2][..1] == [1] && [1][..0] == [];
    assert Links([1], lists) == [("a", "b"), ("b", "a")];
  }

  lemma TwiceSharedTargets()
    ensures Targets([("a", "b"), ("b", "a")] + [("a", "b"), ("b", "a")], "a") == ["b", "b"]
  {
    var block := [("a", "b"), ("b", "a")];
    TargetsAppend(block, block, "a");
    assert block[..1] == [("a", "b")];
    assert Targets(block, "a") == ["b"];
  }

  /**
   * An id appears in a neighbour list once for every shared slot occurrence:
   * two applications requesting the same two slots are each other's
   * neighbours twice.
   */
  lemma RepeatedNeighbour()
    ensures ConflictGraph(TwiceShared, TwoIds)["a"].neighbours == ["b", "b"]
  {
    var lists := RequestLists(TwiceShared, TwoIds);
    TwiceSharedKeys();
    assert 1 in Flatten(TwiceShared) && 2 in Flatten(TwiceShared);
    TwiceSharedRequesters(1);
    TwiceSharedRequesters(2);
    TwiceSharedLinks(lists);
    TwiceSharedTargets();
    NodeOptionsKeys(TwiceShared, TwoIds, "a");
  }
}
