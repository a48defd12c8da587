/**
 * graph_coloring.py: a node per application, an edge between applications
 * that request a common slot, a recursive colouring from the first node with
 * one global set of used colours, and every application reserving its node's
 * colour.
 *
 * The traversal methods are proved against the functions of GraphSearch, and
 * the whole strategy against `ColoringAllocation`, about which the lemmas at
 * the end state what the strategy guarantees.
 */
module GraphColoring {
  import opened Wrappers
  import opened Applications
  import opened RequestMap
  import opened GraphSearch
  import opened ConflictEdges

  /** `Node`: a name, the colour options, a neighbour list that grows, and a colour. */
  class Node<T> {
    const name: Id
    const colorOptions: seq<T>
    var neighbours: seq<Id>
    var color: Option<T>

    constructor (name: Id, colorOptions: seq<T>)
      ensures this.name == name && this.colorOptions == colorOptions
      ensures neighbours == [] && color == None
    {
      this.name := name;
      this.colorOptions := colorOptions;
      neighbours := [];
      color := None;
    }
  }

  /** `Graph`: the nodes by name, and the `visited` and `used_colors` sets of a traversal. */
  class Graph<T(==)> {
    var nodes: map<Id, Node<T>>
    var visited: set<Id>
    var usedColors: set<T>
    /** The node objects, so that frames need not go through the values of `nodes`. */
    ghost var repr: set<Node<T>>

    constructor ()
      ensures nodes == map[] && visited == {} && usedColors == {} && repr == {}
      ensures Valid()
    {
      nodes := map[];
      visited := {};
      usedColors := {};
      repr := {};
    }

    /** Every node is stored under its own name, so different names are different nodes. */
    ghost predicate Valid()
      reads this`nodes, this`repr
    {
      forall k :: k in nodes ==> nodes[k].name == k && nodes[k] in repr
    }

    /** The nodes hold exactly the options and neighbour lists of `g`. */
    ghost predicate Represents(g: map<Id, Vertex<T, Id>>)
      reads this`nodes, this`repr, repr`neighbours
      requires Valid()
    {
      && (forall k :: k in nodes <==> k in g)
      && (forall k :: k in nodes ==> g[k] == Vertex(nodes[k].colorOptions, nodes[k].neighbours))
    }

    /** The graph as the traversals read it. */
    ghost function Shape(): (g: map<Id, Vertex<T, Id>>)
      reads this`nodes, this`repr, repr`neighbours
      requires Valid()
      ensures Represents(g)
    {
      map k | k in nodes :: Vertex(nodes[k].colorOptions, nodes[k].neighbours)
    }

    /** The fields hold the traversal state `st`. */
    ghost predicate Holds(st: Coloring<T, Id>)
      reads this`nodes, this`repr, this`visited, this`usedColors, repr`color
      requires Valid()
    {
      && visited == st.visited && usedColors == st.used
      && (forall k :: k in nodes <==> k in st.color)
      && (forall k :: k in nodes ==> nodes[k].color == st.color[k])
    }

    /** The node colours, as a map. */
    ghost function Colors(): (c: map<Id, Option<T>>)
      reads this`nodes, this`repr, repr`color
      requires Valid()
      ensures forall k :: k in nodes <==> k in c
      ensures forall k :: k in nodes ==> nodes[k].color == c[k]
    {
      map k | k in nodes :: nodes[k].color
    }

    /** `add_node(application)`: a new node under the application's id, replacing any node there. */
    method AddNode(appl: Application<T>)
      requires Valid()
      modifies this`nodes, this`repr
      ensures Valid() && appl.id in nodes && fresh(nodes[appl.id])
      ensures nodes == old(nodes)[appl.id := nodes[appl.id]]
      ensures repr == old(repr) + {nodes[appl.id]}
      ensures nodes[appl.id].colorOptions == appl.requestedSlots
      ensures nodes[appl.id].neighbours == [] && nodes[appl.id].color == None
    {
      var node := new Node(appl.id, appl.requestedSlots);
      nodes := nodes[appl.id := node];
      repr := repr + {node};
    }

    /** `add_edge(node1, node2)`: append the name of `node2` to the neighbours of `node1`'s node. */
    method AddEdge(node1: Node<T>, node2: Node<T>)
      requires node1.name in nodes
      modifies (nodes[node1.name] as Node<T>)`neighbours
      ensures nodes[node1.name].neighbours == old(nodes[node1.name].neighbours) + [node2.name]
    {
      var node := nodes[node1.name];
      node.neighbours := node.neighbours + [node2.name];
    }

    /** `visit(node)`: the `visited` set ends as `DfsVisit` says. */
    method Visit(node: Id, ghost g: map<Id, Vertex<T, Id>>)
      requires Valid() && Represents(g) && Closed(g) && node in nodes
      modifies this`visited
      ensures visited == DfsVisit(g, old(visited), node)
      decreases nodes.Keys - visited
    {
      if node in visited {
        return;
      }
      visited := visited + {node};
      var nbrs := nodes[node].neighbours;
      for j := 0 to |nbrs|
        invariant old(visited) + {node} <= visited
        invariant DfsNeighbours(g, visited, node, j) == DfsVisit(g, old(visited), node)
      {
        Visit(nbrs[j], g);
      }
    }

    /** `dfs(start)`: afterwards `visited` holds exactly the nodes reachable from `start`. */
    method Dfs(start: Id, ghost g: map<Id, Vertex<T, Id>>)
      requires Valid() && Represents(g) && Closed(g) && start in nodes
      modifies this`visited
      ensures visited == GraphSearch.Dfs(g, start)
      ensures forall x :: x in visited <==> Reachable(g, start, x)
    {
      visited := {};
      Visit(start, g);
      DfsIsReachable(g, start);
    }

    /** `color_node(node)`: the traversal state ends as `ColorVisit` says. */
    method ColorNode(node: Id, ghost g: map<Id, Vertex<T, Id>>, ghost st: Coloring<T, Id>)
      requires Valid() && Represents(g) && Closed(g) && node in nodes && Holds(st)
      modifies this`visited, this`usedColors, repr`color
      ensures Holds(ColorVisit(g, st, node))
      decreases nodes.Keys - visited, 0
    {
      if node in visited {
        return;
      }
      visited := visited + {node};
      ColorOptionNodes(node, g, st.(visited := st.visited + {node}));
    }

    /** The loop of `color_node(node)` over the colour options, once `node` is visited. */
    method ColorOptionNodes(node: Id, ghost g: map<Id, Vertex<T, Id>>, ghost st: Coloring<T, Id>)
      requires Valid() && Represents(g) && Closed(g) && node in nodes && node in visited && Holds(st)
      modifies this`visited, this`usedColors, repr`color
      ensures Holds(ColorOptions(g, st, node, 0))
      decreases nodes.Keys - visited, 3
    {
      ghost var cur := st;
      var options := nodes[node].colorOptions;
      for i := 0 to |options|
        invariant old(visited) <= visited
        invariant Holds(cur)
        invariant ColorOptions(g, cur, node, i) == ColorOptions(g, st, node, 0)
      {
        var c := options[i];
        if c !in usedColors {
          ClaimNode(node, c, g, cur);
          cur := ColorNeighbours(g, Claim(cur, node, c), node, 0);
        }
      }
    }

    /** The body of the option loop of `color_node(node)` for a free colour `c`: set it, add
        it to `used_colors`, then colour every neighbour. */
    method ClaimNode(node: Id, c: T, ghost g: map<Id, Vertex<T, Id>>, ghost st: Coloring<T, Id>)
      requires Valid() && Represents(g) && Closed(g) && node in nodes && node in visited && Holds(st)
      modifies this`visited, this`usedColors, repr`color
      ensures Holds(ColorNeighbours(g, Claim(st, node, c), node, 0))
      decreases nodes.Keys - visited, 2
    {
      var n := nodes[node];
      n.color := Some(c);
      usedColors := usedColors + {c};
      ghost var claimed := Claim(st, node, c);
      assert Holds(claimed) by {
        forall k | k in nodes && k != node
          ensures nodes[k].color == claimed.color[k]
        {
          assert nodes[k].name != n.name;
        }
      }
      ColorNeighbourNodes(node, g, claimed);
    }

    /** The loop of `color_node(node)` over the neighbours, after a claim. */
    method ColorNeighbourNodes(node: Id, ghost g: map<Id, Vertex<T, Id>>, ghost st: Coloring<T, Id>)
      requires Valid() && Represents(g) && Closed(g) && node in nodes && node in visited && Holds(st)
      modifies this`visited, this`usedColors, repr`color
      ensures Holds(ColorNeighbours(g, st, node, 0))
      decreases nodes.Keys - visited, 1
    {
      var nbrs := nodes[node].neighbours;
      ghost var cur := st;
      for j := 0 to |nbrs|
        invariant old(visited) <= visited
        invariant Holds(cur)
        invariant ColorNeighbours(g, cur, node, j) == ColorNeighbours(g, st, node, 0)
      {
        ColorNode(nbrs[j], g, cur);
        cur := ColorVisit(g, cur, nbrs[j]);
      }
    }

    /** `color(start)`: empty `used_colors` and `visited`, then `color_node(start)`. */
    method Color(start: Id, ghost g: map<Id, Vertex<T, Id>>, ghost colors: map<Id, Option<T>>)
      requires Valid() && Represents(g) && Closed(g) && start in nodes
      requires (forall k :: k in nodes <==> k in colors) && forall k :: k in nodes ==> nodes[k].color == colors[k]
      modifies this`visited, this`usedColors, repr`color
      ensures Holds(ColorFrom(g, colors, start))
    {
      usedColors := {};
      visited := {};
      ColorNode(start, g, Coloring({}, {}, colors));
    }
  }

  // ---------------------------------------------------------------------
  // The edge loops of graph_coloring

  /** Every neighbour list has grown by the targets `links` gives its node. */
  ghost predicate Extended<T>(graph: Graph<T>, before: map<Id, seq<Id>>, links: seq<(Id, Id)>)
    reads graph`nodes, graph`repr, graph.repr`neighbours
    requires graph.Valid()
  {
    && (forall k :: k in graph.nodes <==> k in before)
    && (forall k :: k in graph.nodes ==> graph.nodes[k].neighbours == before[k] + Targets(links, k))
  }

  /** The neighbour lists, as a map. */
  ghost function Adjacency<T>(graph: Graph<T>): (a: map<Id, seq<Id>>)
    reads graph`nodes, graph`repr, graph.repr`neighbours
    requires graph.Valid()
    ensures Extended(graph, a, [])
  {
    map k | k in graph.nodes :: graph.nodes[k].neighbours
  }

  /** A node per id: every name the edge loops look up. */
  ghost predicate AllNodes<T>(graph: Graph<T>, ids: seq<Id>)
    reads graph`nodes
  {
    forall m :: 0 <= m < |ids| ==> ids[m] in graph.nodes
  }

  lemma RowStep(links: seq<(Id, Id)>, id: Id, ids: seq<Id>, m: nat)
    requires m < |ids|
    ensures id != ids[m] ==> links + Row(id, ids[..m + 1]) == (links + Row(id, ids[..m])) + [(id, ids[m])]
    ensures id == ids[m] ==> links + Row(id, ids[..m + 1]) == links + Row(id, ids[..m])
  {
    assert ids[..m + 1][..m] == ids[..m];
  }

  lemma BlockStep(links: seq<(Id, Id)>, l: seq<Id>, r: nat)
    requires r < |l|
    ensures links + Block(l[..r + 1], l) == links + Block(l[..r], l) + Row(l[r], l)
  {
    var rows := l[..r + 1];
    assert rows[..r] == l[..r] && rows[r] == l[r];
    assert Block(rows, l) == Block(l[..r], l) + Row(l[r], l);
  }

  lemma LinksStep<T>(keys: seq<T>, requests: map<T, seq<Id>>, i: nat)
    requires i < |keys| && keys[i] in requests
    ensures Links(keys[..i + 1], requests) == Links(keys[..i], requests) + Block(requests[keys[i]], requests[keys[i]])
  {
    assert keys[..i + 1][..i] == keys[..i];
  }

  /** One `add_edge(graph.nodes[id], graph.nodes[x])`: the edge `(id, x)` joins the links. */
  method AddTarget<T(==)>(graph: Graph<T>, id: Id, x: Id,
                          ghost before: map<Id, seq<Id>>, ghost links: seq<(Id, Id)>)
    requires graph.Valid() && id in graph.nodes && x in graph.nodes
    requires Extended(graph, before, links)
    modifies graph.repr`neighbours
    ensures Extended(graph, before, links + [(id, x)])
  {
    graph.AddEdge(graph.nodes[id], graph.nodes[x]);
    forall k | k in graph.nodes
      ensures graph.nodes[k].neighbours == before[k] + Targets(links + [(id, x)], k)
    {
      TargetsSnoc(links, (id, x), k);
      if k != id {
        assert graph.nodes[k] != graph.nodes[id];
      }
    }
  }

  /** The innermost loop: an edge from `id` to every other id of `ids`, in order. */
  method AddRow<T(==)>(graph: Graph<T>, id: Id, ids: seq<Id>,
                       ghost before: map<Id, seq<Id>>, ghost links: seq<(Id, Id)>)
    requires graph.Valid() && id in graph.nodes && AllNodes(graph, ids)
    requires Extended(graph, before, links)
    modifies graph.repr`neighbours
    ensures Extended(graph, before, links + Row(id, ids))
  {
    assert links + Row(id, ids[..0]) == links;
    for m := 0 to |ids|
      invariant Extended(graph, before, links + Row(id, ids[..m]))
    {
      RowStep(links, id, ids, m);
      if id != ids[m] {
        AddTarget(graph, id, ids[m], before, links + Row(id, ids[..m]));
      }
    }
    assert ids[..|ids|] == ids;
  }

  /** The two loops over the requester list `l` of one slot. */
  method AddBlock<T(==)>(graph: Graph<T>, l: seq<Id>,
                         ghost before: map<Id, seq<Id>>, ghost links: seq<(Id, Id)>)
    requires graph.Valid() && AllNodes(graph, l)
    requires Extended(graph, before, links)
    modifies graph.repr`neighbours
    ensures Extended(graph, before, links + Block(l, l))
  {
    assert links + Block(l[..0], l) == links;
    for r := 0 to |l|
      invariant Extended(graph, before, links + Block(l[..r], l))
    {
      BlockStep(links, l, r);
      AddRow(graph, l[r], l, before, links + Block(l[..r], l));
    }
    assert l[..|l|] == l;
  }

  /** The loop over the slots of the requester map, in the order `keys` they were added. */
  method AddEdges<T(==)>(graph: Graph<T>, keys: seq<T>, requests: map<T, seq<Id>>,
                         ghost before: map<Id, seq<Id>>)
    requires graph.Valid() && KeysMatch(requests, keys)
    requires forall s :: s in requests ==> AllNodes(graph, requests[s])
    requires Extended(graph, before, [])
    modifies graph.repr`neighbours
    ensures Extended(graph, before, Links(keys, requests))
  {
    assert Links(keys[..0], requests) == [];
    for i := 0 to |keys|
      invariant Extended(graph, before, Links(keys[..i], requests))
    {
      var l := requests[keys[i]];
      LinksStep(keys, requests, i);
      AddBlock(graph, l, before, Links(keys[..i], requests));
    }
    assert keys[..|keys|] == keys;
  }

  // ---------------------------------------------------------------------
  // The strategy

  /** The traversal state `graph.color(list(graph.nodes)[0])` leaves on the conflict graph. */
  function FinalColoring<T(==)>(reqs: seq<seq<T>>, ids: seq<Id>): (st: Coloring<T, Id>)
    requires |ids| == |reqs| > 0
    ensures Proper(ConflictGraph(reqs, ids), st)
    ensures forall k :: k in st.color <==> k in ids
  {
    var g := ConflictGraph(reqs, ids);
    ConflictClosed(reqs, ids);
    ConflictNodes(reqs, ids);
    ColoringProper(g, NoColors(g), ids[0]);
    ColorFrom(g, NoColors(g), ids[0])
  }

  /** What `graph_coloring` leaves: each application reserves the colour of the node of its id. */
  function ColoringAllocation<T(==)>(reqs: seq<seq<T>>, ids: seq<Id>): (r: seq<Option<T>>)
    requires |ids| == |reqs| > 0
    ensures |r| == |reqs|
    ensures forall i :: 0 <= i < |r| ==> r[i] == FinalColoring(reqs, ids).color[ids[i]]
  {
    var st := FinalColoring(reqs, ids);
    seq(|reqs|, i requires 0 <= i < |reqs| => st.color[ids[i]])
  }

  /** The node loop: a node per id, holding the requests of the last application with that id. */
  ghost predicate NodesFor<T>(graph: Graph<T>, reqs: seq<seq<T>>, ids: seq<Id>)
    reads graph`nodes, graph`repr, graph.repr`color
    requires graph.Valid() && |ids| == |reqs|
  {
    var opts := NodeOptions(reqs, ids);
    && (forall k :: k in graph.nodes <==> k in opts)
    && (forall k :: k in graph.nodes ==> graph.nodes[k].colorOptions == opts[k] && graph.nodes[k].color == None)
  }

  /** Facts about the final state that the lemmas below share. */
  lemma FinalColoringFacts<T>(reqs: seq<seq<T>>, ids: seq<Id>)
    requires |ids| == |reqs| > 0
    ensures var g := ConflictGraph(reqs, ids);
      && Closed(g) && ids[0] in g
      && FinalColoring(reqs, ids) == ColorFrom(g, NoColors(g), ids[0])
  {
    ConflictClosed(reqs, ids);
    ConflictNodes(reqs, ids);
    assert ids[0] in ids;
  }

  /** With distinct ids, every reservation is one of the application's own requests. */
  lemma ColoringFromRequests<T>(reqs: seq<seq<T>>, ids: seq<Id>)
    requires |ids| == |reqs| > 0 && Distinct(ids)
    ensures ReservedFromRequests(reqs, ColoringAllocation(reqs, ids))
  {
    var r := ColoringAllocation(reqs, ids);
    ConflictNodes(reqs, ids);
    forall i | 0 <= i < |r| && r[i].Some? ensures r[i].value in reqs[i] {
      assert forall j :: i < j < |ids| ==> ids[j] != ids[i];
    }
  }

  /** With distinct ids, no two applications hold the same slot. */
  lemma ColoringNoSlotHeldTwice<T>(reqs: seq<seq<T>>, ids: seq<Id>)
    requires |ids| == |reqs| > 0 && Distinct(ids)
    ensures NoSlotHeldTwice(ColoringAllocation(reqs, ids))
  {
    var r := ColoringAllocation(reqs, ids);
    var st := FinalColoring(reqs, ids);
    forall i, j | 0 <= i < j < |r| && r[i].Some? && r[j].Some? ensures r[i].value != r[j].value {
      assert ids[i] in ids && ids[j] in ids;
      assert st.color[ids[i]] != st.color[ids[j]];
    }
  }

  /** The first application is resolved exactly when it requested a slot, if no later one shares its id. */
  lemma ColoringStartResolved<T>(reqs: seq<seq<T>>, ids: seq<Id>)
    requires |ids| == |reqs| > 0
    requires forall j :: 0 < j < |ids| ==> ids[j] != ids[0]
    ensures ColoringAllocation(reqs, ids)[0] != None <==> |reqs[0]| > 0
  {
    var g := ConflictGraph(reqs, ids);
    FinalColoringFacts(reqs, ids);
    ConflictNodes(reqs, ids);
    StartColoured(g, NoColors(g), ids[0]);
  }

  /** Only applications the conflict graph connects to the first one are resolved. */
  lemma ColoringReachable<T>(reqs: seq<seq<T>>, ids: seq<Id>)
    requires |ids| == |reqs| > 0
    ensures forall i :: 0 <= i < |reqs| && ColoringAllocation(reqs, ids)[i] != None ==>
      Reachable(ConflictGraph(reqs, ids), ids[0], ids[i])
  {
    var g := ConflictGraph(reqs, ids);
    var st := FinalColoring(reqs, ids);
    FinalColoringFacts(reqs, ids);
    ColoringCovers(g, NoColors(g), ids[0]);
    forall i | 0 <= i < |reqs| && ColoringAllocation(reqs, ids)[i] != None
      ensures Reachable(g, ids[0], ids[i])
    {
      assert ids[i] in ids;
      assert ids[i] in st.visited;
    }
  }

  /**
   * With distinct ids, `graph.color(...)` visits exactly the nodes that the
   * conflict graph connects to the first application's node.
   */
  lemma ColoringVisitsConnected<T>(reqs: seq<seq<T>>, ids: seq<Id>)
    requires |ids| == |reqs| > 0 && Distinct(ids)
    ensures forall k :: k in ids ==>
      (k in FinalColoring(reqs, ids).visited <==> Reachable(ConflictGraph(reqs, ids), ids[0], k))
  {
    var g := ConflictGraph(reqs, ids);
    FinalColoringFacts(reqs, ids);
    ConflictSharingEdges(reqs, ids);
    ConflictNodes(reqs, ids);
    ColoringReachesAll(g, NoColors(g), ids[0]);
  }

  /** A coloured node other than the start was reached from a coloured neighbour `p`. */
  lemma ColouredParent<T>(reqs: seq<seq<T>>, ids: seq<Id>, x: Id) returns (p: Id)
    requires |ids| == |reqs| > 0 && x in ids && x != ids[0]
    requires FinalColoring(reqs, ids).color[x] != None
    ensures var st := FinalColoring(reqs, ids);
      p in st.color && st.color[p] != None && x in ConflictGraph(reqs, ids)[p].neighbours && p != x
  {
    var g := ConflictGraph(reqs, ids);
    var st := FinalColoring(reqs, ids);
    FinalColoringFacts(reqs, ids);
    ColoringCovers(g, NoColors(g), ids[0]);
    assert x in st.visited;
    p :| p in st.visited && p in g && p in st.color && st.color[p] != None && x in g[p].neighbours;
    ConflictNeighbours(reqs, ids, p, x);
  }

  /**
   * With distinct ids, every resolved application other than the first
   * shares a requested slot with another resolved application: a node is
   * reached only from a neighbour that claimed a colour.
   */
  lemma ColoringClaimedNeighbour<T>(reqs: seq<seq<T>>, ids: seq<Id>, i: nat)
    requires |ids| == |reqs| && 0 < i < |reqs| && Distinct(ids)
    ensures ColoringAllocation(reqs, ids)[i] != None ==>
      exists j :: 0 <= j < |reqs| && j != i && ColoringAllocation(reqs, ids)[j] != None && Share(reqs, j, i)
  {
    var r := ColoringAllocation(reqs, ids);
    if r[i] != None {
      var st := FinalColoring(reqs, ids);
      assert ids[i] in ids && ids[i] != ids[0];
      var p := ColouredParent(reqs, ids, ids[i]);
      ConflictNeighbours(reqs, ids, p, ids[i]);
      var a, b :| 0 <= a < |reqs| && 0 <= b < |reqs| && ids[a] == p && ids[b] == ids[i] && Share(reqs, a, b);
      assert b == i;
      assert r[a] == st.color[p];
    }
  }

  /**
   * With distinct ids, an application other than the first that shares no
   * requested slot with any other application stays unresolved, even when
   * its slots are free.
   */
  lemma ColoringIsolated<T>(reqs: seq<seq<T>>, ids: seq<Id>, i: nat)
    requires |ids| == |reqs| && 0 < i < |reqs| && Distinct(ids)
    requires forall j :: 0 <= j < |reqs| && j != i ==> !Share(reqs, j, i)
    ensures ColoringAllocation(reqs, ids)[i] == None
  {
    ColoringClaimedNeighbour(reqs, ids, i);
  }

  /**
   * When every application requests only the same slot `s`, the first one
   * gets it and all the others stay unresolved.
   */
  lemma OneContestedSlot<T>(reqs: seq<seq<T>>, ids: seq<Id>, s: T)
    requires |ids| == |reqs| > 0 && Distinct(ids)
    requires forall i :: 0 <= i < |reqs| ==> reqs[i] == [s]
    ensures ColoringAllocation(reqs, ids) == [Some(s)] + seq(|reqs| - 1, _ => None)
  {
    var r := ColoringAllocation(reqs, ids);
    ColoringStartResolved(reqs, ids);
    ColoringFromRequests(reqs, ids);
    ColoringNoSlotHeldTwice(reqs, ids);
    assert r[0] == Some(s);
  }

  /**
   * When no two applications share a requested slot there are no edges:
   * the first application is resolved exactly when it requested something,
   * and all the others stay unresolved.
   */
  lemma NoSharedSlot<T>(reqs: seq<seq<T>>, ids: seq<Id>)
    requires |ids| == |reqs| > 0 && Distinct(ids)
    requires forall i, j :: 0 <= i < |reqs| && 0 <= j < |reqs| && i != j ==> !Share(reqs, i, j)
    ensures forall i :: 0 < i < |reqs| ==> ColoringAllocation(reqs, ids)[i] == None
    ensures ColoringAllocation(reqs, ids)[0] != None <==> |reqs[0]| > 0
  {
    ColoringStartResolved(reqs, ids);
    forall i | 0 < i < |reqs| ensures ColoringAllocation(reqs, ids)[i] == None {
      ColoringIsolated(reqs, ids, i);
    }
  }

  /**
   * When no slot is requested twice, as in a generated scenario where every
   * slot is a new object and slots compare by identity, the conflict graph
   * has no edges and no application but the first is resolved.
   */
  lemma UnrepeatedSlotsOnlyFirst<T>(reqs: seq<seq<T>>, ids: seq<Id>)
    requires |ids| == |reqs| > 0 && Distinct(ids) && PairwiseDistinct(reqs)
    ensures forall i :: 0 < i < |reqs| ==> ColoringAllocation(reqs, ids)[i] == None
  {
    forall i, j | 0 <= i < |reqs| && 0 <= j < |reqs| && i != j
      ensures !Share(reqs, i, j)
    {
      forall s | s in reqs[i] ensures s !in reqs[j] {
        SlotOnce(reqs, i, j, s);
      }
    }
    NoSharedSlot(reqs, ids);
  }

  lemma SlotOnce<T>(reqs: seq<seq<T>>, i: nat, j: nat, s: T)
    requires i < |reqs| && j < |reqs| && i != j && PairwiseDistinct(reqs) && s in reqs[i]
    ensures s !in reqs[j]
  {
    var p :| 0 <= p < |reqs[i]| && reqs[i][p] == s;
    forall q | 0 <= q < |reqs[j]| ensures reqs[j][q] != s {
      assert reqs[i][p] != reqs[j][q];
    }
  }

  /** Three applications `a`, `b`, `c` that each request only slot 5. */
  const SingleSlot: seq<seq<int>> := [[5], [5], [5]]
  const ThreeIds: seq<Id> := ["a", "b", "c"]

  /** One of three is resolved when all three want the same single slot. */
  lemma SingleSlotScenario()
    ensures ColoringAllocation(SingleSlot, ThreeIds) == [Some(5), None, None]
  {
    assert Distinct(ThreeIds);
    OneContestedSlot(SingleSlot, ThreeIds, 5);
    assert [Some(5)] + seq(2, _ => None) == [Some(5), None, None];
  }

  /** Four applications `a` to `d`, each requesting a slot nobody else requests. */
  const Disjoint: seq<seq<int>> := [[1], [2], [3], [4]]
  const FourIds: seq<Id> := ["a", "b", "c", "d"]

  lemma DisjointUnshared()
    ensures forall i, j :: 0 <= i < |Disjoint| && 0 <= j < |Disjoint| && i != j ==> !Share(Disjoint, i, j)
  {
    forall i, j | 0 <= i < 4 && 0 <= j < 4 && i != j ensures !Share(Disjoint, i, j) {
      assert Disjoint[i] == [i + 1] && Disjoint[j] == [j + 1];
    }
  }

  /** One of four is resolved when no slot is shared. */
  lemma DisjointScenario()
    ensures ColoringAllocation(Disjoint, FourIds) == [Some(1), None, None, None]
  {
    assert Distinct(FourIds);
    DisjointUnshared();
    NoSharedSlot(Disjoint, FourIds);
    ColoringFromRequests(Disjoint, FourIds);
  }

  /** The node loop of `graph_coloring`: `add_node` for every application, in order. */
  method AddNodes<T(==)>(appls: seq<Application<T>>) returns (graph: Graph<T>)
    ensures fresh(graph) && fresh(graph.repr)
    ensures graph.Valid() && NodesFor(graph, Requests(appls), Ids(appls))
    ensures forall k :: k in graph.nodes ==> graph.nodes[k].neighbours == []
  {
    ghost var reqs := Requests(appls);
    ghost var ids := Ids(appls);
    graph := new Graph<T>();
    for i := 0 to |appls|
      invariant fresh(graph) && fresh(graph.repr)
      invariant graph.Valid() && NodesFor(graph, reqs[..i], ids[..i])
      invariant forall k :: k in graph.nodes ==> graph.nodes[k].neighbours == []
    {
      assert reqs[..i + 1][..i] == reqs[..i] && ids[..i + 1][..i] == ids[..i];
      graph.AddNode(appls[i]);
    }
    assert reqs[..|appls|] == reqs && ids[..|appls|] == ids;
  }

  /** The requester map `BuildRequesters` returns is `RequestLists`. */
  lemma RequestListsBuilt<T>(reqs: seq<seq<T>>, ids: seq<Id>, keys: seq<T>, lists: map<T, seq<Id>>)
    requires |ids| == |reqs| && keys == Dedup(Flatten(reqs))
    requires KeysMatch(lists, keys) && ListsMatch(lists, reqs, ids)
    ensures lists == RequestLists(reqs, ids)
    ensures forall s, m :: s in lists && 0 <= m < |lists[s]| ==> lists[s][m] in ids
  {
    DedupFacts(Flatten(reqs));
    forall s, m | s in lists && 0 <= m < |lists[s]| ensures lists[s][m] in ids {
      RequestersMembers(reqs, ids, s, lists[s][m]);
    }
  }

  /** The node loop, the requester map and the edge loops build the conflict graph. */
  method BuildGraph<T(==)>(appls: seq<Application<T>>) returns (graph: Graph<T>)
    ensures fresh(graph) && fresh(graph.repr) && graph.Valid()
    ensures graph.Represents(ConflictGraph(Requests(appls), Ids(appls)))
    ensures forall k :: k in graph.nodes ==> graph.nodes[k].color == None
  {
    ghost var reqs := Requests(appls);
    ghost var ids := Ids(appls);
    graph := AddNodes(appls);
    var keys, requests := BuildRequesters(Requests(appls), Ids(appls));
    RequestListsBuilt(reqs, ids, keys, requests);
    forall s | s in requests
      ensures AllNodes(graph, requests[s])
    {
      forall m | 0 <= m < |requests[s]| ensures requests[s][m] in graph.nodes {
        NodeOptionsKeys(reqs, ids, requests[s][m]);
      }
    }
    ghost var before := Adjacency(graph);
    AddEdges(graph, keys, requests, before);
    forall k | k in graph.nodes ensures graph.nodes[k].neighbours == Targets(Links(keys, requests), k) {
      assert before[k] == [];
    }
  }

  /** The reservation loop: every application reserves the colour of the node of its id. */
  method ReserveColors<T(==)>(graph: Graph<T>, appls: seq<Application<T>>, ghost st: Coloring<T, Id>)
    requires graph.Valid() && graph.Holds(st)
    requires forall m :: 0 <= m < |appls| ==> appls[m].id in graph.nodes
    modifies appls
    ensures forall m :: 0 <= m < |appls| ==> appls[m].reserved == st.color[appls[m].id]
  {
    for i := 0 to |appls|
      invariant graph.Holds(st)
      invariant forall m :: 0 <= m < i ==> appls[m].reserved == st.color[appls[m].id]
    {
      appls[i].Reserve(graph.nodes[appls[i].id].color);
    }
  }

  /** `graph.color(list(graph.nodes)[0])` and the reservation loop, on the built graph. */
  method ColorAndReserve<T(==)>(graph: Graph<T>, appls: seq<Application<T>>)
    requires |appls| > 0 && graph.Valid()
    requires graph.Represents(ConflictGraph(Requests(appls), Ids(appls)))
    requires forall k :: k in graph.nodes ==> graph.nodes[k].color == None
    modifies graph`visited, graph`usedColors, graph.repr`color, appls
    ensures Reservations(appls) == ColoringAllocation(Requests(appls), Ids(appls))
  {
    ghost var reqs := Requests(appls);
    ghost var ids := Ids(appls);
    ghost var g := ConflictGraph(reqs, ids);
    ConflictClosed(reqs, ids);
    ConflictNodes(reqs, ids);
    assert ids[0] in ids;
    graph.Color(appls[0].id, g, NoColors(g));
    ghost var st := FinalColoring(reqs, ids);
    forall m | 0 <= m < |appls| ensures appls[m].id in graph.nodes {
      assert ids[m] in ids;
    }
    ReserveColors(graph, appls, st);
  }

  /**
   * `graph_coloring(slotspace, appls)`: on a non-empty list, the reservations
   * end as `ColoringAllocation` says and the result counts the applications
   * left without one; on an empty list `list(graph.nodes)[0]` raises before
   * any reservation. The slot space is only printed.
   */
  method GraphColoring<T(==)>(slotspace: SlotSpace, appls: seq<Application<T>>) returns (r: Result<nat>)
    modifies appls
    ensures |appls| == 0 <==> r.Err?
    ensures r.Err? ==> r.error == IndexError
    ensures r.Ok? ==> Reservations(appls) == ColoringAllocation(Requests(appls), Ids(appls))
    ensures r.Ok? ==> r.value == NoneCount(Reservations(appls))
  {
    var graph := BuildGraph(appls);
    if |appls| == 0 {
      return Err(IndexError);
    }
    ColorAndReserve(graph, appls);
    var unresolved := CountUnreserved(appls);
    return Ok(unresolved);
  }
}
