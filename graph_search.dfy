/**
 * The recursions of `Graph.visit` and `Graph.color_node` in graph_coloring.py,
 * as functions on values: a graph is a map from node names to their colour
 * options and neighbour lists, and a traversal state holds the `visited` set,
 * the global `used_colors` set and every node's colour.
 *
 * The colouring is the one the code performs, not a textbook colouring: the
 * option loop has no `break`, so a node claims every option it finds free
 * and keeps the last one, and it descends into its neighbours only from
 * inside a claim.
 */
module GraphSearch {
  import opened Wrappers

  /** What the traversals read of a node: its colour options and its neighbours. */
  datatype Vertex<T, K> = Vertex(options: seq<T>, neighbours: seq<K>)

  /** Every neighbour is a node of the graph (otherwise `self.nodes[node]` fails). */
  predicate Closed<T, K>(g: map<K, Vertex<T, K>>) {
    forall k, j :: k in g && 0 <= j < |g[k].neighbours| ==> g[k].neighbours[j] in g
  }

  ghost predicate IsPath<T, K>(g: map<K, Vertex<T, K>>, p: seq<K>) {
    && (forall i :: 0 <= i < |p| ==> p[i] in g)
    && (forall i :: 0 < i < |p| ==> p[i] in g[p[i - 1]].neighbours)
  }

  /** `b` can be reached from `a` along neighbour lists. */
  ghost predicate Reachable<T, K(!new)>(g: map<K, Vertex<T, K>>, a: K, b: K) {
    exists p :: IsPath(g, p) && |p| > 0 && p[0] == a && p[|p| - 1] == b
  }

  /** No neighbour list leads out of `r`. */
  ghost predicate ClosedUnder<T, K>(g: map<K, Vertex<T, K>>, r: set<K>) {
    forall x, j :: x in r && x in g && 0 <= j < |g[x].neighbours| ==> g[x].neighbours[j] in r
  }

  lemma ReachSelf<T, K(!new)>(g: map<K, Vertex<T, K>>, a: K)
    requires a in g
    ensures Reachable(g, a, a)
  {
    assert IsPath(g, [a]);
  }

  /** A path from a neighbour of `a` extends to a path from `a`. */
  lemma ReachPrepend<T, K(!new)>(g: map<K, Vertex<T, K>>, a: K, b: K, x: K)
    requires a in g && b in g[a].neighbours && Reachable(g, b, x)
    ensures Reachable(g, a, x)
  {
    var p :| IsPath(g, p) && |p| > 0 && p[0] == b && p[|p| - 1] == x;
    var q := [a] + p;
    assert forall i :: 0 < i < |q| ==> q[i] == p[i - 1];
    assert IsPath(g, q);
  }

  lemma {:induction false} PathInClosed<T, K>(g: map<K, Vertex<T, K>>, r: set<K>, p: seq<K>, i: nat)
    requires IsPath(g, p) && i < |p| && p[0] in r && ClosedUnder(g, r)
    ensures p[i] in r
  {
    if i > 0 {
      PathInClosed(g, r, p, i - 1);
      var nb := g[p[i - 1]].neighbours;
      assert p[i] in nb;
      var j :| 0 <= j < |nb| && nb[j] == p[i];
    }
  }

  /** A set that holds `a` and that no neighbour list leaves holds everything reachable from `a`. */
  lemma ReachInClosed<T, K(!new)>(g: map<K, Vertex<T, K>>, r: set<K>, a: K, b: K)
    requires a in r && ClosedUnder(g, r) && Reachable(g, a, b)
    ensures b in r
  {
    var p :| IsPath(g, p) && |p| > 0 && p[0] == a && p[|p| - 1] == b;
    PathInClosed(g, r, p, |p| - 1);
  }

  // ---------------------------------------------------------------------------
  // visit / dfs

  /** `visit(node)` with the `visited` set it starts from: the set it leaves. */
  function DfsVisit<T, K>(g: map<K, Vertex<T, K>>, visited: set<K>, node: K): (r: set<K>)
    requires Closed(g) && node in g
    ensures visited <= r && node in r
    decreases g.Keys - visited, 0, 0
  {
    if node in visited then visited
    else DfsNeighbours(g, visited + {node}, node, 0)
  }

  /** The loop of `visit(node)` over the neighbours from position `j` on. */
  function DfsNeighbours<T, K>(g: map<K, Vertex<T, K>>, visited: set<K>, node: K, j: nat): (r: set<K>)
    requires Closed(g) && node in g && j <= |g[node].neighbours|
    ensures visited <= r
    decreases g.Keys - visited, 1, |g[node].neighbours| - j
  {
    if j == |g[node].neighbours| then visited
    else DfsNeighbours(g, DfsVisit(g, visited, g[node].neighbours[j]), node, j + 1)
  }

  /** `dfs(start)`: `visit(start)` from an empty `visited` set. */
  function Dfs<T, K>(g: map<K, Vertex<T, K>>, start: K): set<K>
    requires Closed(g) && start in g
  {
    DfsVisit(g, {}, start)
  }

  /** The nodes `visit(n)` adds are reachable from `n`, and their neighbours are all visited. */
  lemma {:induction false} DfsVisitFacts<T, K(!new)>(g: map<K, Vertex<T, K>>, visited: set<K>, n: K)
    requires Closed(g) && n in g
    ensures var r := DfsVisit(g, visited, n);
      && (forall x :: x in r && x !in visited ==> x in g && Reachable(g, n, x))
      && (forall x, j :: x in r && x !in visited && x in g && 0 <= j < |g[x].neighbours| ==> g[x].neighbours[j] in r)
    decreases g.Keys - visited, 0, 0
  {
    if n !in visited {
      DfsNeighboursFacts(g, visited + {n}, n, 0);
      ReachSelf(g, n);
    }
  }

  lemma {:induction false} DfsNeighboursFacts<T, K(!new)>(g: map<K, Vertex<T, K>>, visited: set<K>, n: K, j: nat)
    requires Closed(g) && n in g && j <= |g[n].neighbours|
    ensures var r := DfsNeighbours(g, visited, n, j);
      && (forall x :: x in r && x !in visited ==> x in g && Reachable(g, n, x))
      && (forall x, i :: x in r && x !in visited && x in g && 0 <= i < |g[x].neighbours| ==> g[x].neighbours[i] in r)
      && (forall i :: j <= i < |g[n].neighbours| ==> g[n].neighbours[i] in r)
    decreases g.Keys - visited, 1, |g[n].neighbours| - j
  {
    var nb := g[n].neighbours;
    if j < |nb| {
      var mid := DfsVisit(g, visited, nb[j]);
      DfsVisitFacts(g, visited, nb[j]);
      DfsNeighboursFacts(g, mid, n, j + 1);
      forall x | x in mid && x !in visited
        ensures Reachable(g, n, x)
      {
        ReachPrepend(g, n, nb[j], x);
      }
    }
  }

  /** `dfs(start)` leaves `visited` equal to the nodes reachable from `start`. */
  lemma DfsIsReachable<T, K(!new)>(g: map<K, Vertex<T, K>>, start: K)
    requires Closed(g) && start in g
    ensures forall x :: x in Dfs(g, start) <==> Reachable(g, start, x)
  {
    var r := Dfs(g, start);
    DfsVisitFacts(g, {}, start);
    forall x | Reachable(g, start, x)
      ensures x in r
    {
      ReachInClosed(g, r, start, x);
    }
  }

  // ---------------------------------------------------------------------------
  // color_node / color

  /** The traversal state: `visited`, `used_colors` and every node's `color`. */
  datatype Coloring<T, K> = Coloring(visited: set<K>, used: set<T>, color: map<K, Option<T>>)

  /** `node.color = color; used_colors.add(color)`. */
  function Claim<T, K>(st: Coloring<T, K>, node: K, c: T): (r: Coloring<T, K>)
    ensures r.visited == st.visited && r.used == st.used + {c}
    ensures node in r.color && r.color[node] == Some(c)
    ensures forall k :: k in st.color && k != node ==> k in r.color && r.color[k] == st.color[k]
  {
    st.(used := st.used + {c}, color := st.color[node := Some(c)])
  }

  /** `color_node(node)`: the state it leaves. */
  function ColorVisit<T(==), K>(g: map<K, Vertex<T, K>>, st: Coloring<T, K>, node: K): (r: Coloring<T, K>)
    requires Closed(g) && node in g
    ensures st.visited <= r.visited
    decreases g.Keys - st.visited, 0, 0
  {
    if node in st.visited then st
    else ColorOptions(g, st.(visited := st.visited + {node}), node, 0)
  }

  /**
   * The option loop of `color_node(node)` from position `i` on: a free
   * option is claimed and the neighbours are coloured, and the loop goes on.
   */
  function ColorOptions<T(==), K>(g: map<K, Vertex<T, K>>, st: Coloring<T, K>, node: K, i: nat): (r: Coloring<T, K>)
    requires Closed(g) && node in g && i <= |g[node].options|
    ensures st.visited <= r.visited
    decreases g.Keys - st.visited, 2, |g[node].options| - i
  {
    if i == |g[node].options| then st
    else
      var c := g[node].options[i];
      if c in st.used then ColorOptions(g, st, node, i + 1)
      else ColorOptions(g, ColorNeighbours(g, Claim(st, node, c), node, 0), node, i + 1)
  }

  /** The neighbour loop inside a claim, from position `j` on. */
  function ColorNeighbours<T(==), K>(g: map<K, Vertex<T, K>>, st: Coloring<T, K>, node: K, j: nat): (r: Coloring<T, K>)
    requires Closed(g) && node in g && j <= |g[node].neighbours|
    ensures st.visited <= r.visited
    decreases g.Keys - st.visited, 1, |g[node].neighbours| - j
  {
    if j == |g[node].neighbours| then st
    else ColorNeighbours(g, ColorVisit(g, st, g[node].neighbours[j]), node, j + 1)
  }

  /** `color(start)`: empty `visited` and `used_colors`, the nodes' colours as they are. */
  function ColorFrom<T(==), K>(g: map<K, Vertex<T, K>>, colors: map<K, Option<T>>, start: K): Coloring<T, K>
    requires Closed(g) && start in g
  {
    ColorVisit(g, Coloring({}, {}, colors), start)
  }

  /** Nothing is taken back: visited nodes, used colours and coloured nodes stay so. */
  ghost predicate Grows<T, K>(st: Coloring<T, K>, r: Coloring<T, K>) {
    && st.visited <= r.visited && st.used <= r.used
    && (forall k :: k in st.color ==> k in r.color)
    && (forall k :: k in st.color && st.color[k] != None ==> r.color[k] != None)
  }

  /** Colours change only at the nodes in `except` and at the nodes newly visited. */
  ghost predicate Untouched<T, K>(st: Coloring<T, K>, r: Coloring<T, K>, except: set<K>) {
    forall k :: k in st.color && k !in except && (k in st.visited || k !in r.visited) ==>
      k in r.color && r.color[k] == st.color[k]
  }

  lemma GrowsTrans<T, K>(a: Coloring<T, K>, b: Coloring<T, K>, c: Coloring<T, K>)
    requires Grows(a, b) && Grows(b, c)
    ensures Grows(a, c)
  {
  }

  /**
   * `color_node` never un-visits, un-uses or un-colours, and writes only the
   * colours of the nodes it visits for the first time: a node's body runs
   * once, and a visited node is left alone afterwards.
   */
  lemma {:induction false} VisitFrame<T, K>(g: map<K, Vertex<T, K>>, st: Coloring<T, K>, n: K)
    requires Closed(g) && n in g
    ensures var r := ColorVisit(g, st, n); Grows(st, r) && Untouched(st, r, {})
    decreases g.Keys - st.visited, 0, 0
  {
    if n !in st.visited {
      OptionsFrame(g, st.(visited := st.visited + {n}), n, 0);
    }
  }

  lemma {:induction false} OptionsFrame<T, K>(g: map<K, Vertex<T, K>>, st: Coloring<T, K>, n: K, i: nat)
    requires Closed(g) && n in g && i <= |g[n].options|
    ensures var r := ColorOptions(g, st, n, i); Grows(st, r) && Untouched(st, r, {n})
    decreases g.Keys - st.visited, 2, |g[n].options| - i
  {
    if i < |g[n].options| {
      var c := g[n].options[i];
      if c in st.used {
        OptionsFrame(g, st, n, i + 1);
      } else {
        var st1 := Claim(st, n, c);
        var st2 := ColorNeighbours(g, st1, n, 0);
        NeighboursFrame(g, st1, n, 0);
        OptionsFrame(g, st2, n, i + 1);
        GrowsTrans(st1, st2, ColorOptions(g, st2, n, i + 1));
      }
    }
  }

  lemma {:induction false} NeighboursFrame<T, K>(g: map<K, Vertex<T, K>>, st: Coloring<T, K>, n: K, j: nat)
    requires Closed(g) && n in g && j <= |g[n].neighbours|
    ensures var r := ColorNeighbours(g, st, n, j); Grows(st, r) && Untouched(st, r, {})
    decreases g.Keys - st.visited, 1, |g[n].neighbours| - j
  {
    if j < |g[n].neighbours| {
      var mid := ColorVisit(g, st, g[n].neighbours[j]);
      VisitFrame(g, st, g[n].neighbours[j]);
      NeighboursFrame(g, mid, n, j + 1);
      GrowsTrans(st, mid, ColorNeighbours(g, mid, n, j + 1));
    }
  }

  /**
   * What holds of every state of the traversal: colours sit on nodes of the
   * graph that were visited, each is one of its node's options and is in the
   * used set, and no two nodes have the same colour.
   */
  ghost predicate Proper<T, K>(g: map<K, Vertex<T, K>>, st: Coloring<T, K>) {
    && (forall k :: k in st.color ==> k in g)
    && (forall k :: k in st.color && st.color[k] != None ==>
          k in st.visited && st.color[k].value in g[k].options && st.color[k].value in st.used)
    && (forall a, b :: a in st.color && b in st.color && a != b && st.color[a] != None ==>
          st.color[a] != st.color[b])
  }

  /** Claiming an option that is not yet used keeps the state proper. */
  lemma ClaimProper<T, K>(g: map<K, Vertex<T, K>>, st: Coloring<T, K>, n: K, i: nat)
    requires Proper(g, st) && n in g && n in st.visited && i < |g[n].options|
    requires g[n].options[i] !in st.used
    ensures Proper(g, Claim(st, n, g[n].options[i]))
  {
    var c := g[n].options[i];
    var r := Claim(st, n, c);
    forall a, b | a in r.color && b in r.color && a != b && r.color[a] != None
      ensures r.color[a] != r.color[b]
    {
      if a != n && b != n {
        assert r.color[a] == st.color[a] && r.color[b] == st.color[b];
      } else if a == n && b in st.color && st.color[b] != None {
        assert st.color[b].value in st.used;
      } else if b == n {
        assert st.color[a].value in st.used;
      }
    }
  }

  lemma {:induction false} VisitProper<T, K>(g: map<K, Vertex<T, K>>, st: Coloring<T, K>, n: K)
    requires Closed(g) && n in g && Proper(g, st)
    ensures Proper(g, ColorVisit(g, st, n))
    decreases g.Keys - st.visited, 0, 0
  {
    if n !in st.visited {
      OptionsProper(g, st.(visited := st.visited + {n}), n, 0);
    }
  }

  lemma {:induction false} OptionsProper<T, K>(g: map<K, Vertex<T, K>>, st: Coloring<T, K>, n: K, i: nat)
    requires Closed(g) && n in g && i <= |g[n].options| && n in st.visited && Proper(g, st)
    ensures Proper(g, ColorOptions(g, st, n, i))
    decreases g.Keys - st.visited, 2, |g[n].options| - i
  {
    if i < |g[n].options| {
      var c := g[n].options[i];
      if c in st.used {
        OptionsProper(g, st, n, i + 1);
      } else {
        ClaimProper(g, st, n, i);
        var st2 := ColorNeighbours(g, Claim(st, n, c), n, 0);
        NeighboursProper(g, Claim(st, n, c), n, 0);
        OptionsProper(g, st2, n, i + 1);
      }
    }
  }

  lemma {:induction false} NeighboursProper<T, K>(g: map<K, Vertex<T, K>>, st: Coloring<T, K>, n: K, j: nat)
    requires Closed(g) && n in g && j <= |g[n].neighbours| && Proper(g, st)
    ensures Proper(g, ColorNeighbours(g, st, n, j))
    decreases g.Keys - st.visited, 1, |g[n].neighbours| - j
  {
    if j < |g[n].neighbours| {
      VisitProper(g, st, g[n].neighbours[j]);
      NeighboursProper(g, ColorVisit(g, st, g[n].neighbours[j]), n, j + 1);
    }
  }

  /** Some coloured node, visited, has `x` in its neighbour list. */
  ghost predicate HasColouredParent<T, K>(g: map<K, Vertex<T, K>>, r: Coloring<T, K>, x: K) {
    exists p :: p in r.visited && p in g && p in r.color && r.color[p] != None && x in g[p].neighbours
  }

  /**
   * Every node visited between `st` and `r` is reachable from `from`, has all
   * of its options in the used set, and, unless it is `from`, is the
   * neighbour of a coloured node: it was reached from inside a claim.
   */
  ghost predicate Covers<T, K(!new)>(g: map<K, Vertex<T, K>>, st: Coloring<T, K>, r: Coloring<T, K>, from: K) {
    forall x :: x in r.visited && x !in st.visited ==>
      && x in g && Reachable(g, from, x)
      && (forall m :: 0 <= m < |g[x].options| ==> g[x].options[m] in r.used)
      && (x != from ==> HasColouredParent(g, r, x))
  }

  lemma CoversTrans<T, K(!new)>(g: map<K, Vertex<T, K>>, a: Coloring<T, K>, b: Coloring<T, K>, c: Coloring<T, K>, from: K)
    requires Covers(g, a, b, from) && Covers(g, b, c, from) && a.visited <= b.visited && Grows(b, c)
    ensures Covers(g, a, c, from)
  {
    forall x | x in c.visited && x !in a.visited && x in b.visited && x != from
      ensures HasColouredParent(g, c, x)
    {
      var p :| p in b.visited && p in g && p in b.color && b.color[p] != None && x in g[p].neighbours;
    }
  }

  /** What a visit of the neighbour `b` of a coloured node `n` covers is covered from `n`. */
  lemma CoversShift<T, K(!new)>(g: map<K, Vertex<T, K>>, st: Coloring<T, K>, r: Coloring<T, K>, n: K, b: K)
    requires n in g && b in g[n].neighbours && n in st.visited && Covers(g, st, r, b)
    requires n in r.visited && n in r.color && r.color[n] != None
    ensures Covers(g, st, r, n)
  {
    forall x | x in r.visited && x !in st.visited
      ensures Reachable(g, n, x) && (x != n ==> HasColouredParent(g, r, x))
    {
      ReachPrepend(g, n, b, x);
    }
  }

  lemma {:induction false} VisitCovers<T, K(!new)>(g: map<K, Vertex<T, K>>, st: Coloring<T, K>, n: K)
    requires Closed(g) && n in g
    ensures Covers(g, st, ColorVisit(g, st, n), n)
    decreases g.Keys - st.visited, 0, 0
  {
    if n !in st.visited {
      OptionsCovers(g, st.(visited := st.visited + {n}), n, 0);
      ReachSelf(g, n);
    }
  }

  lemma {:induction false} OptionsCovers<T, K(!new)>(g: map<K, Vertex<T, K>>, st: Coloring<T, K>, n: K, i: nat)
    requires Closed(g) && n in g && i <= |g[n].options| && n in st.visited
    ensures var r := ColorOptions(g, st, n, i);
      && Covers(g, st, r, n)
      && (forall m :: i <= m < |g[n].options| ==> g[n].options[m] in r.used)
    decreases g.Keys - st.visited, 2, |g[n].options| - i
  {
    if i < |g[n].options| {
      var c := g[n].options[i];
      if c in st.used {
        OptionsCovers(g, st, n, i + 1);
        OptionsFrame(g, st, n, i + 1);
      } else {
        var st1 := Claim(st, n, c);
        var st2 := ColorNeighbours(g, st1, n, 0);
        var r := ColorOptions(g, st2, n, i + 1);
        NeighboursCovers(g, st1, n, 0);
        NeighboursFrame(g, st1, n, 0);
        OptionsCovers(g, st2, n, i + 1);
        OptionsFrame(g, st2, n, i + 1);
        CoversTrans(g, st1, st2, r, n);
      }
    }
  }

  lemma {:induction false} NeighboursCovers<T, K(!new)>(g: map<K, Vertex<T, K>>, st: Coloring<T, K>, n: K, j: nat)
    requires Closed(g) && n in g && j <= |g[n].neighbours|
    requires n in st.visited && n in st.color && st.color[n] != None
    ensures Covers(g, st, ColorNeighbours(g, st, n, j), n)
    decreases g.Keys - st.visited, 1, |g[n].neighbours| - j
  {
    if j < |g[n].neighbours| {
      var b := g[n].neighbours[j];
      var mid := ColorVisit(g, st, b);
      var r := ColorNeighbours(g, mid, n, j + 1);
      VisitCovers(g, st, b);
      VisitFrame(g, st, b);
      CoversShift(g, st, mid, n, b);
      NeighboursCovers(g, mid, n, j + 1);
      NeighboursFrame(g, mid, n, j + 1);
      CoversTrans(g, st, mid, r, n);
    }
  }

  /** Every neighbour of `x` has been visited. */
  ghost predicate NeighboursVisited<T, K>(g: map<K, Vertex<T, K>>, r: Coloring<T, K>, x: K)
    requires x in g
  {
    forall j :: 0 <= j < |g[x].neighbours| ==> g[x].neighbours[j] in r.visited
  }

  /**
   * Every colour used between `st` and `r` is an option of a visited node
   * whose neighbours have all been visited: a claim is followed by the whole
   * neighbour loop.
   */
  ghost predicate Witnessed<T, K>(g: map<K, Vertex<T, K>>, st: Coloring<T, K>, r: Coloring<T, K>) {
    forall c :: c in r.used && c !in st.used ==>
      exists x :: x in r.visited && x in g && c in g[x].options && NeighboursVisited(g, r, x)
  }

  lemma WitnessedTrans<T, K>(g: map<K, Vertex<T, K>>, a: Coloring<T, K>, b: Coloring<T, K>, c: Coloring<T, K>)
    requires Witnessed(g, a, b) && Witnessed(g, b, c) && b.visited <= c.visited
    ensures Witnessed(g, a, c)
  {
    forall u | u in c.used && u !in a.used && u in b.used
      ensures exists x :: x in c.visited && x in g && u in g[x].options && NeighboursVisited(g, c, x)
    {
      var x :| x in b.visited && x in g && u in g[x].options && NeighboursVisited(g, b, x);
      assert NeighboursVisited(g, c, x);
    }
  }

  /** The neighbour loop from position `j` visits every neighbour from `j` on. */
  lemma {:induction false} NeighboursReach<T, K>(g: map<K, Vertex<T, K>>, st: Coloring<T, K>, n: K, j: nat)
    requires Closed(g) && n in g && j <= |g[n].neighbours|
    ensures var r := ColorNeighbours(g, st, n, j);
      forall k :: j <= k < |g[n].neighbours| ==> g[n].neighbours[k] in r.visited
    decreases |g[n].neighbours| - j
  {
    if j < |g[n].neighbours| {
      var b := g[n].neighbours[j];
      var mid := ColorVisit(g, st, b);
      assert b in mid.visited;
      NeighboursReach(g, mid, n, j + 1);
    }
  }

  lemma {:induction false} VisitWitnessed<T, K>(g: map<K, Vertex<T, K>>, st: Coloring<T, K>, n: K)
    requires Closed(g) && n in g
    ensures Witnessed(g, st, ColorVisit(g, st, n))
    decreases g.Keys - st.visited, 0, 0
  {
    if n !in st.visited {
      OptionsWitnessed(g, st.(visited := st.visited + {n}), n, 0);
    }
  }

  lemma {:induction false} OptionsWitnessed<T, K>(g: map<K, Vertex<T, K>>, st: Coloring<T, K>, n: K, i: nat)
    requires Closed(g) && n in g && i <= |g[n].options| && n in st.visited
    ensures Witnessed(g, st, ColorOptions(g, st, n, i))
    decreases g.Keys - st.visited, 2, |g[n].options| - i
  {
    if i < |g[n].options| {
      var c := g[n].options[i];
      if c in st.used {
        OptionsWitnessed(g, st, n, i + 1);
      } else {
        var st1 := Claim(st, n, c);
        var st2 := ColorNeighbours(g, st1, n, 0);
        NeighboursWitnessed(g, st1, n, 0);
        NeighboursReach(g, st1, n, 0);
        NeighboursFrame(g, st1, n, 0);
        assert NeighboursVisited(g, st2, n);
        assert Witnessed(g, st, st2);
        OptionsWitnessed(g, st2, n, i + 1);
        OptionsFrame(g, st2, n, i + 1);
        WitnessedTrans(g, st, st2, ColorOptions(g, st2, n, i + 1));
      }
    }
  }

  lemma {:induction false} NeighboursWitnessed<T, K>(g: map<K, Vertex<T, K>>, st: Coloring<T, K>, n: K, j: nat)
    requires Closed(g) && n in g && j <= |g[n].neighbours|
    ensures Witnessed(g, st, ColorNeighbours(g, st, n, j))
    decreases g.Keys - st.visited, 1, |g[n].neighbours| - j
  {
    if j < |g[n].neighbours| {
      var mid := ColorVisit(g, st, g[n].neighbours[j]);
      VisitWitnessed(g, st, g[n].neighbours[j]);
      NeighboursWitnessed(g, mid, n, j + 1);
      NeighboursFrame(g, mid, n, j + 1);
      WitnessedTrans(g, st, mid, ColorNeighbours(g, mid, n, j + 1));
    }
  }

  /**
   * The option loop of a visited node: the node ends without a colour exactly
   * when it had none and every remaining option was already used; a colour
   * it ends with that it did not have is one of those options, free when
   * the loop began; and when every option is used the loop changes nothing.
   */
  lemma {:induction false} OptionsOutcome<T, K>(g: map<K, Vertex<T, K>>, st: Coloring<T, K>, n: K, i: nat)
    requires Closed(g) && n in g && i <= |g[n].options| && n in st.visited && n in st.color
    ensures var r := ColorOptions(g, st, n, i);
      && n in r.color
      && (r.color[n] == None <==>
            st.color[n] == None && forall m :: i <= m < |g[n].options| ==> g[n].options[m] in st.used)
      && (r.color[n] != st.color[n] ==>
            exists m :: i <= m < |g[n].options| && r.color[n] == Some(g[n].options[m]) && g[n].options[m] !in st.used)
      && ((forall m :: i <= m < |g[n].options| ==> g[n].options[m] in st.used) ==> r == st)
    decreases |g[n].options| - i
  {
    OptionsFrame(g, st, n, i);
    if i < |g[n].options| {
      var c := g[n].options[i];
      if c in st.used {
        OptionsOutcome(g, st, n, i + 1);
      } else {
        var st1 := Claim(st, n, c);
        var st2 := ColorNeighbours(g, st1, n, 0);
        NeighboursFrame(g, st1, n, 0);
        assert st2.color[n] == Some(c);
        OptionsOutcome(g, st2, n, i + 1);
        var r := ColorOptions(g, st2, n, i + 1);
        if r.color[n] != st2.color[n] {
          var m :| i + 1 <= m < |g[n].options| && r.color[n] == Some(g[n].options[m]) && g[n].options[m] !in st2.used;
          assert g[n].options[m] !in st.used;
        }
      }
    }
  }

  /**
   * One pass of the option loop at position `m`: a free option is claimed
   * and the neighbours are coloured; a used one changes nothing.
   */
  function OptionStep<T(==), K>(g: map<K, Vertex<T, K>>, st: Coloring<T, K>, node: K, m: nat): Coloring<T, K>
    requires Closed(g) && node in g && m < |g[node].options|
  {
    var c := g[node].options[m];
    if c in st.used then st else ColorNeighbours(g, Claim(st, node, c), node, 0)
  }

  /** The state the option loop, started at position `i`, is in when it comes to position `m`. */
  function OptionsReached<T(==), K>(g: map<K, Vertex<T, K>>, st: Coloring<T, K>, node: K, i: nat, m: nat): Coloring<T, K>
    requires Closed(g) && node in g && i <= m <= |g[node].options|
    decreases m - i
  {
    if m == i then st else OptionStep(g, OptionsReached(g, st, node, i, m - 1), node, m - 1)
  }

  /** Reaching `m` from `i` is one step at `i`, then reaching `m` from `i + 1`. */
  lemma {:induction false} ReachedShift<T, K>(g: map<K, Vertex<T, K>>, st: Coloring<T, K>, n: K, i: nat, m: nat)
    requires Closed(g) && n in g && i < m <= |g[n].options|
    ensures OptionsReached(g, st, n, i, m) == OptionsReached(g, OptionStep(g, st, n, i), n, i + 1, m)
    decreases m - i
  {
    if m > i + 1 {
      ReachedShift(g, st, n, i, m - 1);
    }
  }

  /**
   * The colour the option loop of a visited node leaves: either no option is
   * free when the loop reaches it and nothing changes, or the node ends with
   * the option at the LAST position whose option was still free when the
   * loop reached it (earlier claims are overwritten, there is no `break`).
   */
  lemma {:induction false} OptionsKeepLastFree<T, K>(g: map<K, Vertex<T, K>>, st: Coloring<T, K>, n: K, i: nat)
    requires Closed(g) && n in g && i <= |g[n].options| && n in st.visited
    ensures var r := ColorOptions(g, st, n, i);
      || (&& r == st
          && forall m :: i <= m < |g[n].options| ==>
               OptionsReached(g, st, n, i, m) == st && g[n].options[m] in st.used)
      || (exists m :: i <= m < |g[n].options|
           && g[n].options[m] !in OptionsReached(g, st, n, i, m).used
           && n in r.color && r.color[n] == Some(g[n].options[m])
           && forall p :: m < p < |g[n].options| ==> g[n].options[p] in OptionsReached(g, st, n, i, p).used)
    decreases |g[n].options| - i
  {
    if i < |g[n].options| {
      var opts := g[n].options;
      var st' := OptionStep(g, st, n, i);
      var r := ColorOptions(g, st', n, i + 1);
      assert r == ColorOptions(g, st, n, i);
      OptionsKeepLastFree(g, st', n, i + 1);
      forall p | i < p <= |opts|
        ensures OptionsReached(g, st, n, i, p) == OptionsReached(g, st', n, i + 1, p)
      {
        ReachedShift(g, st, n, i, p);
      }
      if exists m :: i + 1 <= m < |opts|
           && opts[m] !in OptionsReached(g, st', n, i + 1, m).used
           && n in r.color && r.color[n] == Some(opts[m])
           && forall p :: m < p < |opts| ==> opts[p] in OptionsReached(g, st', n, i + 1, p).used
      {
        var m :| i + 1 <= m < |opts|
           && opts[m] !in OptionsReached(g, st', n, i + 1, m).used
           && n in r.color && r.color[n] == Some(opts[m])
           && forall p :: m < p < |opts| ==> opts[p] in OptionsReached(g, st', n, i + 1, p).used;
        assert opts[m] !in OptionsReached(g, st, n, i, m).used;
      } else if opts[i] in st.used {
        assert st' == st && r == st;
      } else {
        var st1 := Claim(st, n, opts[i]);
        NeighboursFrame(g, st1, n, 0);
        assert r == st';
        assert n in r.color && r.color[n] == Some(opts[i]);
        assert opts[i] !in OptionsReached(g, st, n, i, i).used;
      }
    }
  }

  /** `colors` gives every node of `g` the colour None, as `Node.__init__` does. */
  predicate Blank<T, K>(g: map<K, Vertex<T, K>>, colors: map<K, Option<T>>) {
    && (forall k :: k in g ==> k in colors)
    && (forall k :: k in colors ==> k in g && colors[k] == None)
  }

  /** The colours of freshly made nodes. */
  function NoColors<T, K>(g: map<K, Vertex<T, K>>): (r: map<K, Option<T>>)
    ensures Blank(g, r)
  {
    map k | k in g :: None
  }

  /**
   * `color(start)` on fresh nodes: every colour is one of its node's options,
   * no two nodes share a colour, and every colour is in `used_colors`; only
   * visited nodes have one, and every node keeps its place in the map.
   */
  lemma ColoringProper<T, K>(g: map<K, Vertex<T, K>>, colors: map<K, Option<T>>, start: K)
    requires Closed(g) && start in g && Blank(g, colors)
    ensures var r := ColorFrom(g, colors, start);
      && Proper(g, r)
      && (forall k :: k in g <==> k in r.color)
  {
    var st := Coloring({}, {}, colors);
    VisitProper(g, st, start);
    VisitFrame(g, st, start);
  }

  /**
   * `color(start)` visits only nodes reachable from `start`; each visited
   * node has all its options in `used_colors` (the option loop has no
   * `break`), and each visited node other than `start` is a neighbour of a
   * coloured node, since neighbours are explored only after a claim.
   */
  lemma ColoringCovers<T, K(!new)>(g: map<K, Vertex<T, K>>, colors: map<K, Option<T>>, start: K)
    requires Closed(g) && start in g
    ensures var r := ColorFrom(g, colors, start);
      forall x :: x in r.visited ==>
        && x in g && Reachable(g, start, x)
        && (forall m :: 0 <= m < |g[x].options| ==> g[x].options[m] in r.used)
        && (x != start ==> HasColouredParent(g, r, x))
  {
    VisitCovers(g, Coloring({}, {}, colors), start);
  }

  /** The neighbours of a node are exactly the other nodes that share one of its options. */
  ghost predicate SharingEdges<T, K>(g: map<K, Vertex<T, K>>) {
    forall a, b :: a in g && b in g ==>
      (b in g[a].neighbours <==> a != b && exists s :: s in g[a].options && s in g[b].options)
  }

  /**
   * On a graph whose edges join exactly the nodes with a common option,
   * `color(start)` visits precisely the nodes reachable from `start`: a
   * visited node has all its options used, and each used option was claimed
   * by a node whose neighbours, among them every other node with that
   * option, were all visited next.
   */
  lemma ColoringReachesAll<T, K(!new)>(g: map<K, Vertex<T, K>>, colors: map<K, Option<T>>, start: K)
    requires Closed(g) && start in g && SharingEdges(g)
    ensures var r := ColorFrom(g, colors, start);
      forall x :: x in g ==> (x in r.visited <==> Reachable(g, start, x))
  {
    var st := Coloring({}, {}, colors);
    var r := ColorFrom(g, colors, start);
    VisitWitnessed(g, st, start);
    ColoringCovers(g, colors, start);
    assert start in r.visited;
    forall y, j | y in r.visited && y in g && 0 <= j < |g[y].neighbours|
      ensures g[y].neighbours[j] in r.visited
    {
      var z := g[y].neighbours[j];
      var s :| s in g[y].options && s in g[z].options;
      var m :| 0 <= m < |g[y].options| && g[y].options[m] == s;
      var x :| x in r.visited && x in g && s in g[x].options && NeighboursVisited(g, r, x);
      if x != z {
        assert z in g[x].neighbours;
        var k :| 0 <= k < |g[x].neighbours| && g[x].neighbours[k] == z;
      }
    }
    forall x | x in g && Reachable(g, start, x) ensures x in r.visited {
      ReachInClosed(g, r.visited, start, x);
    }
  }

  /** Nodes not reachable from `start` keep the colour None. */
  lemma UnreachableUncoloured<T, K(!new)>(g: map<K, Vertex<T, K>>, colors: map<K, Option<T>>, start: K, x: K)
    requires Closed(g) && start in g && Blank(g, colors) && x in g && !Reachable(g, start, x)
    ensures var r := ColorFrom(g, colors, start); x in r.color && r.color[x] == None
  {
    ColoringProper(g, colors, start);
    ColoringCovers(g, colors, start);
  }

  /** The start node gets a colour exactly when it has an option. */
  lemma StartColoured<T, K>(g: map<K, Vertex<T, K>>, colors: map<K, Option<T>>, start: K)
    requires Closed(g) && start in g && Blank(g, colors)
    ensures var r := ColorFrom(g, colors, start);
      start in r.color && (r.color[start] != None <==> |g[start].options| > 0)
  {
    var st := Coloring({start}, {}, colors);
    assert {} + {start} == {start};
    assert ColorFrom(g, colors, start) == ColorOptions(g, st, start, 0);
    OptionsOutcome(g, st, start, 0);
    if |g[start].options| > 0 {
      assert g[start].options[0] !in st.used;
    }
  }

  /**
   * With no `break`, an isolated node with options [1, 2] claims both and
   * keeps 2, where a loop stopping at the first free option would keep 1.
   */
  lemma LastFreeOptionKept()
    ensures var g := map["a" := Vertex([1, 2], [])];
      ColorFrom(g, map["a" := None], "a") == Coloring({"a"}, {1, 2}, map["a" := Some(2)])
  {
    var g := map["a" := Vertex([1, 2], [])];
    var st0 := Coloring({"a"}, {}, map["a" := None]);
    assert {} + {"a"} == {"a"};
    assert ColorFrom(g, map["a" := None], "a") == ColorOptions(g, st0, "a", 0);
    var st1 := Claim(st0, "a", 1);
    assert ColorNeighbours(g, st1, "a", 0) == st1;
    assert ColorOptions(g, st0, "a", 0) == ColorOptions(g, st1, "a", 1);
    var st2 := Claim(st1, "a", 2);
    assert 2 !in st1.used;
    assert ColorNeighbours(g, st2, "a", 0) == st2;
    assert ColorOptions(g, st1, "a", 1) == ColorOptions(g, st2, "a", 2);
    assert ColorOptions(g, st2, "a", 2) == st2;
    assert st2.color == map["a" := Some(2)];
    assert st2.used == {1, 2};
  }
}
