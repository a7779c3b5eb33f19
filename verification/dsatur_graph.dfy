/**
 * The graph of TP4/dsatur_app.py without its drawing: `GraphNode` (colour,
 * saturation, degree and the set of neighbour ids of one vertex) and `Graph`
 * (the node dictionary, the edge list and the id counter).
 *
 * A `GraphNode` is kept as a value in the graph's dictionary: the graph is
 * the only holder of its nodes in the modelled code, so updating a node in
 * place is reassigning its entry.
 */
module ColoringGraph {
  import opened Common

  /** `len(self.colors)`: the palette of the window has ten colours, 0..9. */
  const Palette := 10
  /** The colour of a node that has none. */
  const NoColor := -1

  /** An entry of `Graph.edges`: the two endpoints in the order they were given. */
  type Edge = (int, int)

  /** A `GraphNode` without its drawing. */
  datatype Vertex = Vertex(color: int, saturation: int, degree: int, neighbors: set<int>)

  /** A node as `GraphNode.__init__` creates it: uncoloured, no neighbours. */
  const Fresh := Vertex(NoColor, 0, 0, {})

  // ---- GraphNode ----

  /**
   * `add_neighbor`: an id not yet a neighbour joins the set and the degree
   * becomes the set's size; a known id changes nothing.
   */
  function AddNeighbor(v: Vertex, id: int): (r: Vertex)
    ensures r.neighbors == v.neighbors + {id}
    ensures r.color == v.color && r.saturation == v.saturation
    ensures id in v.neighbors ==> r == v
    ensures id !in v.neighbors ==> r.degree == |r.neighbors|
  {
    if id !in v.neighbors then v.(neighbors := v.neighbors + {id}, degree := |v.neighbors + {id}|) else v
  }

  /**
   * `remove_neighbor`: a neighbour leaves the set and the degree becomes the
   * set's size; an id that is not a neighbour changes nothing.
   */
  function RemoveNeighbor(v: Vertex, id: int): (r: Vertex)
    ensures r.neighbors == v.neighbors - {id}
    ensures r.color == v.color && r.saturation == v.saturation
    ensures id !in v.neighbors ==> r == v
    ensures id in v.neighbors ==> r.degree == |r.neighbors|
  {
    if id in v.neighbors then v.(neighbors := v.neighbors - {id}, degree := |v.neighbors - {id}|) else v
  }

  /** A node's degree is the number of its neighbours. */
  predicate Counted(v: Vertex) {
    v.degree == |v.neighbors|
  }

  /** Both updates keep the degree equal to the number of neighbours, and repeating one changes nothing. */
  lemma NeighborUpdates(v: Vertex, id: int)
    requires Counted(v)
    ensures Counted(AddNeighbor(v, id)) && Counted(RemoveNeighbor(v, id))
    ensures AddNeighbor(AddNeighbor(v, id), id) == AddNeighbor(v, id)
    ensures RemoveNeighbor(RemoveNeighbor(v, id), id) == RemoveNeighbor(v, id)
    ensures id !in v.neighbors ==> AddNeighbor(v, id).degree == v.degree + 1
    ensures id in v.neighbors ==> RemoveNeighbor(v, id).degree == v.degree - 1
  {
  }

  /** Removing a neighbour that was just added gives the node back. */
  lemma AddThenRemove(v: Vertex, id: int)
    requires Counted(v) && id !in v.neighbors
    ensures RemoveNeighbor(AddNeighbor(v, id), id) == v
  {
    assert v.neighbors + {id} - {id} == v.neighbors;
  }

  /**
   * The colours `update_saturation` and `color_node_dsatur` collect: the
   * colours other than -1 of the listed neighbours.
   */
  ghost function NeighborColors(nodes: map<int, Vertex>, nbrs: set<int>): set<int> {
    set n | n in nbrs && n in nodes && nodes[n].color != NoColor :: nodes[n].color
  }

  /** One more neighbour adds its colour, if it is a node with one. */
  lemma NeighborColorsAdd(nodes: map<int, Vertex>, done: set<int>, n: int)
    ensures NeighborColors(nodes, done + {n}) ==
            NeighborColors(nodes, done) + (if n in nodes && nodes[n].color != NoColor then {nodes[n].color} else {})
  {
    var a, b := NeighborColors(nodes, done + {n}), NeighborColors(nodes, done);
    forall c | c in a ensures c in b || (n in nodes && nodes[n].color != NoColor && c == nodes[n].color) {
      var m :| m in done + {n} && m in nodes && nodes[m].color != NoColor && nodes[m].color == c;
      if m != n {
        assert m in done;
      }
    }
  }

  /** Only colours matter: maps that agree on the colours of the listed nodes give the same set. */
  lemma NeighborColorsSame(nodes: map<int, Vertex>, nodes': map<int, Vertex>, nbrs: set<int>)
    requires forall n :: n in nbrs ==> (n in nodes <==> n in nodes')
    requires forall n :: n in nbrs && n in nodes ==> nodes'[n].color == nodes[n].color
    ensures NeighborColors(nodes, nbrs) == NeighborColors(nodes', nbrs)
  {
    var a, b := NeighborColors(nodes, nbrs), NeighborColors(nodes', nbrs);
    forall c | c in a ensures c in b {
      var m :| m in nbrs && m in nodes && nodes[m].color != NoColor && nodes[m].color == c;
      assert nodes'[m].color == c;
    }
    forall c | c in b ensures c in a {
      var m :| m in nbrs && m in nodes' && nodes'[m].color != NoColor && nodes'[m].color == c;
      assert nodes[m].color == c;
    }
  }

  // ---- the edge list ----

  /** The edge e joins a and b, in either orientation: the test of `add_edge` and `remove_edge`. */
  predicate Links(e: Edge, a: int, b: int) {
    (e.0 == a && e.1 == b) || (e.0 == b && e.1 == a)
  }

  /** Some edge of the list joins a and b. */
  ghost predicate Joined(edges: seq<Edge>, a: int, b: int) {
    exists i :: 0 <= i < |edges| && Links(edges[i], a, b)
  }

  /** The edge e has id as an endpoint: the test of `remove_node`. */
  predicate Touches(e: Edge, id: int) {
    e.0 == id || e.1 == id
  }

  /** No two entries of the list join the same pair. */
  ghost predicate DistinctEdges(edges: seq<Edge>) {
    forall i, j :: 0 <= i < j < |edges| ==> !Links(edges[j], edges[i].0, edges[i].1)
  }

  /** The index of the first edge joining a and b, or |edges| when there is none. */
  function FirstLink(edges: seq<Edge>, a: int, b: int): (i: nat)
    ensures i <= |edges|
    ensures forall t :: 0 <= t < i ==> !Links(edges[t], a, b)
    ensures i < |edges| ==> Links(edges[i], a, b)
    ensures i < |edges| <==> Joined(edges, a, b)
  {
    if edges == [] then 0
    else if Links(edges[0], a, b) then 0
    else
      var i := 1 + FirstLink(edges[1..], a, b);
      assert forall t :: 1 <= t < |edges| ==> edges[t] == edges[1..][t - 1];
      i
  }

  /** The edges that touch id, in list order: `edges_to_remove` of `remove_node`. */
  function Touching(edges: seq<Edge>, id: int): (r: seq<Edge>)
    ensures forall e :: e in r <==> e in edges && Touches(e, id)
  {
    if edges == [] then []
    else (if Touches(edges[0], id) then [edges[0]] else []) + Touching(edges[1..], id)
  }

  /** The edges that do not touch id, in list order. */
  function Detached(edges: seq<Edge>, id: int): (r: seq<Edge>)
    ensures forall e :: e in r <==> e in edges && !Touches(e, id)
  {
    if edges == [] then []
    else (if Touches(edges[0], id) then [] else [edges[0]]) + Detached(edges[1..], id)
  }

  /** The entries of s that are not in gone, in order. */
  function Omit(s: seq<Edge>, gone: seq<Edge>): (r: seq<Edge>)
    ensures forall e :: e in r <==> e in s && e !in gone
  {
    if s == [] then []
    else (if s[0] in gone then [] else [s[0]]) + Omit(s[1..], gone)
  }

  lemma JoinedCons(h: Edge, t: seq<Edge>, a: int, b: int)
    ensures Joined([h] + t, a, b) <==> Links(h, a, b) || Joined(t, a, b)
  {
    var s := [h] + t;
    if Joined(s, a, b) && !Links(h, a, b) {
      var i :| 0 <= i < |s| && Links(s[i], a, b);
      assert s[i] == t[i - 1];
    }
    if Joined(t, a, b) {
      var i :| 0 <= i < |t| && Links(t[i], a, b);
      assert s[i + 1] == t[i];
      assert Links(s[i + 1], a, b);
    }
    if Links(h, a, b) {
      assert Links(s[0], a, b);
    }
  }

  lemma JoinedAppend(edges: seq<Edge>, e: Edge, a: int, b: int)
    ensures Joined(edges + [e], a, b) <==> Joined(edges, a, b) || Links(e, a, b)
  {
    var s := edges + [e];
    if Joined(s, a, b) && !Links(e, a, b) {
      var i :| 0 <= i < |s| && Links(s[i], a, b);
      assert s[i] == edges[i];
    }
    if Joined(edges, a, b) {
      var i :| 0 <= i < |edges| && Links(edges[i], a, b);
      assert s[i] == edges[i];
    }
    assert s[|edges|] == e;
  }

  /** In a list without duplicate pairs, no other entry joins the pair of entry u. */
  lemma OnlyOnce(edges: seq<Edge>, i: nat, u: nat, a: int, b: int)
    requires DistinctEdges(edges) && i < |edges| && u < |edges| && i != u && Links(edges[u], a, b)
    ensures !Links(edges[i], a, b)
  {
    if i < u {
      assert !Links(edges[u], edges[i].0, edges[i].1);
    } else {
      assert !Links(edges[i], edges[u].0, edges[u].1);
    }
  }

  /** Without the entry at i, a distinct list joins exactly the pairs it joined except that entry's. */
  lemma JoinedCut(edges: seq<Edge>, i: nat, a: int, b: int)
    requires DistinctEdges(edges) && i < |edges|
    ensures Joined(edges[..i] + edges[i + 1..], a, b) <==> Joined(edges, a, b) && !Links(edges[i], a, b)
  {
    var r := edges[..i] + edges[i + 1..];
    if Joined(r, a, b) {
      var t :| 0 <= t < |r| && Links(r[t], a, b);
      var u := if t < i then t else t + 1;
      assert r[t] == edges[u];
      OnlyOnce(edges, i, u, a, b);
    }
    if Joined(edges, a, b) && !Links(edges[i], a, b) {
      var u :| 0 <= u < |edges| && Links(edges[u], a, b);
      if u < i {
        assert r[u] == edges[u];
      } else {
        assert r[u - 1] == edges[u];
      }
    }
  }

  lemma DistinctCut(edges: seq<Edge>, i: nat)
    requires DistinctEdges(edges) && i < |edges|
    ensures DistinctEdges(edges[..i] + edges[i + 1..])
  {
    var r := edges[..i] + edges[i + 1..];
    forall p, q | 0 <= p < q < |r| ensures !Links(r[q], r[p].0, r[p].1) {
      var p', q' := if p < i then p else p + 1, if q < i then q else q + 1;
      assert r[p] == edges[p'] && r[q] == edges[q'] && p' < q';
    }
  }

  lemma DistinctAppend(edges: seq<Edge>, a: int, b: int)
    requires DistinctEdges(edges) && !Joined(edges, a, b)
    ensures DistinctEdges(edges + [(a, b)])
  {
    var s := edges + [(a, b)];
    forall p, q | 0 <= p < q < |s| ensures !Links(s[q], s[p].0, s[p].1) {
      assert s[p] == edges[p];
      if q == |edges| {
        if Links(s[q], s[p].0, s[p].1) {
          assert Links(edges[p], a, b);
        }
      } else {
        assert s[q] == edges[q];
      }
    }
  }

  /** A list without duplicate pairs has no duplicate entries. */
  lemma DistinctUnique(edges: seq<Edge>)
    requires DistinctEdges(edges)
    ensures Unique(edges)
  {
    forall i, j | 0 <= i < j < |edges| ensures edges[i] != edges[j] {
      assert !Links(edges[j], edges[i].0, edges[i].1);
    }
  }

  /** Without the edges at id, a list joins the pairs it joined that avoid id. */
  lemma {:induction false} JoinedDetached(edges: seq<Edge>, id: int, a: int, b: int)
    ensures Joined(Detached(edges, id), a, b) <==> Joined(edges, a, b) && a != id && b != id
    decreases |edges|
  {
    if edges == [] {
      assert !Joined(Detached(edges, id), a, b);
    } else {
      var h, t := edges[0], edges[1..];
      assert edges == [h] + t;
      JoinedCons(h, t, a, b);
      JoinedDetached(t, id, a, b);
      if Touches(h, id) {
        assert Detached(edges, id) == Detached(t, id);
      } else {
        assert Detached(edges, id) == [h] + Detached(t, id);
        JoinedCons(h, Detached(t, id), a, b);
      }
    }
  }

  lemma DistinctCons(h: Edge, t: seq<Edge>)
    ensures DistinctEdges([h] + t) <==> !Joined(t, h.0, h.1) && DistinctEdges(t)
  {
    var s := [h] + t;
    if DistinctEdges(s) {
      forall i, j | 0 <= i < j < |t| ensures !Links(t[j], t[i].0, t[i].1) {
        assert s[i + 1] == t[i] && s[j + 1] == t[j];
      }
      forall i | 0 <= i < |t| ensures !Links(t[i], h.0, h.1) {
        assert s[i + 1] == t[i] && s[0] == h;
      }
    }
    if !Joined(t, h.0, h.1) && DistinctEdges(t) {
      forall i, j | 0 <= i < j < |s| ensures !Links(s[j], s[i].0, s[i].1) {
        assert s[j] == t[j - 1];
        if i > 0 {
          assert s[i] == t[i - 1];
        }
      }
    }
  }

  lemma {:induction false} DistinctDetached(edges: seq<Edge>, id: int)
    requires DistinctEdges(edges)
    ensures DistinctEdges(Detached(edges, id))
    decreases |edges|
  {
    if edges != [] {
      var h, t := edges[0], edges[1..];
      assert edges == [h] + t;
      DistinctCons(h, t);
      DistinctDetached(t, id);
      if !Touches(h, id) {
        assert Detached(edges, id) == [h] + Detached(t, id);
        JoinedDetached(t, id, h.0, h.1);
        DistinctCons(h, Detached(t, id));
      }
    }
  }

  /** `list.remove` of an entry not yet omitted, in a list without repeats, omits one more entry. */
  lemma {:induction false} OmitRemove(s: seq<Edge>, gone: seq<Edge>, e: Edge)
    requires Unique(s) && e in s && e !in gone
    ensures e in Omit(s, gone)
    ensures PyRemove(Omit(s, gone), e) == Omit(s, gone + [e])
    decreases |s|
  {
    var h, t := s[0], s[1..];
    assert Unique(t) by {
      forall i, j | 0 <= i < j < |t| ensures t[i] != t[j] { assert t[i] == s[i + 1] && t[j] == s[j + 1]; }
    }
    if h == e {
      assert e !in t by {
        forall i | 0 <= i < |t| ensures t[i] != e { assert t[i] == s[i + 1]; }
      }
      OmitSame(t, gone, gone + [e]);
    } else {
      OmitRemove(t, gone, e);
      if h in gone {
        assert Omit(s, gone) == Omit(t, gone);
      } else {
        assert Omit(s, gone) == [h] + Omit(t, gone);
      }
    }
  }

  /** Two lists of omitted entries that agree on the entries of s omit the same. */
  lemma {:induction false} OmitSame(s: seq<Edge>, g: seq<Edge>, g': seq<Edge>)
    requires forall e :: e in s ==> (e in g <==> e in g')
    ensures Omit(s, g) == Omit(s, g')
    decreases |s|
  {
    if s != [] {
      OmitSame(s[1..], g, g');
    }
  }

  /** Omitting exactly the entries that touch id leaves the detached list. */
  lemma {:induction false} OmitTouching(s: seq<Edge>, g: seq<Edge>, id: int)
    requires forall e :: e in s ==> (e in g <==> Touches(e, id))
    ensures Omit(s, g) == Detached(s, id)
    decreases |s|
  {
    if s != [] {
      OmitTouching(s[1..], g, id);
    }
  }

  // ---- the graph's invariant, on values ----

  /**
   * The ids: every key is below the counter and at least 1, and `order`
   * (the dictionary's key order) lists the keys in increasing order.
   */
  ghost predicate Registered(nodes: map<int, Vertex>, order: seq<int>, next: int) {
    1 <= next && (forall k :: k in nodes ==> 1 <= k < next) &&
    StrictlySorted(order) && (forall k :: k in nodes <==> k in order)
  }

  /** Every edge joins two different nodes of the graph, and no pair is joined twice. */
  ghost predicate EdgesOver(keys: set<int>, edges: seq<Edge>) {
    (forall i :: 0 <= i < |edges| ==> edges[i].0 in keys && edges[i].1 in keys && edges[i].0 != edges[i].1) &&
    DistinctEdges(edges)
  }

  /** The neighbour sets are what the edge list says. */
  ghost predicate Adjacent(nodes: map<int, Vertex>, edges: seq<Edge>) {
    forall a, b :: a in nodes ==> (b in nodes[a].neighbors <==> Joined(edges, a, b))
  }

  /** Every degree counts the neighbours, saturations are not negative, colours are -1 or a palette index. */
  ghost predicate Tidy(nodes: map<int, Vertex>) {
    forall k :: k in nodes ==> Counted(nodes[k]) && nodes[k].saturation >= 0 && NoColor <= nodes[k].color < Palette
  }

  /** Neighbourhood is symmetric: it comes from an undirected edge list. */
  lemma AdjacentSymmetric(nodes: map<int, Vertex>, edges: seq<Edge>, a: int, b: int)
    requires EdgesOver(nodes.Keys, edges) && Adjacent(nodes, edges)
    requires a in nodes && b in nodes[a].neighbors
    ensures b in nodes && a in nodes[b].neighbors && a != b
  {
    var i :| 0 <= i < |edges| && Links(edges[i], a, b);
    assert Links(edges[i], b, a);
  }

  /** Every neighbour of a node is a node. */
  lemma NeighborsPresent(nodes: map<int, Vertex>, edges: seq<Edge>, id: int)
    requires EdgesOver(nodes.Keys, edges) && Adjacent(nodes, edges) && id in nodes
    ensures nodes[id].neighbors <= nodes.Keys
  {
    forall b | b in nodes[id].neighbors ensures b in nodes {
      AdjacentSymmetric(nodes, edges, id, b);
    }
  }

  /** Adding an edge between two nodes it did not join, with both neighbour updates. */
  lemma AdjacentAdd(nodes: map<int, Vertex>, edges: seq<Edge>, a: int, b: int)
    requires Adjacent(nodes, edges) && a in nodes && b in nodes && a != b
    ensures Adjacent(nodes[a := AddNeighbor(nodes[a], b)][b := AddNeighbor(nodes[b], a)], edges + [(a, b)])
  {
    var m := nodes[a := AddNeighbor(nodes[a], b)][b := AddNeighbor(nodes[b], a)];
    forall x, y | x in m ensures y in m[x].neighbors <==> Joined(edges + [(a, b)], x, y) {
      JoinedAppend(edges, (a, b), x, y);
    }
  }

  /** Removing the entry at i, which joins a and b, with both neighbour updates. */
  lemma AdjacentRemove(nodes: map<int, Vertex>, edges: seq<Edge>, i: nat, a: int, b: int)
    requires Adjacent(nodes, edges) && DistinctEdges(edges) && i < |edges| && Links(edges[i], a, b)
    requires a in nodes && b in nodes && a != b
    ensures Adjacent(nodes[a := RemoveNeighbor(nodes[a], b)][b := RemoveNeighbor(nodes[b], a)], edges[..i] + edges[i + 1..])
  {
    var m := nodes[a := RemoveNeighbor(nodes[a], b)][b := RemoveNeighbor(nodes[b], a)];
    forall x, y | x in m ensures y in m[x].neighbors <==> Joined(edges[..i] + edges[i + 1..], x, y) {
      JoinedCut(edges, i, x, y);
    }
  }

  /** The nodes `remove_node(id)` leaves: id gone, and id gone from every neighbour set. */
  function Unlinked(nodes: map<int, Vertex>, id: int): (m: map<int, Vertex>)
    ensures m.Keys == nodes.Keys - {id}
  {
    map k | k in nodes && k != id :: RemoveNeighbor(nodes[k], id)
  }

  lemma AdjacentUnlinked(nodes: map<int, Vertex>, edges: seq<Edge>, id: int)
    requires Adjacent(nodes, edges)
    ensures Adjacent(Unlinked(nodes, id), Detached(edges, id))
  {
    var m := Unlinked(nodes, id);
    forall x, y | x in m ensures y in m[x].neighbors <==> Joined(Detached(edges, id), x, y) {
      JoinedDetached(edges, id, x, y);
    }
  }

  lemma EdgesOverDetached(keys: set<int>, edges: seq<Edge>, id: int)
    requires EdgesOver(keys, edges)
    ensures EdgesOver(keys - {id}, Detached(edges, id))
  {
    var d := Detached(edges, id);
    forall i | 0 <= i < |d| ensures d[i].0 in keys - {id} && d[i].1 in keys - {id} && d[i].0 != d[i].1 {
      assert d[i] in d;
      var j :| 0 <= j < |edges| && edges[j] == d[i];
    }
    DistinctDetached(edges, id);
  }

  /** A fresh id joins no edge: every edge's endpoints are older nodes. */
  lemma NotJoined(keys: set<int>, edges: seq<Edge>, id: int, b: int)
    requires EdgesOver(keys, edges) && id !in keys
    ensures !Joined(edges, id, b) && !Joined(edges, b, id)
  {
  }

  /** The whole invariant of a `Graph`'s fields. */
  ghost predicate Wellformed(nodes: map<int, Vertex>, order: seq<int>, edges: seq<Edge>, next: int) {
    Registered(nodes, order, next) && EdgesOver(nodes.Keys, edges) && Adjacent(nodes, edges) && Tidy(nodes)
  }

  // ---- Graph ----

  /** The scan of `add_edge` and `remove_edge`: the first edge joining a and b, or the list's length. */
  method FindLink(edges: seq<Edge>, a: int, b: int) returns (i: nat)
    ensures i == FirstLink(edges, a, b)
  {
    i := 0;
    while i < |edges|
      invariant i <= |edges|
      invariant forall t :: 0 <= t < i ==> !Links(edges[t], a, b)
    {
      if Links(edges[i], a, b) {
        return;
      }
      i := i + 1;
    }
  }

  /** The first loop of `remove_node`: the edges at id, in list order. */
  method IncidentEdges(edges: seq<Edge>, id: int) returns (incident: seq<Edge>)
    ensures incident == Touching(edges, id)
  {
    incident := [];
    var i := 0;
    while i < |edges|
      invariant i <= |edges|
      invariant incident == Touching(edges[..i], id)
    {
      if edges[i].0 == id || edges[i].1 == id {
        incident := incident + [edges[i]];
      }
      assert edges[..i + 1] == edges[..i] + [edges[i]];
      TouchingAppend(edges[..i], edges[i], id);
      i := i + 1;
    }
    assert edges[..i] == edges;
  }

  class Graph {
    /** `self.nodes`: id to node. */
    var nodes: map<int, Vertex>
    /** The keys of `self.nodes` in the dictionary's order. */
    var order: seq<int>
    /** `self.edges`: the pairs in the order they were added. */
    var edges: seq<Edge>
    /** `self.next_node_id` */
    var nextNodeId: int

    ghost predicate Valid()
      reads this
    {
      Wellformed(nodes, order, edges, nextNodeId)
    }

    /** `Graph.__init__`: no nodes, no edges, ids start at 1. */
    constructor ()
      ensures Valid()
      ensures nodes == map[] && order == [] && edges == [] && nextNodeId == 1
    {
      nodes := map[];
      order := [];
      edges := [];
      nextNodeId := 1;
    }

    /** `add_node`: the next id gets a fresh node; ids are handed out 1, 2, 3, ... */
    method AddNode() returns (id: int)
      requires Valid()
      modifies this
      ensures Valid()
      ensures id == old(nextNodeId) && id !in old(nodes) && nextNodeId == id + 1
      ensures nodes == old(nodes)[id := Fresh] && order == old(order) + [id] && edges == old(edges)
    {
      id := nextNodeId;
      AddedNodeValid(nodes, order, edges, id);
      nodes := nodes[id := Fresh];
      order := order + [id];
      nextNodeId := nextNodeId + 1;
    }

    /**
     * `add_edge`: refused (false) when an edge already joins the two ids in
     * either orientation, when an id is unknown or when both are the same;
     * otherwise the pair is appended and each end becomes the other's neighbour.
     */
    method AddEdge(a: int, b: int) returns (ok: bool)
      requires Valid()
      modifies this
      ensures Valid()
      ensures ok <==> !Joined(old(edges), a, b) && a in old(nodes) && b in old(nodes) && a != b
      ensures ok ==> edges == old(edges) + [(a, b)] &&
                     nodes == old(nodes)[a := AddNeighbor(old(nodes)[a], b)][b := AddNeighbor(old(nodes)[b], a)]
      ensures !ok ==> edges == old(edges) && nodes == old(nodes)
      ensures order == old(order) && nextNodeId == old(nextNodeId)
    {
      var i := FindLink(edges, a, b);
      if i < |edges| {
        return false;
      }
      if a in nodes && b in nodes && a != b {
        AddedEdgeValid(nodes, order, edges, nextNodeId, a, b);
        var linked := nodes[a := AddNeighbor(nodes[a], b)];
        linked := linked[b := AddNeighbor(nodes[b], a)];
        edges, nodes := edges + [(a, b)], linked;
        return true;
      }
      return false;
    }

    /**
     * `remove_edge`: the first edge joining the two ids, in either
     * orientation, is removed together with both neighbour links; false
     * when there is none.
     */
    method RemoveEdge(a: int, b: int) returns (ok: bool)
      requires Valid()
      modifies this
      ensures Valid()
      ensures ok <==> Joined(old(edges), a, b)
      ensures ok ==> var k := FirstLink(old(edges), a, b);
                     edges == old(edges)[..k] + old(edges)[k + 1..] &&
                     nodes == old(nodes)[a := RemoveNeighbor(old(nodes)[a], b)][b := RemoveNeighbor(old(nodes)[b], a)]
      ensures !ok ==> edges == old(edges) && nodes == old(nodes)
      ensures order == old(order) && nextNodeId == old(nextNodeId)
    {
      var k := FindLink(edges, a, b);
      if k == |edges| {
        return false;
      }
      var e := edges[k];
      RemovedEdgeValid(nodes, order, edges, nextNodeId, k, a, b);
      edges := PyRemove(edges, e);
      if a in nodes {
        nodes := nodes[a := RemoveNeighbor(nodes[a], b)];
      }
      if b in nodes {
        nodes := nodes[b := RemoveNeighbor(nodes[b], a)];
      }
      return true;
    }

    /**
     * `remove_node`: every edge at the node is removed with its neighbour
     * links, then the node itself; false for an unknown id.
     */
    method RemoveNode(id: int) returns (ok: bool)
      requires Valid()
      modifies this
      ensures Valid()
      ensures ok <==> id in old(nodes)
      ensures ok ==> nodes == Unlinked(old(nodes), id) && edges == Detached(old(edges), id) &&
                     order == Without(old(order), id)
      ensures !ok ==> nodes == old(nodes) && edges == old(edges) && order == old(order)
      ensures nextNodeId == old(nextNodeId)
    {
      if id !in nodes {
        return false;
      }
      var incident := IncidentEdges(edges, id);
      ghost var edges0, nodes0 := edges, nodes;
      DistinctUnique(edges0);
      TouchingUnique(edges0, id);
      UnlinkingStart(nodes0, id);
      DetachAll(id, incident);
      OmitTouching(edges0, incident, id);
      UnlinkingDone(nodes0, nodes, edges0, incident, id);
      nodes := nodes - {id};
      order := Without(order, id);
      RemovedNodeValid(nodes0, old(order), edges0, nextNodeId, id);
      return true;
    }

    /**
     * The second loop of `remove_node`: each listed edge leaves the edge
     * list, and its ends lose each other as neighbours.
     */
    method DetachAll(id: int, incident: seq<Edge>)
      requires Unique(edges) && Unique(incident)
      requires forall e :: e in incident ==> e in edges && Touches(e, id)
      requires Unlinking(nodes, nodes, [], id)
      modifies this
      ensures edges == Omit(old(edges), incident)
      ensures nodes.Keys == old(nodes).Keys && Unlinking(old(nodes), nodes, incident, id)
      ensures order == old(order) && nextNodeId == old(nextNodeId)
    {
      ghost var edges0, nodes0 := edges, nodes;
      OmitNone(edges0);
      var j := 0;
      while j < |incident|
        invariant order == old(order) && nextNodeId == old(nextNodeId)
        invariant 0 <= j <= |incident|
        invariant DetachedSoFar(edges0, nodes0, edges, nodes, incident[..j], id)
      {
        ghost var edges1, nodes1 := edges, nodes;
        DetachOne(incident[j]);
        DetachedNext(edges0, nodes0, edges1, nodes1, edges, nodes, incident, j, id);
        j := j + 1;
      }
      assert incident[..j] == incident;
    }

    /** One round of that loop: the edge leaves the list, its ends lose each other. */
    method DetachOne(e: Edge)
      requires e in edges
      modifies this
      ensures edges == PyRemove(old(edges), e)
      ensures nodes == Detach(old(nodes), e)
      ensures order == old(order) && nextNodeId == old(nextNodeId)
    {
      edges := PyRemove(edges, e);
      if e.0 in nodes {
        nodes := nodes[e.0 := RemoveNeighbor(nodes[e.0], e.1)];
      }
      if e.1 in nodes {
        nodes := nodes[e.1 := RemoveNeighbor(nodes[e.1], e.0)];
      }
    }

    /** `reset_colors`: every node loses its colour and its saturation. */
    method ResetColors()
      requires Valid()
      modifies this
      ensures Valid()
      ensures nodes == Blanked(old(nodes))
      ensures order == old(order) && edges == old(edges) && nextNodeId == old(nextNodeId)
    {
      BlankedValid(nodes, order, edges, nextNodeId);
      BlankAll();
    }

    /** The loop of `reset_colors`, over the dictionary's keys. */
    method BlankAll()
      requires forall k :: k in nodes <==> k in order
      modifies this
      ensures nodes == Blanked(old(nodes))
      ensures order == old(order) && edges == old(edges) && nextNodeId == old(nextNodeId)
    {
      ghost var nodes0 := nodes;
      var i := 0;
      while i < |order|
        invariant order == old(order) && edges == old(edges) && nextNodeId == old(nextNodeId)
        invariant 0 <= i <= |order|
        invariant nodes.Keys == nodes0.Keys
        invariant forall k :: k in nodes ==> nodes[k] == if k in order[..i] then Blank(nodes0[k]) else nodes0[k]
      {
        var k := order[i];
        nodes := nodes[k := nodes[k].(color := NoColor, saturation := 0)];
        assert order[..i + 1] == order[..i] + [k];
        i := i + 1;
      }
      assert order[..i] == order;
      assert forall k :: k in nodes ==> nodes[k] == Blank(nodes0[k]);
    }

    /**
     * The loop of `update_saturation` and `color_node_dsatur`: the colours,
     * other than -1, of the node's neighbours.
     */
    method ColorsAround(id: int) returns (used: set<int>)
      requires id in nodes && nodes[id].neighbors <= nodes.Keys
      ensures used == NeighborColors(nodes, nodes[id].neighbors)
    {
      var nbrs := nodes[id].neighbors;
      var todo := nbrs;
      used := {};
      while todo != {}
        invariant todo <= nbrs
        invariant used == NeighborColors(nodes, nbrs - todo)
        decreases todo
      {
        NonEmpty(todo);
        var n :| n in todo;
        ColorsAroundStep(nodes, nbrs, todo, n);
        var c := nodes[n].color;
        if c != NoColor {
          used := used + {c};
        }
        todo := todo - {n};
      }
      assert nbrs - {} == nbrs;
    }

    /** `update_saturation`: the node's saturation becomes the number of distinct colours around it. */
    method UpdateSaturation(id: int) returns (s: int)
      requires Valid() && id in nodes
      modifies this
      ensures Valid()
      ensures s == |NeighborColors(old(nodes), old(nodes)[id].neighbors)|
      ensures nodes == old(nodes)[id := old(nodes)[id].(saturation := s)]
      ensures order == old(order) && edges == old(edges) && nextNodeId == old(nextNodeId)
    {
      NeighborsPresent(nodes, edges, id);
      var used := ColorsAround(id);
      s := |used|;
      RetouchedValid(nodes, order, edges, nextNodeId, id, nodes[id].(saturation := s));
      nodes := nodes[id := nodes[id].(saturation := s)];
    }

    /**
     * `GraphVisualizerDSATUR.color_node`: an index of the palette becomes the
     * node's colour (KeyError for an unknown id); any other index, -1
     * included, changes nothing.
     */
    method ColorNode(id: int, c: int) returns (r: Outcome<()>)
      requires Valid()
      modifies this
      ensures Valid()
      ensures r.Raised? <==> 0 <= c < Palette && id !in old(nodes)
      ensures r.Raised? ==> r.fault == KeyError
      ensures nodes == if 0 <= c < Palette && id in old(nodes) then old(nodes)[id := old(nodes)[id].(color := c)] else old(nodes)
      ensures order == old(order) && edges == old(edges) && nextNodeId == old(nextNodeId)
    {
      if 0 <= c < Palette {
        if id !in nodes {
          return Raised(KeyError);
        }
        RetouchedValid(nodes, order, edges, nextNodeId, id, nodes[id].(color := c));
        nodes := nodes[id := nodes[id].(color := c)];
      }
      return Ok(());
    }
  }

  // ---- proof steps of the Graph methods ----

  lemma AddedNodeValid(nodes: map<int, Vertex>, order: seq<int>, edges: seq<Edge>, id: int)
    requires Wellformed(nodes, order, edges, id)
    ensures id !in nodes
    ensures Wellformed(nodes[id := Fresh], order + [id], edges, id + 1)
  {
    forall i | 0 <= i < |order| ensures order[i] < id {
      assert order[i] in order;
    }
    forall b ensures !Joined(edges, id, b) {
      NotJoined(nodes.Keys, edges, id, b);
    }
  }

  lemma AddedEdgeValid(nodes: map<int, Vertex>, order: seq<int>, edges: seq<Edge>, next: int, a: int, b: int)
    requires Wellformed(nodes, order, edges, next)
    requires !Joined(edges, a, b) && a in nodes && b in nodes && a != b
    ensures Wellformed(nodes[a := AddNeighbor(nodes[a], b)][b := AddNeighbor(nodes[b], a)], order, edges + [(a, b)], next)
  {
    DistinctAppend(edges, a, b);
    AdjacentAdd(nodes, edges, a, b);
    var m := nodes[a := AddNeighbor(nodes[a], b)][b := AddNeighbor(nodes[b], a)];
    assert m.Keys == nodes.Keys;
    NeighborUpdates(nodes[a], b);
    NeighborUpdates(nodes[b], a);
  }

  lemma RemovedEdgeValid(nodes: map<int, Vertex>, order: seq<int>, edges: seq<Edge>, next: int, k: nat, a: int, b: int)
    requires Wellformed(nodes, order, edges, next)
    requires k == FirstLink(edges, a, b) && k < |edges|
    ensures a in nodes && b in nodes && a != b
    ensures PyRemove(edges, edges[k]) == edges[..k] + edges[k + 1..]
    ensures Wellformed(nodes[a := RemoveNeighbor(nodes[a], b)][b := RemoveNeighbor(nodes[b], a)], order,
                       edges[..k] + edges[k + 1..], next)
  {
    forall t | 0 <= t < k ensures edges[t] != edges[k] {
      assert !Links(edges[t], a, b);
    }
    PyRemoveAt(edges, k);
    CutValid(nodes, order, edges, next, k, a, b);
  }

  lemma CutValid(nodes: map<int, Vertex>, order: seq<int>, edges: seq<Edge>, next: int, k: nat, a: int, b: int)
    requires Wellformed(nodes, order, edges, next)
    requires k < |edges| && Links(edges[k], a, b)
    ensures a in nodes && b in nodes && a != b
    ensures Wellformed(nodes[a := RemoveNeighbor(nodes[a], b)][b := RemoveNeighbor(nodes[b], a)], order,
                       edges[..k] + edges[k + 1..], next)
  {
    AdjacentRemove(nodes, edges, k, a, b);
    EdgesOverCut(nodes.Keys, edges, k);
    NeighborUpdates(nodes[a], b);
    var n := nodes[a := RemoveNeighbor(nodes[a], b)];
    Replaced(nodes, order, next, a, RemoveNeighbor(nodes[a], b));
    NeighborUpdates(n[b], a);
    Replaced(n, order, next, b, RemoveNeighbor(n[b], a));
  }

  /** Replacing one node by a tidy one keeps the ids and the per-node invariant. */
  lemma Replaced(nodes: map<int, Vertex>, order: seq<int>, next: int, a: int, v: Vertex)
    requires Registered(nodes, order, next) && Tidy(nodes) && a in nodes
    requires Counted(v) && v.saturation >= 0 && NoColor <= v.color < Palette
    ensures nodes[a := v].Keys == nodes.Keys
    ensures Registered(nodes[a := v], order, next) && Tidy(nodes[a := v])
  {
  }

  lemma EdgesOverCut(keys: set<int>, edges: seq<Edge>, k: nat)
    requires EdgesOver(keys, edges) && k < |edges|
    ensures EdgesOver(keys, edges[..k] + edges[k + 1..])
  {
    DistinctCut(edges, k);
    var r := edges[..k] + edges[k + 1..];
    forall i | 0 <= i < |r| ensures r[i].0 in keys && r[i].1 in keys && r[i].0 != r[i].1 {
      if i < k {
        assert r[i] == edges[i];
      } else {
        assert r[i] == edges[i + 1];
      }
    }
  }

  /** A node keeps its neighbours, colour and saturation in range: the graph stays well formed. */
  lemma RetouchedValid(nodes: map<int, Vertex>, order: seq<int>, edges: seq<Edge>, next: int, id: int, v: Vertex)
    requires Wellformed(nodes, order, edges, next) && id in nodes
    requires v.neighbors == nodes[id].neighbors && v.degree == nodes[id].degree
    requires v.saturation >= 0 && NoColor <= v.color < Palette
    ensures Wellformed(nodes[id := v], order, edges, next)
  {
  }

  /** A node without colour and saturation. */
  function Blank(v: Vertex): Vertex {
    v.(color := NoColor, saturation := 0)
  }

  /** The nodes after `reset_colors`. */
  function Blanked(nodes: map<int, Vertex>): (m: map<int, Vertex>)
    ensures m.Keys == nodes.Keys
  {
    map k | k in nodes :: Blank(nodes[k])
  }

  lemma BlankedValid(nodes: map<int, Vertex>, order: seq<int>, edges: seq<Edge>, next: int)
    requires Wellformed(nodes, order, edges, next)
    ensures Wellformed(Blanked(nodes), order, edges, next)
  {
  }

  lemma ColorsAroundStep(nodes: map<int, Vertex>, nbrs: set<int>, todo: set<int>, n: int)
    requires todo <= nbrs && n in todo
    ensures NeighborColors(nodes, nbrs - (todo - {n})) ==
            NeighborColors(nodes, nbrs - todo) + (if n in nodes && nodes[n].color != NoColor then {nodes[n].color} else {})
  {
    assert nbrs - (todo - {n}) == (nbrs - todo) + {n};
    NeighborColorsAdd(nodes, nbrs - todo, n);
  }

  lemma TouchingAppend(s: seq<Edge>, e: Edge, id: int)
    ensures Touching(s + [e], id) == Touching(s, id) + (if Touches(e, id) then [e] else [])
  {
    if s == [] {
      assert s + [e] == [e];
    } else {
      assert (s + [e])[1..] == s[1..] + [e];
      TouchingAppend(s[1..], e, id);
    }
  }

  lemma {:induction false} TouchingUnique(s: seq<Edge>, id: int)
    requires Unique(s)
    ensures Unique(Touching(s, id))
    decreases |s|
  {
    if s != [] {
      var t := s[1..];
      assert Unique(t) by {
        forall i, j | 0 <= i < j < |t| ensures t[i] != t[j] { assert t[i] == s[i + 1] && t[j] == s[j + 1]; }
      }
      TouchingUnique(t, id);
      assert s[0] !in t by {
        forall i | 0 <= i < |t| ensures t[i] != s[0] { assert t[i] == s[i + 1]; }
      }
    }
  }

  lemma {:induction false} OmitNone(s: seq<Edge>)
    ensures Omit(s, []) == s
    decreases |s|
  {
    if s != [] {
      OmitNone(s[1..]);
    }
  }

  /**
   * The removal loop of `remove_node` so far: a node other than id has lost
   * id from its neighbours exactly when one of the edges handled joins it to id.
   */
  ghost predicate Unlinking(nodes0: map<int, Vertex>, nodes: map<int, Vertex>, handled: seq<Edge>, id: int) {
    forall k :: k in nodes0 && k != id ==>
      k in nodes && nodes[k] == if Joined(handled, k, id) then RemoveNeighbor(nodes0[k], id) else nodes0[k]
  }

  lemma UnlinkingStart(nodes: map<int, Vertex>, id: int)
    ensures Unlinking(nodes, nodes, [], id)
  {
  }

  /** The invariant of the second loop of `remove_node`, after the handled edges. */
  ghost predicate DetachedSoFar(edges0: seq<Edge>, nodes0: map<int, Vertex>, edges: seq<Edge>, nodes: map<int, Vertex>,
                                handled: seq<Edge>, id: int) {
    edges == Omit(edges0, handled) && nodes.Keys == nodes0.Keys && Unlinking(nodes0, nodes, handled, id)
  }

  /** One round of that loop keeps its invariant. */
  lemma DetachedNext(edges0: seq<Edge>, nodes0: map<int, Vertex>, edges: seq<Edge>, nodes: map<int, Vertex>,
                     edges': seq<Edge>, nodes': map<int, Vertex>, incident: seq<Edge>, j: int, id: int)
    requires Unique(edges0) && Unique(incident) && 0 <= j < |incident|
    requires incident[j] in edges0 && Touches(incident[j], id)
    requires DetachedSoFar(edges0, nodes0, edges, nodes, incident[..j], id)
    requires edges' == PyRemove(edges, incident[j]) && nodes' == Detach(nodes, incident[j])
    ensures DetachedSoFar(edges0, nodes0, edges', nodes', incident[..j + 1], id)
  {
    var e := incident[j];
    assert e !in incident[..j] by {
      forall t | 0 <= t < j ensures incident[t] != e { }
    }
    OmitRemove(edges0, incident[..j], e);
    assert incident[..j + 1] == incident[..j] + [e];
    UnlinkingStep(nodes0, nodes, nodes', incident[..j], e, id);
  }

  /** The nodes after the ends of e lose each other as neighbours. */
  function Detach(nodes: map<int, Vertex>, e: Edge): (m: map<int, Vertex>)
    ensures m.Keys == nodes.Keys
    ensures forall k :: k in nodes && k != e.0 && k != e.1 ==> m[k] == nodes[k]
  {
    var mid := if e.0 in nodes then nodes[e.0 := RemoveNeighbor(nodes[e.0], e.1)] else nodes;
    if e.1 in mid then mid[e.1 := RemoveNeighbor(mid[e.1], e.0)] else mid
  }

  lemma UnlinkingStep(nodes0: map<int, Vertex>, before: map<int, Vertex>, after: map<int, Vertex>,
                      handled: seq<Edge>, e: Edge, id: int)
    requires Unlinking(nodes0, before, handled, id) && Touches(e, id) && before.Keys == nodes0.Keys
    requires after == Detach(before, e)
    ensures Unlinking(nodes0, after, handled + [e], id) && after.Keys == nodes0.Keys
  {
    forall k | k in nodes0 && k != id
      ensures after[k] == if Joined(handled + [e], k, id) then RemoveNeighbor(nodes0[k], id) else nodes0[k]
    {
      JoinedAppend(handled, e, k, id);
      if k == e.0 {
        assert e.1 == id && Links(e, k, id);
      } else if k == e.1 {
        assert e.0 == id && Links(e, k, id);
      } else {
        assert !Links(e, k, id);
      }
    }
  }

  lemma UnlinkingDone(nodes0: map<int, Vertex>, nodes: map<int, Vertex>, edges: seq<Edge>, handled: seq<Edge>, id: int)
    requires Unlinking(nodes0, nodes, handled, id) && nodes.Keys == nodes0.Keys && id in nodes0
    requires Adjacent(nodes0, edges)
    requires forall e :: e in handled <==> e in edges && Touches(e, id)
    ensures nodes - {id} == Unlinked(nodes0, id)
  {
    forall k | k in nodes0 && k != id ensures nodes[k] == RemoveNeighbor(nodes0[k], id) {
      if Joined(edges, k, id) {
        var i :| 0 <= i < |edges| && Links(edges[i], k, id);
        assert edges[i] in handled;
        var t :| 0 <= t < |handled| && handled[t] == edges[i];
        assert Links(handled[t], k, id);
      }
      if Joined(handled, k, id) {
        var t :| 0 <= t < |handled| && Links(handled[t], k, id);
        assert handled[t] in edges;
        var i :| 0 <= i < |edges| && edges[i] == handled[t];
        assert Links(edges[i], k, id);
      }
    }
  }

  lemma RemovedNodeValid(nodes: map<int, Vertex>, order: seq<int>, edges: seq<Edge>, next: int, id: int)
    requires Wellformed(nodes, order, edges, next)
    ensures Wellformed(Unlinked(nodes, id), Without(order, id), Detached(edges, id), next)
  {
    var m := Unlinked(nodes, id);
    WithoutSorted(order, id);
    forall k ensures k in m <==> k in Without(order, id) {
      if k != id {
        WithoutMembers(order, id, k);
      }
    }
    EdgesOverDetached(nodes.Keys, edges, id);
    AdjacentUnlinked(nodes, edges, id);
    forall k | k in m ensures Counted(m[k]) {
      assert k in nodes;
      NeighborUpdates(nodes[k], id);
    }
  }
}
