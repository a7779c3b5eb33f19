/**
 * The dictionaries of `WeightedGraph` in TP4/johnson_app.py: the nodes
 * with their auxiliary flag, the undirected, directed and auxiliary edge
 * maps (key to weight), and the adjacency table, with the operations that
 * add and remove nodes and edges.  Scene items, labels and geometry are
 * not part of this model.
 */
module WeightedGraphs {
  import opened Common

  /** An edge key: an ordered pair of node ids. */
  type Arc = (int, int)

  /** The key `add_edge`/`remove_edge` store an edge under: as given when directed, smaller id first otherwise. */
  function Key(a: int, b: int, directed: bool): (k: Arc)
    ensures directed ==> k == (a, b)
    ensures !directed ==> k.0 <= k.1 && ((k.0 == a && k.1 == b) || (k.0 == b && k.1 == a))
  {
    if directed || a <= b then (a, b) else (b, a)
  }

  /** An undirected edge has one key whichever way its endpoints are given. */
  lemma KeyUnordered(a: int, b: int)
    ensures Key(a, b, false) == Key(b, a, false)
    ensures a != b ==> Key(a, b, false).0 < Key(a, b, false).1
  {
  }

  predicate Touches(k: Arc, id: int) {
    k.0 == id || k.1 == id
  }

  /** The entries of m whose key does not mention id. */
  function Away<V>(m: map<Arc, V>, id: int): (r: map<Arc, V>)
    ensures forall k :: k in r <==> k in m && !Touches(k, id)
    ensures forall k :: k in r ==> r[k] == m[k]
  {
    map k | k in m && !Touches(k, id) :: m[k]
  }

  /**
   * The four tables of a graph: `edges`, `directed_edges`,
   * `auxiliary_edges` (key to weight) and `adjacency` flattened, so that
   * `adjacency[(u, v)]` stands for `adjacency[u][v]`.
   */
  datatype Tables = Tables(edges: map<Arc, int>, directed: map<Arc, int>, auxiliary: map<Arc, int>, adjacency: map<Arc, int>)

  /** Every key joins two distinct known nodes. */
  ghost predicate Within<V>(ids: set<int>, m: map<Arc, V>) {
    forall k :: k in m ==> k.0 in ids && k.1 in ids && k.0 != k.1
  }

  /** What the graph's fields keep: ids below the counter, keys over known nodes, normalised undirected keys, a flagged S. */
  ghost predicate Consistent(nodes: map<int, bool>, t: Tables, auxiliaryNode: Option<int>, next: int) {
    next >= 1 && (forall k :: k in nodes ==> 1 <= k < next) &&
    Within(nodes.Keys, t.edges) && Within(nodes.Keys, t.directed) &&
    Within(nodes.Keys, t.auxiliary) && Within(nodes.Keys, t.adjacency) &&
    (forall k :: k in t.edges ==> k.0 < k.1) &&
    (auxiliaryNode.Some? ==> auxiliaryNode.value in nodes && nodes[auxiliaryNode.value])
  }

  // ---- add_edge and remove_edge on the tables ----

  /** What `add_edge` does to the tables once both endpoints are known, distinct nodes. */
  function Added(t: Tables, a: int, b: int, w: int, directed: bool, fromAuxiliary: bool): Tables {
    var k := Key(a, b, directed);
    if fromAuxiliary && k in t.auxiliary then t
    else if directed && k in t.directed then
      t.(directed := t.directed[k := w], adjacency := t.adjacency[(a, b) := w])
    else if !directed && k in t.edges then
      t.(edges := t.edges[k := w], adjacency := t.adjacency[(a, b) := w][(b, a) := w])
    else
      var stored := if fromAuxiliary then t.(auxiliary := t.auxiliary[k := w])
                    else if directed then t.(directed := t.directed[k := w])
                    else t.(edges := t.edges[k := w]);
      var adjacency := stored.adjacency[(a, b) := w];
      stored.(adjacency := if !directed && !fromAuxiliary then adjacency[(b, a) := w] else adjacency)
  }

  /** Whether `remove_edge` finds something to delete. */
  predicate Removable(t: Tables, a: int, b: int, directed: bool, fromAuxiliary: bool) {
    var k := Key(a, b, directed);
    (fromAuxiliary && k in t.auxiliary) || (directed && k in t.directed) || (!directed && k in t.edges)
  }

  /** What `remove_edge` does to the tables. */
  function Removed(t: Tables, a: int, b: int, directed: bool, fromAuxiliary: bool): Tables {
    var k := Key(a, b, directed);
    if fromAuxiliary && k in t.auxiliary then t.(auxiliary := t.auxiliary - {k})
    else if directed then
      if k in t.directed then t.(directed := t.directed - {k}, adjacency := t.adjacency - {(a, b)}) else t
    else
      if k in t.edges then t.(edges := t.edges - {k}, adjacency := t.adjacency - {(a, b), (b, a)}) else t
  }

  /** What `remove_node` leaves of the tables: nothing that mentions the node. */
  function Detached(t: Tables, id: int): Tables {
    Tables(Away(t.edges, id), Away(t.directed, id), Away(t.auxiliary, id), Away(t.adjacency, id))
  }

  /**
   * A user edge is stored once under its key with the new weight: adding
   * it again only updates the weight, and the other two edge maps do not
   * change.
   */
  lemma AddedStores(t: Tables, a: int, b: int, w: int, directed: bool)
    ensures var r := Added(t, a, b, w, directed, false);
            var k := Key(a, b, directed);
            r.auxiliary == t.auxiliary &&
            (directed ==> r.directed.Keys == t.directed.Keys + {k} && r.directed[k] == w && r.edges == t.edges) &&
            (!directed ==> r.edges.Keys == t.edges.Keys + {k} && r.edges[k] == w && r.directed == t.directed)
  {
  }

  /**
   * The adjacency table gets `[a][b] = w`, and `[b][a] = w` as well exactly
   * when the edge is undirected and not auxiliary; nothing else changes.
   */
  lemma AddedAdjacency(t: Tables, a: int, b: int, w: int, directed: bool, fromAuxiliary: bool)
    requires a != b
    requires !(fromAuxiliary && Key(a, b, directed) in t.auxiliary)
    ensures var r := Added(t, a, b, w, directed, fromAuxiliary);
            (a, b) in r.adjacency && r.adjacency[(a, b)] == w &&
            (!directed && !fromAuxiliary ==>
               (b, a) in r.adjacency && r.adjacency[(b, a)] == w &&
               r.adjacency - {(a, b), (b, a)} == t.adjacency - {(a, b), (b, a)}) &&
            (directed ==> r.adjacency - {(a, b)} == t.adjacency - {(a, b)})
  {
  }

  /** Adding the same edge twice leaves the tables as adding it once. */
  lemma AddedTwice(t: Tables, a: int, b: int, w: int, directed: bool, fromAuxiliary: bool)
    ensures Added(Added(t, a, b, w, directed, fromAuxiliary), a, b, w, directed, fromAuxiliary) ==
            Added(t, a, b, w, directed, fromAuxiliary)
  {
    var k := Key(a, b, directed);
    var r := Added(t, a, b, w, directed, fromAuxiliary);
    if fromAuxiliary && k in t.auxiliary {
    } else if fromAuxiliary && !(directed && k in t.directed) && !(!directed && k in t.edges) {
      assert k in r.auxiliary;
    } else if directed {
      AddedAgainDirected(r, a, b, w, fromAuxiliary);
    } else {
      AddedAgainUndirected(r, a, b, w, fromAuxiliary);
    }
  }

  lemma AddedAgainDirected(r: Tables, a: int, b: int, w: int, fromAuxiliary: bool)
    requires (a, b) in r.directed && r.directed[(a, b)] == w && (a, b) in r.adjacency && r.adjacency[(a, b)] == w
    ensures Added(r, a, b, w, true, fromAuxiliary) == r
  {
    assert r.directed[(a, b) := w] == r.directed;
    assert r.adjacency[(a, b) := w] == r.adjacency;
  }

  lemma AddedAgainUndirected(r: Tables, a: int, b: int, w: int, fromAuxiliary: bool)
    requires Key(a, b, false) in r.edges && r.edges[Key(a, b, false)] == w
    requires (a, b) in r.adjacency && r.adjacency[(a, b)] == w && (b, a) in r.adjacency && r.adjacency[(b, a)] == w
    requires fromAuxiliary ==> Key(a, b, false) !in r.auxiliary
    ensures Added(r, a, b, w, false, fromAuxiliary) == r
  {
    var k := Key(a, b, false);
    assert r.edges[k := w] == r.edges;
    assert r.adjacency[(a, b) := w][(b, a) := w] == r.adjacency;
  }

  /** Removing an edge that was just added gives back the edge map it was added to. */
  lemma RemovedAdded(t: Tables, a: int, b: int, w: int, directed: bool)
    requires Key(a, b, directed) !in (if directed then t.directed else t.edges)
    ensures var r := Removed(Added(t, a, b, w, directed, false), a, b, directed, false);
            r.edges == t.edges && r.directed == t.directed && r.auxiliary == t.auxiliary
    ensures var r := Removed(Added(t, a, b, w, directed, false), a, b, directed, false);
            directed && (a, b) !in t.adjacency ==> r.adjacency == t.adjacency
    ensures var r := Removed(Added(t, a, b, w, directed, false), a, b, directed, false);
            !directed && (a, b) !in t.adjacency && (b, a) !in t.adjacency ==> r.adjacency == t.adjacency
  {
    var k := Key(a, b, directed);
    var m := Added(t, a, b, w, directed, false);
    var r := Removed(m, a, b, directed, false);
    if directed {
      assert m.directed == t.directed[k := w];
      assert r.directed == t.directed;
    } else {
      assert m.edges == t.edges[k := w];
      assert r.edges == t.edges;
    }
  }

  /** `remove_edge` changes nothing when it finds nothing, and otherwise deletes exactly one edge. */
  lemma RemovedExactly(t: Tables, a: int, b: int, directed: bool, fromAuxiliary: bool)
    ensures !Removable(t, a, b, directed, fromAuxiliary) ==> Removed(t, a, b, directed, fromAuxiliary) == t
    ensures var r := Removed(t, a, b, directed, fromAuxiliary);
            Removable(t, a, b, directed, fromAuxiliary) ==>
              |r.edges| + |r.directed| + |r.auxiliary| + 1 == |t.edges| + |t.directed| + |t.auxiliary|
  {
    var k := Key(a, b, directed);
    if fromAuxiliary && k in t.auxiliary {
      assert (t.auxiliary - {k}).Keys == t.auxiliary.Keys - {k};
    } else if directed && k in t.directed {
      assert (t.directed - {k}).Keys == t.directed.Keys - {k};
    } else if !directed && k in t.edges {
      assert (t.edges - {k}).Keys == t.edges.Keys - {k};
    }
  }

  /** After `remove_node` no table mentions the node, and every entry that did not mention it is still there. */
  lemma DetachedClean(t: Tables, id: int)
    ensures var r := Detached(t, id);
            (forall k :: k in r.edges + r.directed + r.auxiliary + r.adjacency ==> !Touches(k, id)) &&
            (forall k :: k in t.edges && !Touches(k, id) ==> k in r.edges && r.edges[k] == t.edges[k]) &&
            (forall k :: k in t.directed && !Touches(k, id) ==> k in r.directed && r.directed[k] == t.directed[k]) &&
            (forall k :: k in t.auxiliary && !Touches(k, id) ==> k in r.auxiliary && r.auxiliary[k] == t.auxiliary[k]) &&
            (forall k :: k in t.adjacency && !Touches(k, id) ==> k in r.adjacency && r.adjacency[k] == t.adjacency[k])
  {
  }

  // ---- the auxiliary vertex S ----

  /** Whether k is the key `(s, v)` of a spoke from s to one of vs. */
  predicate Spoke(k: Arc, s: int, vs: set<int>) {
    k.0 == s && k.1 in vs
  }

  /** The keys `(s, v)` for every v. */
  function Spokes(s: int, vs: set<int>): set<Arc> {
    set v | v in vs :: (s, v)
  }

  lemma SpokesMembers(s: int, vs: set<int>)
    ensures forall k :: k in Spokes(s, vs) <==> Spoke(k, s, vs)
  {
    forall k | Spoke(k, s, vs) ensures k in Spokes(s, vs) {
      var v := k.1;
      assert v in vs && k == (s, v);
    }
  }

  /** The auxiliary edges after `add_auxiliary_edges`: a weight-0 edge for every spoke not already a directed edge. */
  function SpokedAuxiliary(t: Tables, s: int, vs: set<int>): (r: map<Arc, int>)
    ensures forall k :: k in r <==> k in t.auxiliary || (Spoke(k, s, vs) && k !in t.directed)
    ensures forall k :: k in r ==> r[k] == if k in t.auxiliary then t.auxiliary[k] else 0
  {
    SpokesMembers(s, vs);
    map k | k in t.auxiliary.Keys + (Spokes(s, vs) - t.directed.Keys) :: if k in t.auxiliary then t.auxiliary[k] else 0
  }

  /** The directed edges after `add_auxiliary_edges`: a spoke that is already a directed edge gets weight 0. */
  function SpokedDirected(t: Tables, s: int, vs: set<int>): (r: map<Arc, int>)
    ensures r.Keys == t.directed.Keys
    ensures forall k :: k in r ==> r[k] == if Spoke(k, s, vs) && k !in t.auxiliary then 0 else t.directed[k]
  {
    map k | k in t.directed :: if Spoke(k, s, vs) && k !in t.auxiliary then 0 else t.directed[k]
  }

  /** The adjacency table after `add_auxiliary_edges`: `[s][v] = 0` for every spoke not already auxiliary. */
  function SpokedAdjacency(t: Tables, s: int, vs: set<int>): (r: map<Arc, int>)
    ensures forall k :: k in r <==> k in t.adjacency || (Spoke(k, s, vs) && k !in t.auxiliary)
    ensures forall k :: k in r ==> r[k] == if Spoke(k, s, vs) && k !in t.auxiliary then 0 else t.adjacency[k]
  {
    SpokesMembers(s, vs);
    map k | k in t.adjacency.Keys + (Spokes(s, vs) - t.auxiliary.Keys) ::
      if Spoke(k, s, vs) && k !in t.auxiliary then 0 else t.adjacency[k]
  }

  /** What `add_auxiliary_edges` does to the tables, whatever order it visits the targets in. */
  function Spoked(t: Tables, s: int, vs: set<int>): Tables {
    t.(auxiliary := SpokedAuxiliary(t, s, vs), directed := SpokedDirected(t, s, vs), adjacency := SpokedAdjacency(t, s, vs))
  }

  /**
   * Every target gets a weight-0 edge from s: an auxiliary one, or, where a
   * directed edge `(s, v)` already exists, that edge with its weight set to 0.
   */
  lemma SpokedReaches(t: Tables, s: int, vs: set<int>)
    ensures var r := Spoked(t, s, vs);
            r.edges == t.edges &&
            forall v :: v in vs && (s, v) !in t.auxiliary ==>
              (s, v) in r.adjacency && r.adjacency[(s, v)] == 0 &&
              (((s, v) in r.auxiliary && r.auxiliary[(s, v)] == 0) || ((s, v) in r.directed && r.directed[(s, v)] == 0))
  {
  }

  /** From a new vertex, which no edge mentions yet, every spoke is a new auxiliary edge of weight 0. */
  lemma SpokedFresh(t: Tables, s: int, vs: set<int>)
    requires forall k :: k in t.auxiliary || k in t.directed ==> k.0 != s
    ensures var r := Spoked(t, s, vs);
            r.edges == t.edges && r.directed == t.directed &&
            r.auxiliary == t.auxiliary + map k | k in Spokes(s, vs) :: 0
  {
    var r := Spoked(t, s, vs);
    SpokesMembers(s, vs);
    assert r.directed == t.directed;
  }

  /** One more spoke in the loop of `add_auxiliary_edges`. */
  lemma SpokedStep(t: Tables, s: int, done: set<int>, v: int)
    requires v !in done
    ensures Added(Spoked(t, s, done), s, v, 0, true, true) == Spoked(t, s, done + {v})
  {
    var m := Spoked(t, s, done);
    var r := Spoked(t, s, done + {v});
    var k := (s, v);
    assert Key(s, v, true) == k;
    SpokedAuxiliaryStep(t, s, done, v);
    SpokedDirectedStep(t, s, done, v);
    SpokedAdjacencyStep(t, s, done, v);
    if k in t.auxiliary {
      assert k in m.auxiliary;
    } else if k in t.directed {
      assert k !in m.auxiliary && k in m.directed;
    } else {
      assert k !in m.auxiliary && k !in m.directed;
    }
  }

  lemma SpokedNone(t: Tables, s: int)
    ensures Spoked(t, s, {}) == t
  {
    assert SpokedAuxiliary(t, s, {}) == t.auxiliary;
    assert SpokedDirected(t, s, {}) == t.directed;
    assert SpokedAdjacency(t, s, {}) == t.adjacency;
  }

  lemma SpokedAuxiliaryStep(t: Tables, s: int, done: set<int>, v: int)
    ensures SpokedAuxiliary(t, s, done + {v}) ==
            if (s, v) in t.auxiliary || (s, v) in t.directed then SpokedAuxiliary(t, s, done)
            else SpokedAuxiliary(t, s, done)[(s, v) := 0]
  {
  }

  lemma SpokedDirectedStep(t: Tables, s: int, done: set<int>, v: int)
    ensures SpokedDirected(t, s, done + {v}) ==
            if (s, v) !in t.auxiliary && (s, v) in t.directed then SpokedDirected(t, s, done)[(s, v) := 0]
            else SpokedDirected(t, s, done)
  {
  }

  lemma SpokedAdjacencyStep(t: Tables, s: int, done: set<int>, v: int)
    ensures SpokedAdjacency(t, s, done + {v}) ==
            if (s, v) in t.auxiliary then SpokedAdjacency(t, s, done)
            else SpokedAdjacency(t, s, done)[(s, v) := 0]
  {
  }

  // ---- the invariant across the operations ----

  lemma WithinSet(ids: set<int>, m: map<Arc, int>, k: Arc, w: int)
    requires Within(ids, m) && k.0 in ids && k.1 in ids && k.0 != k.1
    ensures Within(ids, m[k := w])
  {
  }

  lemma AddedConsistent(nodes: map<int, bool>, t: Tables, aux: Option<int>, next: int,
                        a: int, b: int, w: int, directed: bool, fromAuxiliary: bool)
    requires Consistent(nodes, t, aux, next) && a in nodes && b in nodes && a != b
    ensures Consistent(nodes, Added(t, a, b, w, directed, fromAuxiliary), aux, next)
  {
    var k := Key(a, b, directed);
    var ids := nodes.Keys;
    KeyUnordered(a, b);
    WithinSet(ids, t.adjacency, (a, b), w);
    WithinSet(ids, t.adjacency[(a, b) := w], (b, a), w);
    if fromAuxiliary && k in t.auxiliary {
    } else if directed && k in t.directed {
      WithinSet(ids, t.directed, k, w);
    } else if !directed && k in t.edges {
      WithinSet(ids, t.edges, k, w);
    } else if fromAuxiliary {
      WithinSet(ids, t.auxiliary, k, w);
    } else if directed {
      WithinSet(ids, t.directed, k, w);
    } else {
      WithinSet(ids, t.edges, k, w);
    }
  }

  lemma RemovedConsistent(nodes: map<int, bool>, t: Tables, aux: Option<int>, next: int,
                          a: int, b: int, directed: bool, fromAuxiliary: bool)
    requires Consistent(nodes, t, aux, next)
    ensures Consistent(nodes, Removed(t, a, b, directed, fromAuxiliary), aux, next)
  {
  }

  lemma SpokedConsistent(nodes: map<int, bool>, t: Tables, aux: Option<int>, next: int, s: int, vs: set<int>)
    requires Consistent(nodes, t, aux, next) && s in nodes && vs <= nodes.Keys && s !in vs
    ensures Consistent(nodes, Spoked(t, s, vs), aux, next)
  {
  }

  /** The nodes `add_auxiliary_edges` links S to: every other node not flagged as S. */
  function Targets(nodes: map<int, bool>, s: int): (r: set<int>)
    ensures forall v :: v in r <==> v in nodes && v != s && !nodes[v]
  {
    set v | v in nodes && v != s && !nodes[v]
  }

  /** Removing a node and its table entries keeps the graph consistent. */
  lemma DetachedConsistent(nodes: map<int, bool>, t: Tables, aux: Option<int>, next: int, id: int)
    requires Consistent(nodes, t, aux, next) && id in nodes
    ensures Consistent(nodes - {id}, Detached(t, id), if nodes[id] then None else aux, next)
  {
  }

  /** The invariant of the undirected loop of `remove_node`, with todo the keys still to remove. */
  ghost predicate DroppingEdges(t0: Tables, t: Tables, todo: set<Arc>, id: int) {
    todo <= t.edges.Keys && (forall k :: k in todo ==> Touches(k, id)) &&
    (forall k :: k in t.edges <==> k in t0.edges && (!Touches(k, id) || k in todo)) &&
    (forall k :: k in t.edges ==> t.edges[k] == t0.edges[k]) &&
    t.directed == t0.directed && t.auxiliary == t0.auxiliary && Pruned(t0.adjacency, t.adjacency, id)
  }

  /** One round of that loop keeps its invariant. */
  lemma DroppedEdge(t0: Tables, t: Tables, todo: set<Arc>, id: int, k: Arc)
    requires DroppingEdges(t0, t, todo, id) && k in todo && Key(k.0, k.1, false) == k
    ensures DroppingEdges(t0, Removed(t, k.0, k.1, false, false), todo - {k}, id)
  {
  }

  /** When that loop ends, exactly the undirected edges at id are gone. */
  lemma DroppedAll(t0: Tables, t: Tables, id: int)
    requires DroppingEdges(t0, t, {}, id)
    ensures t.edges == Away(t0.edges, id) && t.directed == t0.directed && t.auxiliary == t0.auxiliary
    ensures Pruned(t0.adjacency, t.adjacency, id)
  {
  }

  ghost predicate Pruned(before: map<Arc, int>, after: map<Arc, int>, id: int) {
    (forall k :: k in after ==> k in before && after[k] == before[k]) &&
    (forall k :: k in before && !Touches(k, id) ==> k in after)
  }

  lemma PrunedAway(before: map<Arc, int>, after: map<Arc, int>, id: int)
    requires Pruned(before, after, id)
    ensures Away(after, id) == Away(before, id)
  {
  }

  // ---- get_all_edges ----

  /** An entry `(u, v, weight, directed, from_auxiliary)` of `get_all_edges()`. */
  datatype EdgeEntry = EdgeEntry(key: Arc, weight: int, directed: bool, fromAuxiliary: bool)

  /** e is listed by `get_all_edges()`: an undirected, a directed or an auxiliary edge with its weight and kind. */
  predicate Entry(t: Tables, e: EdgeEntry) {
    || (e.key in t.edges && e == EdgeEntry(e.key, t.edges[e.key], false, false))
    || (e.key in t.directed && e == EdgeEntry(e.key, t.directed[e.key], true, false))
    || (e.key in t.auxiliary && e == EdgeEntry(e.key, t.auxiliary[e.key], true, true))
  }

  /** One of the three loops of `get_all_edges`: an entry per key of m, all of the same kind. */
  method ListEntries(m: map<Arc, int>, directed: bool, fromAuxiliary: bool) returns (es: seq<EdgeEntry>)
    ensures forall e :: e in es <==> e.key in m && e == EdgeEntry(e.key, m[e.key], directed, fromAuxiliary)
  {
    es := [];
    var todo := m.Keys;
    ghost var done: set<Arc> := {};
    while todo != {}
      invariant todo + done == m.Keys && todo !! done
      invariant forall e :: e in es <==> e.key in done && e == EdgeEntry(e.key, m[e.key], directed, fromAuxiliary)
      decreases todo
    {
      Inhabited(todo);
      var k :| k in todo;
      es := es + [EdgeEntry(k, m[k], directed, fromAuxiliary)];
      done := done + {k};
      todo := todo - {k};
    }
  }

  class WeightedGraph {
    /** `nodes`: every node id with its `is_auxiliary` flag. */
    var nodes: map<int, bool>
    /** `edges`: undirected edges, key to weight. */
    var edges: map<Arc, int>
    /** `directed_edges` */
    var directedEdges: map<Arc, int>
    /** `auxiliary_edges`: the edges from S. */
    var auxiliaryEdges: map<Arc, int>
    /** `adjacency`, flattened: `adjacency[(u, v)]` stands for `adjacency[u][v]`. */
    var adjacency: map<Arc, int>
    /** The id of `auxiliary_node`, the vertex S. */
    var auxiliaryNode: Option<int>
    /** `next_node_id` */
    var nextNodeId: int

    function AllTables(): Tables
      reads this
    {
      Tables(edges, directedEdges, auxiliaryEdges, adjacency)
    }

    ghost predicate Valid()
      reads this
    {
      Consistent(nodes, AllTables(), auxiliaryNode, nextNodeId)
    }

    /** `WeightedGraph.__init__`: empty tables, no S, ids from 1. */
    constructor ()
      ensures Valid()
      ensures nodes == map[] && AllTables() == Tables(map[], map[], map[], map[])
      ensures auxiliaryNode == None && nextNodeId == 1
    {
      nodes := map[];
      edges := map[];
      directedEdges := map[];
      auxiliaryEdges := map[];
      adjacency := map[];
      auxiliaryNode := None;
      nextNodeId := 1;
    }

    /** `add_node`: the next id, flagged as S when asked. */
    method AddNode(isAuxiliary: bool) returns (id: int)
      requires Valid()
      modifies this
      ensures Valid()
      ensures id == old(nextNodeId) && id !in old(nodes) && nextNodeId == id + 1
      ensures nodes == old(nodes)[id := isAuxiliary] && AllTables() == old(AllTables())
      ensures auxiliaryNode == if isAuxiliary then Some(id) else old(auxiliaryNode)
    {
      id := nextNodeId;
      nextNodeId := nextNodeId + 1;
      if isAuxiliary {
        auxiliaryNode := Some(id);
      }
      nodes := nodes[id := isAuxiliary];
    }

    /** `add_edge`: False for an unknown endpoint or a loop, otherwise the tables as `Added` says. */
    method AddEdge(a: int, b: int, w: int, directed: bool, fromAuxiliary: bool) returns (ok: bool)
      requires Valid()
      modifies this
      ensures Valid()
      ensures ok <==> a in nodes && b in nodes && a != b
      ensures nodes == old(nodes) && auxiliaryNode == old(auxiliaryNode) && nextNodeId == old(nextNodeId)
      ensures AllTables() == if ok then Added(old(AllTables()), a, b, w, directed, fromAuxiliary) else old(AllTables())
    {
      if a !in nodes || b !in nodes {
        return false;
      }
      if a == b {
        return false;
      }
      AddedConsistent(nodes, AllTables(), auxiliaryNode, nextNodeId, a, b, w, directed, fromAuxiliary);
      var k := Key(a, b, directed);
      if fromAuxiliary && k in auxiliaryEdges {
        return true;
      }
      if directed {
        if k in directedEdges {
          directedEdges := directedEdges[k := w];
          adjacency := adjacency[(a, b) := w];
          return true;
        }
      } else {
        if k in edges {
          edges := edges[k := w];
          adjacency := adjacency[(a, b) := w][(b, a) := w];
          return true;
        }
      }
      if fromAuxiliary {
        auxiliaryEdges := auxiliaryEdges[k := w];
      } else if directed {
        directedEdges := directedEdges[k := w];
      } else {
        edges := edges[k := w];
      }
      adjacency := adjacency[(a, b) := w];
      if !directed && !fromAuxiliary {
        adjacency := adjacency[(b, a) := w];
      }
      return true;
    }

    /** `remove_edge`: True exactly when an edge was found and deleted. */
    method RemoveEdge(a: int, b: int, directed: bool, fromAuxiliary: bool) returns (ok: bool)
      requires Valid()
      modifies this
      ensures Valid()
      ensures ok == Removable(old(AllTables()), a, b, directed, fromAuxiliary)
      ensures nodes == old(nodes) && auxiliaryNode == old(auxiliaryNode) && nextNodeId == old(nextNodeId)
      ensures AllTables() == Removed(old(AllTables()), a, b, directed, fromAuxiliary)
    {
      RemovedConsistent(nodes, AllTables(), auxiliaryNode, nextNodeId, a, b, directed, fromAuxiliary);
      var k := Key(a, b, directed);
      if fromAuxiliary {
        if k in auxiliaryEdges {
          auxiliaryEdges := auxiliaryEdges - {k};
          return true;
        }
      }
      if directed {
        if k in directedEdges {
          directedEdges := directedEdges - {k};
          adjacency := adjacency - {(a, b)};
          return true;
        }
      } else {
        if k in edges {
          edges := edges - {k};
          adjacency := adjacency - {(a, b), (b, a)};
          return true;
        }
      }
      return false;
    }

    /** `add_auxiliary_edges`: with an S, a weight-0 auxiliary edge from S to every other unflagged node. */
    method AddAuxiliaryEdges()
      requires Valid()
      modifies this
      ensures Valid()
      ensures nodes == old(nodes) && auxiliaryNode == old(auxiliaryNode) && nextNodeId == old(nextNodeId)
      ensures old(auxiliaryNode) == None ==> AllTables() == old(AllTables())
      ensures old(auxiliaryNode).Some? ==>
                AllTables() == Spoked(old(AllTables()), old(auxiliaryNode).value, Targets(nodes, old(auxiliaryNode).value))
    {
      if auxiliaryNode == None {
        return;
      }
      var s := auxiliaryNode.value;
      ghost var t := AllTables();
      var todo := Targets(nodes, s);
      ghost var done: set<int> := {};
      SpokedNone(t, s);
      while todo != {}
        invariant todo + done == Targets(nodes, s) && todo !! done
        invariant nodes == old(nodes) && auxiliaryNode == old(auxiliaryNode) && nextNodeId == old(nextNodeId)
        invariant Valid() && AllTables() == Spoked(t, s, done)
        decreases todo
      {
        Inhabited(todo);
        var v :| v in todo;
        var ok := AddEdge(s, v, 0, true, true);
        SpokedStep(t, s, done, v);
        done := done + {v};
        todo := todo - {v};
      }
    }

    /** `remove_node`: False for an unknown id; otherwise the node and everything that mentions it are gone. */
    method RemoveNode(id: int) returns (ok: bool)
      requires Valid()
      modifies this
      ensures Valid()
      ensures ok <==> id in old(nodes)
      ensures nextNodeId == old(nextNodeId)
      ensures !ok ==> nodes == old(nodes) && AllTables() == old(AllTables()) && auxiliaryNode == old(auxiliaryNode)
      ensures ok ==> nodes == old(nodes) - {id} && AllTables() == Detached(old(AllTables()), id) &&
                     auxiliaryNode == if old(nodes)[id] then None else old(auxiliaryNode)
    {
      if id !in nodes {
        return false;
      }
      ghost var t := AllTables();
      DetachedConsistent(nodes, t, auxiliaryNode, nextNodeId, id);
      DropEdges(id);
      DropDirected(id);
      DropAuxiliary(id);
      if nodes[id] {
        auxiliaryNode := None;
      }
      nodes := nodes - {id};
      PrunedAway(t.adjacency, adjacency, id);
      adjacency := Away(adjacency, id);
      assert AllTables() == Detached(t, id);
      return true;
    }

    /** The undirected half of `remove_node`'s edge removals. */
    method DropEdges(id: int)
      requires Valid()
      modifies this
      ensures Valid()
      ensures nodes == old(nodes) && auxiliaryNode == old(auxiliaryNode) && nextNodeId == old(nextNodeId)
      ensures edges == Away(old(edges), id) && directedEdges == old(directedEdges) && auxiliaryEdges == old(auxiliaryEdges)
      ensures Pruned(old(adjacency), adjacency, id)
    {
      ghost var t0 := AllTables();
      var todo := set k | k in edges && Touches(k, id);
      while todo != {}
        invariant Valid()
        invariant nodes == old(nodes) && auxiliaryNode == old(auxiliaryNode) && nextNodeId == old(nextNodeId)
        invariant DroppingEdges(t0, AllTables(), todo, id)
        decreases todo
      {
        Inhabited(todo);
        var k :| k in todo;
        assert Key(k.0, k.1, false) == k;
        DroppedEdge(t0, AllTables(), todo, id, k);
        var _ := RemoveEdge(k.0, k.1, false, false);
        todo := todo - {k};
      }
      DroppedAll(t0, AllTables(), id);
    }

    /** The directed half of `remove_node`'s edge removals. */
    method DropDirected(id: int)
      requires Valid()
      modifies this
      ensures Valid()
      ensures nodes == old(nodes) && auxiliaryNode == old(auxiliaryNode) && nextNodeId == old(nextNodeId)
      ensures directedEdges == Away(old(directedEdges), id) && edges == old(edges) && auxiliaryEdges == old(auxiliaryEdges)
      ensures Pruned(old(adjacency), adjacency, id)
    {
      var todo := set k | k in directedEdges && Touches(k, id);
      while todo != {}
        invariant Valid() && todo <= directedEdges.Keys
        invariant nodes == old(nodes) && auxiliaryNode == old(auxiliaryNode) && nextNodeId == old(nextNodeId)
        invariant forall k :: k in todo ==> Touches(k, id)
        invariant forall k :: k in directedEdges <==> k in old(directedEdges) && (!Touches(k, id) || k in todo)
        invariant forall k :: k in directedEdges ==> directedEdges[k] == old(directedEdges)[k]
        invariant edges == old(edges) && auxiliaryEdges == old(auxiliaryEdges)
        invariant Pruned(old(adjacency), adjacency, id)
        decreases todo
      {
        Inhabited(todo);
        var k :| k in todo;
        var _ := RemoveEdge(k.0, k.1, true, false);
        todo := todo - {k};
      }
    }

    /** The auxiliary part of `remove_node`'s edge removals; the adjacency table is left as it is. */
    method DropAuxiliary(id: int)
      requires Valid()
      modifies this
      ensures Valid()
      ensures nodes == old(nodes) && auxiliaryNode == old(auxiliaryNode) && nextNodeId == old(nextNodeId)
      ensures auxiliaryEdges == Away(old(auxiliaryEdges), id) && edges == old(edges) && directedEdges == old(directedEdges)
      ensures adjacency == old(adjacency)
    {
      var todo := set k | k in auxiliaryEdges && Touches(k, id);
      while todo != {}
        invariant Valid() && todo <= auxiliaryEdges.Keys
        invariant nodes == old(nodes) && auxiliaryNode == old(auxiliaryNode) && nextNodeId == old(nextNodeId)
        invariant forall k :: k in todo ==> Touches(k, id)
        invariant forall k :: k in auxiliaryEdges <==> k in old(auxiliaryEdges) && (!Touches(k, id) || k in todo)
        invariant forall k :: k in auxiliaryEdges ==> auxiliaryEdges[k] == old(auxiliaryEdges)[k]
        invariant edges == old(edges) && directedEdges == old(directedEdges) && adjacency == old(adjacency)
        decreases todo
      {
        Inhabited(todo);
        var k :| k in todo;
        var _ := RemoveEdge(k.0, k.1, true, true);
        todo := todo - {k};
      }
    }

    /** `remove_auxiliary_node`: S, if there is one, is removed with its edges, and no S remains. */
    method RemoveAuxiliaryNode()
      requires Valid()
      modifies this
      ensures Valid()
      ensures auxiliaryNode == None && nextNodeId == old(nextNodeId)
      ensures old(auxiliaryNode) == None ==> nodes == old(nodes) && AllTables() == old(AllTables())
      ensures old(auxiliaryNode).Some? ==>
                nodes == old(nodes) - {old(auxiliaryNode).value} &&
                AllTables() == Detached(old(AllTables()), old(auxiliaryNode).value)
    {
      if auxiliaryNode.Some? {
        var _ := RemoveNode(auxiliaryNode.value);
        auxiliaryNode := None;
      }
    }

    /** `get_all_edges`: every undirected, directed and auxiliary edge, with its weight and kind. */
    method GetAllEdges() returns (es: seq<EdgeEntry>)
      ensures forall e :: e in es <==> Entry(AllTables(), e)
    {
      var undirected := ListEntries(edges, false, false);
      var directed := ListEntries(directedEdges, true, false);
      var auxiliary := ListEntries(auxiliaryEdges, true, true);
      es := undirected + directed + auxiliary;
    }

    /** `node.reset()` on every node: no node is flagged as S any more. */
    method ResetNodes()
      requires Valid() && auxiliaryNode == None
      modifies this
      ensures Valid()
      ensures nodes.Keys == old(nodes).Keys && forall k :: k in nodes ==> !nodes[k]
      ensures AllTables() == old(AllTables()) && auxiliaryNode == None && nextNodeId == old(nextNodeId)
    {
      var todo := nodes.Keys;
      while todo != {}
        invariant Valid() && todo <= nodes.Keys && nodes.Keys == old(nodes).Keys
        invariant forall k :: k in nodes && k !in todo ==> !nodes[k]
        invariant AllTables() == old(AllTables()) && auxiliaryNode == None && nextNodeId == old(nextNodeId)
        decreases todo
      {
        NonEmpty(todo);
        var k :| k in todo;
        nodes := nodes[k := false];
        todo := todo - {k};
      }
    }
  }
}
