/**
 * `JohnsonGraphVisualizer` in TP4/johnson_app.py: the five steps of
 * Johnson's algorithm as the application performs them on its
 * `WeightedGraph` (add a source S with weight-0 edges, Bellman-Ford from S
 * for the potentials h, reweighting `w + h(u) - h(v)`, the d' matrix, and the
 * final matrix `d' - h(s) + h(t)`), and the step navigation.  Node labels
 * are the node ids written in decimal, so every table is keyed by id.
 */
module Johnson {
  import opened Common
  import opened WeightedGraphs
  import opened ShortestPaths

  /** The entries of `johnson_steps`, by their `step_type`. */
  datatype StepKind = AddSource | BellmanFordStep | Reweighting | DijkstraStep | FinalDistances

  /** `0 if h == float('inf') else h` */
  function Finite(h: Option<int>): int {
    if h.Some? then h.value else 0
  }

  /** `h_values.get(v, 0)`, with infinity read as 0. */
  function Potential(h: Distances, v: int): int {
    if v in h then Finite(h[v]) else 0
  }

  /** The nodes other than S, whose labels the steps list. */
  function Ordinary(nodes: map<int, bool>): (r: set<int>)
    ensures forall v :: v in r <==> v in nodes && !nodes[v]
  {
    set v | v in nodes && !nodes[v]
  }

  /** The labels of `johnson_step4`: the ordinary nodes, or `['1', ..., '5']` when there is none. */
  function StepLabels(nodes: map<int, bool>): (r: set<int>)
    ensures Ordinary(nodes) != {} ==> r == Ordinary(nodes)
    ensures Ordinary(nodes) == {} ==> r == {1, 2, 3, 4, 5}
  {
    if Ordinary(nodes) == {} then {1, 2, 3, 4, 5} else Ordinary(nodes)
  }

  // ---- step 2: the arc list and the potentials ----

  /** a is the arc `(u, v, w)` of an entry `(u, v) -> w` of m with its key in keys, or, when both, the reverse `(v, u, w)`. */
  predicate ArcOf(m: map<Arc, int>, keys: set<Arc>, a: WArc, both: bool) {
    || ((a.from, a.to) in keys && (a.from, a.to) in m && m[(a.from, a.to)] == a.weight)
    || (both && (a.to, a.from) in keys && (a.to, a.from) in m && m[(a.to, a.from)] == a.weight)
  }

  /** The arc list of `johnson_step2`: auxiliary and directed edges forwards, undirected edges both ways. */
  predicate GraphArc(t: Tables, a: WArc) {
    || ArcOf(t.auxiliary, t.auxiliary.Keys, a, false)
    || ArcOf(t.directed, t.directed.Keys, a, false)
    || ArcOf(t.edges, t.edges.Keys, a, true)
  }

  /** One of the loops that build `all_edges`: an arc per entry of m, and its reverse too when both. */
  method ListArcs(m: map<Arc, int>, both: bool) returns (arcs: seq<WArc>)
    ensures forall a :: a in arcs <==> ArcOf(m, m.Keys, a, both)
  {
    arcs := [];
    var todo := m.Keys;
    ghost var done: set<Arc> := {};
    while todo != {}
      invariant todo + done == m.Keys && todo !! done
      invariant forall a :: a in arcs <==> ArcOf(m, done, a, both)
      decreases todo
    {
      Inhabited(todo);
      var k :| k in todo;
      arcs := arcs + [WArc(k.0, k.1, m[k])];
      if both {
        arcs := arcs + [WArc(k.1, k.0, m[k])];
      }
      done := done + {k};
      todo := todo - {k};
    }
  }

  /** arcs lists exactly the arcs of the tables, in some order. */
  ghost predicate ArcList(arcs: seq<WArc>, t: Tables) {
    forall a :: a in arcs <==> GraphArc(t, a)
  }

  /** `all_edges` of `johnson_step2`. */
  method CollectArcs(t: Tables) returns (arcs: seq<WArc>)
    ensures ArcList(arcs, t)
  {
    var auxiliary := ListArcs(t.auxiliary, false);
    var directed := ListArcs(t.directed, false);
    var undirected := ListArcs(t.edges, true);
    arcs := auxiliary + directed + undirected;
  }

  /** Every arc of the list joins two nodes of the graph. */
  lemma ArcsWithin(nodes: map<int, bool>, t: Tables, aux: Option<int>, next: int, arcs: seq<WArc>)
    requires Consistent(nodes, t, aux, next) && ArcList(arcs, t)
    ensures forall i :: 0 <= i < |arcs| ==> arcs[i].from in nodes.Keys && arcs[i].to in nodes.Keys
  {
    forall i | 0 <= i < |arcs| ensures arcs[i].from in nodes.Keys && arcs[i].to in nodes.Keys {
      assert GraphArc(t, arcs[i]);
    }
  }

  /** `h_values` of `johnson_step2`: the distance of every node other than S. */
  method Potentials(nodes: map<int, bool>, dist: Distances) returns (h: Distances)
    requires nodes.Keys <= dist.Keys
    ensures h.Keys == Ordinary(nodes)
    ensures forall v :: v in h ==> h[v] == dist[v]
  {
    h := map[];
    var todo := nodes.Keys;
    ghost var done: set<int> := {};
    while todo != {}
      invariant todo + done == nodes.Keys && todo !! done
      invariant forall v :: v in h <==> v in done && !nodes[v]
      invariant forall v :: v in h ==> h[v] == dist[v]
      decreases todo
    {
      NonEmpty(todo);
      var v :| v in todo;
      if !nodes[v] {
        h := h[v := dist[v]];
      }
      done := done + {v};
      todo := todo - {v};
    }
    assert forall v :: v in h.Keys <==> v in Ordinary(nodes);
  }

  /** h gives every node in it its least walk weight from s, None exactly for the nodes no walk reaches. */
  ghost predicate ShortestFrom(h: Distances, arcs: seq<WArc>, s: int) {
    forall v :: v in h ==> LeastWalk(h[v], arcs, s, v)
  }

  /** Potentials taken from a settled, sound table are least walk weights. */
  lemma PotentialsShortest(dist: Distances, arcs: seq<WArc>, s: int, h: Distances)
    requires Closed(dist, arcs) && s in dist && Settled(dist, arcs) && Sound(dist, arcs, s) && Below(dist[s], 0)
    requires forall v :: v in h ==> v in dist && h[v] == dist[v]
    ensures ShortestFrom(h, arcs, s)
  {
    Shortest(dist, arcs, s);
  }

  /**
   * Least walk weights satisfy the triangle inequality: an arc `u -> v` of
   * weight w out of a node at finite distance gives v a finite distance of
   * at most `h(u) + w`.
   */
  lemma Triangle(h: Distances, arcs: seq<WArc>, s: int, j: int)
    requires ShortestFrom(h, arcs, s) && 0 <= j < |arcs|
    requires arcs[j].from in h && arcs[j].to in h && h[arcs[j].from].Some?
    ensures h[arcs[j].to].Some? && h[arcs[j].to].value <= h[arcs[j].from].value + arcs[j].weight
  {
    var u, v := arcs[j].from, arcs[j].to;
    assert LeastWalk(h[u], arcs, s, u) && LeastWalk(h[v], arcs, s, v);
    ReachedStep(arcs, s, h[u].value, j);
    var q :| Walk(arcs, s, v, q) && Weight(arcs, q) == h[u].value + arcs[j].weight;
  }

  /** A node with a weight-0 arc from s itself has a finite least walk weight from s. */
  lemma SpokeFinite(h: Distances, arcs: seq<WArc>, s: int, j: int)
    requires ShortestFrom(h, arcs, s) && 0 <= j < |arcs| && arcs[j].from == s && arcs[j].to in h
    ensures h[arcs[j].to].Some?
  {
    var v := arcs[j].to;
    assert LeastWalk(h[v], arcs, s, v);
    Stay(arcs, s);
    ReachedStep(arcs, s, 0, j);
    var q :| Walk(arcs, s, v, q) && Weight(arcs, q) == arcs[j].weight;
  }

  /**
   * The computation of `johnson_step2` from S: Bellman-Ford over the
   * graph's arc list, None exactly when a negative cycle is reachable from
   * S, and otherwise the potentials, each an ordinary node's least walk
   * weight from S.  `last` is the distance table Bellman-Ford ends with.
   */
  method ComputePotentials(nodes: map<int, bool>, t: Tables, ghost aux: Option<int>, ghost next: int, s: int)
    returns (h: Option<Distances>, arcs: seq<WArc>, ghost last: Distances)
    requires Consistent(nodes, t, aux, next) && s in nodes
    ensures ArcList(arcs, t)
    ensures h.Some? <==> !NegativeCycle(arcs, s)
    ensures h.Some? ==>
              && last.Keys == nodes.Keys && Closed(last, arcs) && Settled(last, arcs) && last[s] == Some(0)
              && h.value.Keys == Ordinary(nodes)
              && (forall v :: v in h.value ==> h.value[v] == last[v])
              && ShortestFrom(h.value, arcs, s)
  {
    arcs := CollectArcs(t);
    ArcsWithin(nodes, t, aux, next, arcs);
    var r;
    r, last := BellmanFord(nodes.Keys, s, arcs);
    if r.None? {
      return None, arcs, last;
    }
    Shortest(last, arcs, s);
    var potentials := Potentials(nodes, r.value);
    PotentialsShortest(last, arcs, s, potentials);
    return Some(potentials), arcs, last;
  }

  // ---- step 3: reweighting ----

  /** rw is `reweighted_edges`: `w + h(u) - h(v)` for every directed edge whose ends both have a potential, and nothing else. */
  ghost predicate IsReweighted(rw: map<Arc, int>, directed: map<Arc, int>, h: Distances) {
    && (forall k :: k in rw <==> k in directed && k.0 in h && k.1 in h)
    && (forall k :: k in rw ==> rw[k] == directed[k] + Finite(h[k.0]) - Finite(h[k.1]))
  }

  /** The loop of `johnson_step3`. */
  method Reweight(directed: map<Arc, int>, h: Distances) returns (r: map<Arc, int>)
    ensures IsReweighted(r, directed, h)
  {
    r := map[];
    var todo := directed.Keys;
    ghost var done: set<Arc> := {};
    while todo != {}
      invariant todo + done == directed.Keys && todo !! done
      invariant forall k :: k in r <==> k in done && k.0 in h && k.1 in h
      invariant forall k :: k in r ==> r[k] == directed[k] + Finite(h[k.0]) - Finite(h[k.1])
      decreases todo
    {
      Inhabited(todo);
      var k :| k in todo;
      var u, v := k.0, k.1;
      if u in h && v in h {
        var hu := if h[u].None? then 0 else h[u].value;
        var hv := if h[v].None? then 0 else h[v].value;
        r := r[k := directed[k] + hu - hv];
      }
      done := done + {k};
      todo := todo - {k};
    }
  }

  /** Two maps with the same keys and the same value at each are equal. */
  lemma SameMap<K, V>(a: map<K, V>, b: map<K, V>)
    requires forall k :: k in a <==> k in b
    requires forall k :: k in a ==> a[k] == b[k]
    ensures a == b
  {
  }

  /**
   * With least walk weights as potentials, every reweighted edge out of a
   * node at finite distance is non-negative: the triangle inequality
   * `h(v) <= h(u) + w` is `w + h(u) - h(v) >= 0`.
   */
  lemma ReweightedNonNegative(t: Tables, arcs: seq<WArc>, s: int, h: Distances, rw: map<Arc, int>)
    requires forall a :: GraphArc(t, a) ==> a in arcs
    requires ShortestFrom(h, arcs, s) && IsReweighted(rw, t.directed, h)
    ensures forall k :: k in rw && h[k.0].Some? ==> rw[k] >= 0
  {
    forall k | k in rw && h[k.0].Some? ensures rw[k] >= 0 {
      var a := WArc(k.0, k.1, t.directed[k]);
      assert GraphArc(t, a);
      var j :| 0 <= j < |arcs| && arcs[j] == a;
      Triangle(h, arcs, s, j);
    }
  }

  // ---- step 4: the d' matrix ----

  /**
   * An entry of the d' matrix: 0 on the diagonal, otherwise the reweighted
   * weight of the ordinary edge `(source, target)` when there is one, or
   * infinity.
   */
  function DirectAt(rw: map<Arc, int>, t: Tables, st: Arc): Option<int> {
    if st.0 == st.1 then Some(0)
    else if st in rw && (st in t.edges || st in t.directed) then Some(rw[st])
    else None
  }

  /** The innermost loop of `johnson_step4`: the least reweighted weight over the non-auxiliary listed edges from source to target. */
  method CheapestEdge(es: seq<EdgeEntry>, rw: map<Arc, int>, ghost t: Tables, st: Arc) returns (m: Option<int>)
    requires forall e :: e in es <==> Entry(t, e)
    ensures m == if st in rw && (st in t.edges || st in t.directed) then Some(rw[st]) else None
  {
    m := None;
    var i := 0;
    while i < |es|
      invariant 0 <= i <= |es|
      invariant m == if st in rw && exists j :: 0 <= j < i && !es[j].fromAuxiliary && es[j].key == st then Some(rw[st]) else None
    {
      var e := es[i];
      if !e.fromAuxiliary && e.key == st && e.key in rw {
        var d := rw[e.key];
        if m.None? || d < m.value {
          m := Some(d);
        }
      }
      i := i + 1;
    }
    ListedKeys(es, t, st);
  }

  /** A non-auxiliary entry of `get_all_edges()` has key st exactly when st is an undirected or a directed edge. */
  lemma ListedKeys(es: seq<EdgeEntry>, t: Tables, st: Arc)
    requires forall e :: e in es <==> Entry(t, e)
    ensures (exists j :: 0 <= j < |es| && !es[j].fromAuxiliary && es[j].key == st) <==> st in t.edges || st in t.directed
  {
    if exists j :: 0 <= j < |es| && !es[j].fromAuxiliary && es[j].key == st {
      var j :| 0 <= j < |es| && !es[j].fromAuxiliary && es[j].key == st;
      assert Entry(t, es[j]);
    }
    if st in t.edges {
      var e := EdgeEntry(st, t.edges[st], false, false);
      assert Entry(t, e);
      var j :| 0 <= j < |es| && es[j] == e;
    } else if st in t.directed {
      var e := EdgeEntry(st, t.directed[st], true, false);
      assert Entry(t, e);
      var j :| 0 <= j < |es| && es[j] == e;
    }
  }

  /** One row of `johnson_step4`'s matrix, entered into d. */
  method DirectRow(source: int, labels: set<int>, es: seq<EdgeEntry>, rw: map<Arc, int>, ghost t: Tables, d: map<Arc, Option<int>>)
    returns (r: map<Arc, Option<int>>)
    requires forall e :: e in es <==> Entry(t, e)
    ensures forall st :: st in r <==> st in d || (st.0 == source && st.1 in labels)
    ensures forall st :: st in r ==> r[st] == if st.0 == source && st.1 in labels then DirectAt(rw, t, st) else d[st]
  {
    r := d;
    var todo := labels;
    ghost var done: set<int> := {};
    while todo != {}
      invariant todo + done == labels && todo !! done
      invariant forall st :: st in r <==> st in d || (st.0 == source && st.1 in done)
      invariant forall st :: st in r ==> r[st] == if st.0 == source && st.1 in done then DirectAt(rw, t, st) else d[st]
      decreases todo
    {
      NonEmpty(todo);
      var target :| target in todo;
      var entry;
      if source == target {
        entry := Some(0);
      } else {
        entry := CheapestEdge(es, rw, t, (source, target));
      }
      r := r[(source, target) := entry];
      done := done + {target};
      todo := todo - {target};
    }
  }

  /** d is the d' matrix over labels: an entry for every pair of labels, each the direct entry. */
  ghost predicate IsDirectMatrix(d: map<Arc, Option<int>>, labels: set<int>, rw: map<Arc, int>, t: Tables) {
    && (forall st :: st in d <==> st.0 in labels && st.1 in labels)
    && (forall st :: st in d ==> d[st] == DirectAt(rw, t, st))
  }

  /** `johnson_step4`'s matrix over the labels. */
  method DirectMatrix(labels: set<int>, es: seq<EdgeEntry>, rw: map<Arc, int>, ghost t: Tables) returns (d: map<Arc, Option<int>>)
    requires forall e :: e in es <==> Entry(t, e)
    ensures IsDirectMatrix(d, labels, rw, t)
  {
    d := map[];
    var todo := labels;
    ghost var done: set<int> := {};
    while todo != {}
      invariant todo + done == labels && todo !! done
      invariant forall st :: st in d <==> st.0 in done && st.1 in labels
      invariant forall st :: st in d ==> d[st] == DirectAt(rw, t, st)
      decreases todo
    {
      NonEmpty(todo);
      var source :| source in todo;
      d := DirectRow(source, labels, es, rw, t, d);
      done := done + {source};
      todo := todo - {source};
    }
  }

  // ---- step 5: the final matrix ----

  /** An entry of `johnson_step5`'s matrix: 0 on the diagonal, infinity kept, otherwise `d' - h(s) + h(t)`. */
  function FinalAt(dprime: map<Arc, Option<int>>, h: Distances, st: Arc): Option<int> {
    if st.0 == st.1 then Some(0)
    else if st in dprime && dprime[st].Some? then Some(dprime[st].value - Potential(h, st.0) + Potential(h, st.1))
    else None
  }

  /** One row of `johnson_step5`'s matrix, entered into f. */
  method FinalRow(source: int, labels: set<int>, dprime: map<Arc, Option<int>>, h: Distances, f: map<Arc, Option<int>>)
    returns (r: map<Arc, Option<int>>)
    ensures forall st :: st in r <==> st in f || (st.0 == source && st.1 in labels)
    ensures forall st :: st in r ==> r[st] == if st.0 == source && st.1 in labels then FinalAt(dprime, h, st) else f[st]
  {
    r := f;
    var todo := labels;
    ghost var done: set<int> := {};
    while todo != {}
      invariant todo + done == labels && todo !! done
      invariant forall st :: st in r <==> st in f || (st.0 == source && st.1 in done)
      invariant forall st :: st in r ==> r[st] == if st.0 == source && st.1 in done then FinalAt(dprime, h, st) else f[st]
      decreases todo
    {
      NonEmpty(todo);
      var target :| target in todo;
      var st := (source, target);
      var entry;
      if source == target {
        entry := Some(0);
      } else if st in dprime {
        if dprime[st].None? {
          entry := None;
        } else {
          var hs := if source in h then (if h[source].None? then 0 else h[source].value) else 0;
          var ht := if target in h then (if h[target].None? then 0 else h[target].value) else 0;
          entry := Some(dprime[st].value - hs + ht);
        }
      } else {
        entry := None;
      }
      r := r[st := entry];
      done := done + {target};
      todo := todo - {target};
    }
  }

  /** f is the final matrix over labels: an entry for every pair of labels, each `d' - h(s) + h(t)`. */
  ghost predicate IsFinalMatrix(f: map<Arc, Option<int>>, labels: set<int>, dprime: map<Arc, Option<int>>, h: Distances) {
    && (forall st :: st in f <==> st.0 in labels && st.1 in labels)
    && (forall st :: st in f ==> f[st] == FinalAt(dprime, h, st))
  }

  /** `johnson_step5`'s matrix over the labels. */
  method FinalMatrix(labels: set<int>, dprime: map<Arc, Option<int>>, h: Distances) returns (f: map<Arc, Option<int>>)
    ensures IsFinalMatrix(f, labels, dprime, h)
  {
    f := map[];
    var todo := labels;
    ghost var done: set<int> := {};
    while todo != {}
      invariant todo + done == labels && todo !! done
      invariant forall st :: st in f <==> st.0 in done && st.1 in labels
      invariant forall st :: st in f ==> f[st] == FinalAt(dprime, h, st)
      decreases todo
    {
      NonEmpty(todo);
      var source :| source in todo;
      f := FinalRow(source, labels, dprime, h, f);
      done := done + {source};
      todo := todo - {source};
    }
  }

  /**
   * Step 5 undoes step 3 on every direct edge: an off-diagonal entry built
   * from a d' entry of step 4 is the directed edge's own weight, whatever
   * the potentials, and infinity where there is no directed edge.
   */
  lemma FinalRecovers(t: Tables, h: Distances, rw: map<Arc, int>, dprime: map<Arc, Option<int>>, st: Arc)
    requires st.0 != st.1 && st.0 in h && st.1 in h && IsReweighted(rw, t.directed, h)
    requires st in dprime && dprime[st] == DirectAt(rw, t, st)
    ensures FinalAt(dprime, h, st) == if st in t.directed then Some(t.directed[st]) else None
  {
  }

  // ---- navigation ----

  /** `current_step` after `next_step` with n recorded steps. */
  function Advanced(current: int, n: int): (r: int)
    ensures 0 <= current <= n ==> 0 <= r <= n
    ensures current < n ==> r == current + 1
    ensures current >= n ==> r == current
  {
    if current < n then current + 1 else current
  }

  /** `current_step` after `prev_step`. */
  function Retreated(current: int): (r: int)
    ensures 0 <= current ==> 0 <= r <= current
    ensures current > 0 ==> r == current - 1
  {
    if current > 0 then current - 1 else current
  }

  /** `prev_step` undoes a `next_step` that moved. */
  lemma PrevUndoesNext(current: int, n: int)
    requires 0 <= current < n
    ensures Retreated(Advanced(current, n)) == current
  {
  }

  // ---- the run ----

  /** The nodes `reset_johnson_state` leaves: S removed, every flag cleared. */
  function Cleared(nodes: map<int, bool>, aux: Option<int>): (r: map<int, bool>)
    ensures forall v :: v in r <==> v in nodes && aux != Some(v)
    ensures forall v :: v in r ==> !r[v]
  {
    map v | v in nodes && aux != Some(v) :: false
  }

  /** The tables `reset_johnson_state` leaves: S's edges removed. */
  function Cleaned(t: Tables, aux: Option<int>): Tables {
    if aux.Some? then Detached(t, aux.value) else t
  }

  /** What `remove_auxiliary_node` and `node.reset()` leave of the nodes. */
  lemma ClearedIs(before: map<int, bool>, aux: Option<int>, after: map<int, bool>)
    requires after.Keys == if aux.Some? then before.Keys - {aux.value} else before.Keys
    requires forall v :: v in after ==> !after[v]
    ensures after == Cleared(before, aux)
  {
    var c := Cleared(before, aux);
    forall v | v in after ensures after[v] == c[v] {
      assert !after[v] && !c[v];
    }
    SameMap(after, c);
  }

  /** With every node unflagged, `add_auxiliary_edges` links a new S to all of them. */
  lemma TargetsCleared(cleared: map<int, bool>, s: int)
    requires s !in cleared && forall v :: v in cleared ==> !cleared[v]
    ensures Targets(cleared[s := true], s) == cleared.Keys
  {
  }

  /**
   * A graph of two nodes or more keeps an ordinary node through the reset,
   * which drops the old S alone, and the new S at the next id is not one of them.
   */
  lemma OrdinaryKept(nodes: map<int, bool>, aux: Option<int>, s: int)
    requires |nodes| >= 2 && forall k :: k in nodes ==> k < s
    ensures Ordinary(Cleared(nodes, aux)[s := true]) != {}
  {
    var rest := nodes.Keys - (if aux.Some? then {aux.value} else {});
    assert |rest| >= 1;
    NonEmpty(rest);
    var v :| v in rest;
    assert v in Ordinary(Cleared(nodes, aux)[s := true]);
  }

  /** After step 2: every ordinary node, and only those, has a potential, finite and its least walk weight from s. */
  ghost predicate PotentialsDone(nodes: map<int, bool>, arcs: seq<WArc>, s: int, h: Distances) {
    && h.Keys == Ordinary(nodes)
    && (forall v :: v in h ==> h[v].Some?)
    && ShortestFrom(h, arcs, s)
  }

  /** After step 3: every directed edge is reweighted, by `w + h(u) - h(v)`, and to a non-negative weight. */
  ghost predicate ReweightDone(t: Tables, h: Distances, rw: map<Arc, int>) {
    && (forall k :: k in rw <==> k in t.directed)
    && (forall k :: k in rw ==>
          k.0 in h && k.1 in h && h[k.0].Some? && h[k.1].Some? &&
          rw[k] == t.directed[k] + h[k.0].value - h[k.1].value && rw[k] >= 0)
  }

  /** After step 5: the matrix over the nodes with a potential gives 0 on the diagonal and each directed edge's weight, infinity where there is none. */
  ghost predicate FinalDone(t: Tables, h: Distances, final: map<Arc, Option<int>>) {
    && (forall st :: st in final <==> st.0 in h && st.1 in h)
    && (forall st :: st in final ==>
          final[st] == if st.0 == st.1 then Some(0) else if st in t.directed then Some(t.directed[st]) else None)
  }

  /**
   * What a completed run establishes: h is the least walk weight from s of
   * every ordinary node, all finite; every reweighted edge is `w + h(u) -
   * h(v)` and non-negative; and the final matrix over the ordinary nodes
   * gives back every directed edge's weight, infinity where there is none,
   * and 0 on the diagonal.
   */
  ghost predicate Completed(nodes: map<int, bool>, t: Tables, s: int, arcs: seq<WArc>, h: Distances,
                            rw: map<Arc, int>, final: map<Arc, Option<int>>)
  {
    && ArcList(arcs, t)
    && PotentialsDone(nodes, arcs, s, h)
    && ReweightDone(t, h, rw)
    && FinalDone(t, h, final)
  }

  /**
   * What `johnson_step1` leaves for the later steps: S is a flagged node,
   * every directed edge joins two ordinary nodes, and S has a weight-0
   * auxiliary edge to every ordinary node.
   */
  ghost predicate SourceAdded(nodes: map<int, bool>, t: Tables, s: int) {
    && s in nodes && nodes[s]
    && (forall k :: k in t.directed ==> k.0 in Ordinary(nodes) && k.1 in Ordinary(nodes))
    && (forall v :: v in Ordinary(nodes) ==> (s, v) in t.auxiliary && t.auxiliary[(s, v)] == 0)
  }

  /** No edge of a consistent graph starts at the next id. */
  lemma NoEdgeFrom(cleared: map<int, bool>, t1: Tables, s: int)
    requires Consistent(cleared, t1, None, s)
    ensures forall k :: k in t1.auxiliary || k in t1.directed ==> k.0 != s
  {
    forall k | k in t1.auxiliary || k in t1.directed ensures k.0 != s {
      var u := k.0;
      assert u in cleared;
    }
  }

  /** Keys over the nodes of a consistent graph join two ordinary nodes once S, the next id, is added. */
  lemma KeysOrdinary<V>(cleared: map<int, bool>, t1: Tables, s: int, d: map<Arc, V>)
    requires Consistent(cleared, t1, None, s) && forall v :: v in cleared ==> !cleared[v]
    requires d.Keys == t1.directed.Keys
    ensures forall k :: k in d ==> k.0 in Ordinary(cleared[s := true]) && k.1 in Ordinary(cleared[s := true])
  {
    forall k | k in d ensures k.0 in Ordinary(cleared[s := true]) && k.1 in Ordinary(cleared[s := true]) {
      assert k in t1.directed;
      var u, v := k.0, k.1;
      assert u in cleared && v in cleared;
      assert u < s && v < s;
    }
  }

  /** A fresh S spoked to every node of an unflagged graph without S is a source added. */
  lemma SpokedAdded(cleared: map<int, bool>, t1: Tables, s: int)
    requires Consistent(cleared, t1, None, s) && forall v :: v in cleared ==> !cleared[v]
    ensures SourceAdded(cleared[s := true], Spoked(t1, s, cleared.Keys), s)
  {
    var nodes, t := cleared[s := true], Spoked(t1, s, cleared.Keys);
    KeysOrdinary(cleared, t1, s, t.directed);
    NoEdgeFrom(cleared, t1, s);
    SpokedFresh(t1, s, cleared.Keys);
    SpokesMembers(s, cleared.Keys);
    forall v | v in Ordinary(nodes) ensures (s, v) in t.auxiliary && t.auxiliary[(s, v)] == 0 {
      assert (s, v) in Spokes(s, cleared.Keys);
    }
  }

  /** Every ordinary node has a finite potential: S reaches each by its weight-0 edge. */
  lemma PotentialsFinite(nodes: map<int, bool>, t: Tables, s: int, arcs: seq<WArc>, h: Distances)
    requires SourceAdded(nodes, t, s) && forall a :: GraphArc(t, a) ==> a in arcs
    requires h.Keys == Ordinary(nodes) && ShortestFrom(h, arcs, s)
    ensures forall v :: v in h ==> h[v].Some?
  {
    forall v | v in h ensures h[v].Some? {
      assert v in Ordinary(nodes);
      var a := WArc(s, v, 0);
      assert GraphArc(t, a);
      var j :| 0 <= j < |arcs| && arcs[j] == a;
      SpokeFinite(h, arcs, s, j);
    }
  }

  /** Every directed edge joins two ordinary nodes, so each is reweighted, and by a non-negative amount. */
  lemma ReweightedFacts(nodes: map<int, bool>, t: Tables, arcs: seq<WArc>, s: int, h: Distances, rw: map<Arc, int>)
    requires forall k :: k in t.directed ==> k.0 in Ordinary(nodes) && k.1 in Ordinary(nodes)
    requires forall a :: GraphArc(t, a) ==> a in arcs
    requires h.Keys == Ordinary(nodes) && ShortestFrom(h, arcs, s) && forall v :: v in h ==> h[v].Some?
    requires IsReweighted(rw, t.directed, h)
    ensures ReweightDone(t, h, rw)
  {
    ReweightedNonNegative(t, arcs, s, h, rw);
    forall k | k in rw ensures h[k.0].Some? && h[k.1].Some? && rw[k] >= 0 {
      var u, v := k.0, k.1;
      assert h[u].Some? && h[v].Some?;
    }
  }

  /** The final matrix over the ordinary nodes gives back the directed edges. */
  lemma FinalFacts(nodes: map<int, bool>, t: Tables, h: Distances, rw: map<Arc, int>,
                   dprime: map<Arc, Option<int>>, final: map<Arc, Option<int>>)
    requires h.Keys == Ordinary(nodes) && IsReweighted(rw, t.directed, h)
    requires forall st: Arc :: st.0 in Ordinary(nodes) && st.1 in Ordinary(nodes) ==>
               st in dprime && dprime[st] == DirectAt(rw, t, st)
    requires IsFinalMatrix(final, Ordinary(nodes), dprime, h)
    ensures FinalDone(t, h, final)
  {
    forall st | st in final && st.0 != st.1
      ensures final[st] == if st in t.directed then Some(t.directed[st]) else None
    {
      FinalRecovers(t, h, rw, dprime, st);
    }
  }

  /** The d' matrix of step 4 covers the ordinary nodes. */
  lemma DirectCovers(nodes: map<int, bool>, t: Tables, rw: map<Arc, int>, dprime: map<Arc, Option<int>>)
    requires IsDirectMatrix(dprime, StepLabels(nodes), rw, t)
    ensures forall st: Arc :: st.0 in Ordinary(nodes) && st.1 in Ordinary(nodes) ==>
              st in dprime && dprime[st] == DirectAt(rw, t, st)
  {
    forall st: Arc | st.0 in Ordinary(nodes) && st.1 in Ordinary(nodes)
      ensures st in dprime && dprime[st] == DirectAt(rw, t, st)
    {
      assert StepLabels(nodes) == Ordinary(nodes);
    }
  }

  /** The facts of a completed run, from what each of steps 2 to 5 ensures. */
  lemma Establish(nodes: map<int, bool>, t: Tables, s: int, arcs: seq<WArc>, h: Distances,
                  rw: map<Arc, int>, dprime: map<Arc, Option<int>>, final: map<Arc, Option<int>>)
    requires SourceAdded(nodes, t, s) && ArcList(arcs, t)
    requires h.Keys == Ordinary(nodes) && ShortestFrom(h, arcs, s)
    requires IsReweighted(rw, t.directed, h)
    requires IsDirectMatrix(dprime, StepLabels(nodes), rw, t)
    requires IsFinalMatrix(final, Ordinary(nodes), dprime, h)
    ensures Completed(nodes, t, s, arcs, h, rw, final)
  {
    PotentialsFinite(nodes, t, s, arcs, h);
    ReweightedFacts(nodes, t, arcs, s, h, rw);
    DirectCovers(nodes, t, rw, dprime);
    FinalFacts(nodes, t, h, rw, dprime, final);
  }

  class JohnsonRun {
    /** `self.graph` */
    const graph: WeightedGraph
    /** `current_step` */
    var currentStep: int
    /** `johnson_steps`, each step by its kind. */
    var steps: seq<StepKind>
    /** `h_values` */
    var hValues: Distances
    /** `reweighted_edges` */
    var reweightedEdges: map<Arc, int>
    /** `dijkstra_results`, the d' matrix keyed by `(source, target)`. */
    var dijkstraResults: map<Arc, Option<int>>
    /** `final_distances` */
    var finalDistances: map<Arc, Option<int>>
    /** The arc list and the source of the last Bellman-Ford pass. */
    ghost var arcs: seq<WArc>
    ghost var source: int

    ghost predicate Valid()
      reads this, graph
    {
      graph.Valid() && 0 <= currentStep <= 5 && |steps| <= 5
    }

    /** The run completed: S is `source`, and `Completed` holds of the graph and the step results. */
    ghost predicate Succeeded()
      reads this, graph
    {
      graph.auxiliaryNode == Some(source) &&
      Completed(graph.nodes, graph.AllTables(), source, arcs, hValues, reweightedEdges, finalDistances)
    }

    /** `JohnsonGraphVisualizer.__init__`: an empty directed graph and no steps. */
    constructor ()
      ensures Valid() && fresh(graph)
      ensures graph.nodes == map[] && graph.AllTables() == Tables(map[], map[], map[], map[])
      ensures currentStep == 0 && steps == [] && hValues == map[] && reweightedEdges == map[]
      ensures dijkstraResults == map[] && finalDistances == map[]
    {
      graph := new WeightedGraph();
      currentStep := 0;
      steps := [];
      hValues := map[];
      reweightedEdges := map[];
      dijkstraResults := map[];
      finalDistances := map[];
    }

    /** `reset_johnson_state`: every table emptied, S and its edges removed, every node unflagged. */
    method ResetJohnsonState()
      requires Valid()
      modifies this, graph
      ensures Valid()
      ensures currentStep == 0 && steps == [] && hValues == map[] && reweightedEdges == map[]
      ensures dijkstraResults == map[] && finalDistances == map[]
      ensures graph.nodes == Cleared(old(graph.nodes), old(graph.auxiliaryNode))
      ensures graph.AllTables() == Cleaned(old(graph.AllTables()), old(graph.auxiliaryNode))
      ensures graph.auxiliaryNode == None && graph.nextNodeId == old(graph.nextNodeId)
    {
      currentStep := 0;
      steps := [];
      hValues := map[];
      reweightedEdges := map[];
      dijkstraResults := map[];
      finalDistances := map[];
      graph.RemoveAuxiliaryNode();
      graph.ResetNodes();
      ClearedIs(old(graph.nodes), old(graph.auxiliaryNode), graph.nodes);
    }

    /** `johnson_step1`: a new node S, flagged auxiliary, with a weight-0 edge to every other unflagged node. */
    method JohnsonStep1() returns (step: StepKind)
      requires Valid()
      modifies graph
      ensures Valid() && step == AddSource
      ensures graph.nodes == old(graph.nodes)[old(graph.nextNodeId) := true]
      ensures graph.auxiliaryNode == Some(old(graph.nextNodeId)) && graph.nextNodeId == old(graph.nextNodeId) + 1
      ensures graph.AllTables() == Spoked(old(graph.AllTables()), old(graph.nextNodeId), Targets(graph.nodes, old(graph.nextNodeId)))
    {
      var s := graph.AddNode(true);
      graph.AddAuxiliaryEdges();
      step := AddSource;
    }

    /**
     * `johnson_step2`: None without S; otherwise Bellman-Ford from S over
     * the graph's arcs, None exactly when a negative cycle is reachable from
     * S, and else h holds every ordinary node's least walk weight from S.
     */
    method JohnsonStep2() returns (step: Option<StepKind>)
      requires Valid()
      modifies this`hValues, this`arcs, this`source
      ensures Valid()
      ensures graph.auxiliaryNode == None ==> step == None && hValues == old(hValues)
      ensures graph.auxiliaryNode.Some? ==>
                && source == graph.auxiliaryNode.value
                && ArcList(arcs, graph.AllTables())
                && (step.Some? <==> !NegativeCycle(arcs, source))
      ensures step.None? ==> hValues == old(hValues)
      ensures step.Some? ==>
                && step.value == BellmanFordStep
                && hValues.Keys == Ordinary(graph.nodes)
                && ShortestFrom(hValues, arcs, source)
    {
      if graph.auxiliaryNode == None {
        return None;
      }
      var s := graph.auxiliaryNode.value;
      var h, all, last := ComputePotentials(graph.nodes, graph.AllTables(), graph.auxiliaryNode, graph.nextNodeId, s);
      arcs, source := all, s;
      if h.None? {
        return None;
      }
      hValues := h.value;
      return Some(BellmanFordStep);
    }

    /** `johnson_step3`: the directed edges reweighted with h. */
    method JohnsonStep3() returns (step: StepKind)
      modifies this`reweightedEdges
      ensures step == Reweighting && IsReweighted(reweightedEdges, graph.directedEdges, hValues)
    {
      reweightedEdges := Reweight(graph.directedEdges, hValues);
      step := Reweighting;
    }

    /** `johnson_step4`: the d' matrix over the step's labels. */
    method JohnsonStep4() returns (step: StepKind)
      modifies this`dijkstraResults
      ensures step == DijkstraStep
      ensures IsDirectMatrix(dijkstraResults, StepLabels(graph.nodes), reweightedEdges, graph.AllTables())
    {
      var labels := Ordinary(graph.nodes);
      if labels == {} {
        labels := {1, 2, 3, 4, 5};
      }
      var es := graph.GetAllEdges();
      dijkstraResults := DirectMatrix(labels, es, reweightedEdges, graph.AllTables());
      step := DijkstraStep;
    }

    /** `johnson_step5`: the final matrix over the ordinary nodes. */
    method JohnsonStep5() returns (step: StepKind)
      modifies this`finalDistances
      ensures step == FinalDistances
      ensures IsFinalMatrix(finalDistances, Ordinary(graph.nodes), dijkstraResults, hValues)
    {
      finalDistances := FinalMatrix(Ordinary(graph.nodes), dijkstraResults, hValues);
      step := FinalDistances;
    }

    /**
     * `run_johnson`: nothing with fewer than two nodes; otherwise a reset,
     * S added, and either a reported negative cycle or all five steps with
     * what they establish.
     */
    method RunJohnson() returns (r: bool)
      requires Valid()
      modifies this, graph
      ensures Valid()
      ensures |old(graph.nodes)| < 2 ==> !r && unchanged(this) && unchanged(graph)
      ensures |old(graph.nodes)| >= 2 ==>
                var s := old(graph.nextNodeId);
                var cleared := Cleared(old(graph.nodes), old(graph.auxiliaryNode));
                && graph.nodes == cleared[s := true]
                && graph.AllTables() == Spoked(Cleaned(old(graph.AllTables()), old(graph.auxiliaryNode)), s, cleared.Keys)
                && graph.auxiliaryNode == Some(s) && source == s
                && graph.nextNodeId == s + 1 && currentStep == 0
      ensures |old(graph.nodes)| >= 2 && !r ==> steps == [AddSource] && NegativeCycle(arcs, source)
      ensures |old(graph.nodes)| >= 2 && !r ==>
                hValues == map[] && reweightedEdges == map[] && dijkstraResults == map[] && finalDistances == map[]
      ensures r ==> steps == [AddSource, BellmanFordStep, Reweighting, DijkstraStep, FinalDistances] && Succeeded()
      ensures r ==> IsDirectMatrix(dijkstraResults, Ordinary(graph.nodes), reweightedEdges, graph.AllTables())
    {
      if |graph.nodes| < 2 {
        return false;
      }
      OrdinaryKept(graph.nodes, graph.auxiliaryNode, graph.nextNodeId);
      StartRun();
      ghost var nodes1, tables1 := graph.nodes, graph.AllTables();
      r := RunSteps(old(graph.nextNodeId));
      assert graph.nodes == nodes1 && graph.AllTables() == tables1;
      assert StepLabels(graph.nodes) == Ordinary(graph.nodes);
      AllFiveSteps();
    }

    /** Step 1 followed by steps 2 to 5 is the full record of a run. */
    lemma AllFiveSteps()
      ensures [AddSource] + [BellmanFordStep, Reweighting, DijkstraStep, FinalDistances]
           == [AddSource, BellmanFordStep, Reweighting, DijkstraStep, FinalDistances]
    {
    }

    /** The start of `run_johnson`: the reset, then step 1 recorded. */
    method StartRun()
      requires Valid()
      modifies this, graph
      ensures Valid() && steps == [AddSource]
      ensures var s := old(graph.nextNodeId);
              var cleared := Cleared(old(graph.nodes), old(graph.auxiliaryNode));
              && graph.nodes == cleared[s := true]
              && graph.AllTables() == Spoked(Cleaned(old(graph.AllTables()), old(graph.auxiliaryNode)), s, cleared.Keys)
              && graph.auxiliaryNode == Some(s)
              && graph.nextNodeId == s + 1
              && SourceAdded(graph.nodes, graph.AllTables(), s)
      ensures currentStep == 0 && hValues == map[] && reweightedEdges == map[]
      ensures dijkstraResults == map[] && finalDistances == map[]
    {
      ResetJohnsonState();
      ghost var cleared, t1, s := graph.nodes, graph.AllTables(), graph.nextNodeId;
      assert Consistent(cleared, t1, None, s);
      var step1 := JohnsonStep1();
      steps := steps + [step1];
      TargetsCleared(cleared, s);
      SpokedAdded(cleared, t1, s);
    }

    /** Steps 2 to 5 of `run_johnson`, once S is added: stop at a negative cycle, or record all four. */
    method RunSteps(ghost s: int) returns (r: bool)
      requires Valid() && |steps| == 1 && graph.auxiliaryNode == Some(s) && SourceAdded(graph.nodes, graph.AllTables(), s)
      modifies this`steps, this`hValues, this`arcs, this`source
      modifies this`reweightedEdges, this`dijkstraResults, this`finalDistances
      ensures Valid()
      ensures source == s
      ensures !r ==> steps == old(steps) && NegativeCycle(arcs, source)
      ensures !r ==> hValues == old(hValues) && reweightedEdges == old(reweightedEdges)
      ensures !r ==> dijkstraResults == old(dijkstraResults) && finalDistances == old(finalDistances)
      ensures r ==> steps == old(steps) + [BellmanFordStep, Reweighting, DijkstraStep, FinalDistances] && Succeeded()
      ensures r ==> IsDirectMatrix(dijkstraResults, StepLabels(graph.nodes), reweightedEdges, graph.AllTables())
    {
      var step2 := JohnsonStep2();
      if step2.None? {
        return false;
      }
      steps := steps + [step2.value];
      RunReweighted();
      return true;
    }

    /** Steps 3 to 5 of `run_johnson`, once step 2 has found the potentials: each recorded, and the run completed. */
    method RunReweighted()
      requires Valid() && |steps| == 2 && graph.auxiliaryNode == Some(source)
      requires SourceAdded(graph.nodes, graph.AllTables(), source)
      requires ArcList(arcs, graph.AllTables())
      requires hValues.Keys == Ordinary(graph.nodes) && ShortestFrom(hValues, arcs, source)
      modifies this`steps, this`reweightedEdges, this`dijkstraResults, this`finalDistances
      ensures Valid()
      ensures steps == old(steps) + [Reweighting, DijkstraStep, FinalDistances] && Succeeded()
      ensures IsDirectMatrix(dijkstraResults, StepLabels(graph.nodes), reweightedEdges, graph.AllTables())
    {
      var step3 := JohnsonStep3();
      var step4 := JohnsonStep4();
      var step5 := JohnsonStep5();
      steps := steps + [step3, step4, step5];
      Establish(graph.nodes, graph.AllTables(), source, arcs, hValues, reweightedEdges, dijkstraResults, finalDistances);
    }

    /** `get_current_step_data`: the step `current_step` points at, if there is one. */
    function CurrentStepData(): (r: Option<StepKind>)
      reads this
      requires 0 <= currentStep
      ensures r.Some? <==> currentStep < |steps|
      ensures r.Some? ==> r.value == steps[currentStep]
    {
      if currentStep < |steps| then Some(steps[currentStep]) else None
    }

    /** `next_step`: one step forward while a recorded step remains. */
    method NextStep() returns (data: Option<StepKind>)
      requires Valid()
      modifies this`currentStep
      ensures Valid() && currentStep == Advanced(old(currentStep), |steps|)
      ensures old(currentStep) < |steps| ==> data == CurrentStepData()
      ensures old(currentStep) >= |steps| ==> data == None
    {
      if currentStep < |steps| {
        currentStep := currentStep + 1;
        return CurrentStepData();
      }
      return None;
    }

    /** `prev_step`: one step back unless at the start. */
    method PrevStep() returns (data: Option<StepKind>)
      requires Valid()
      modifies this`currentStep
      ensures Valid() && currentStep == Retreated(old(currentStep))
      ensures old(currentStep) > 0 ==> data == CurrentStepData()
      ensures old(currentStep) == 0 ==> data == None
    {
      if currentStep > 0 {
        currentStep := currentStep - 1;
        return CurrentStepData();
      }
      return None;
    }

    /** `go_to_step`: only 0 to 5 are accepted. */
    method GoToStep(n: int) returns (data: Option<StepKind>)
      requires Valid()
      modifies this`currentStep
      ensures Valid()
      ensures 0 <= n <= 5 ==> currentStep == n && data == CurrentStepData()
      ensures !(0 <= n <= 5) ==> currentStep == old(currentStep) && data == None
    {
      if 0 <= n <= 5 {
        currentStep := n;
        return CurrentStepData();
      }
      return None;
    }

    /** `reset_algorithm` */
    method ResetAlgorithm()
      requires Valid()
      modifies this, graph
      ensures Valid()
      ensures currentStep == 0 && steps == [] && hValues == map[] && reweightedEdges == map[]
      ensures dijkstraResults == map[] && finalDistances == map[]
      ensures graph.nodes == Cleared(old(graph.nodes), old(graph.auxiliaryNode))
      ensures graph.AllTables() == Cleaned(old(graph.AllTables()), old(graph.auxiliaryNode))
      ensures graph.auxiliaryNode == None && graph.nextNodeId == old(graph.nextNodeId)
    {
      ResetJohnsonState();
    }
  }
}
