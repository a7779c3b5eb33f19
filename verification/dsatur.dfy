/**
 * The DSATUR run of TP4/dsatur_app.py (`DSATURAlgorithmApp`): the run state
 * (`dsatur_state`), the choice of the next node (highest saturation, then
 * highest degree, then earliest in the list), the choice of its colour
 * (the smallest palette index no neighbour wears, or -1 when all ten are
 * taken) and the refresh of the saturations around it.
 *
 * The invariant `ColoringOf` says what a run keeps: the two lists partition
 * the nodes, uncoloured nodes carry no colour and an exact saturation, no two
 * neighbours share a colour, and a coloured node without a colour has at
 * least ten neighbours.
 */
module Dsatur {
  import opened Common
  import opened ColoringGraph

  // ---- the colour of a node ----

  /** The first index from i on, below the palette size, that is not used; -1 when there is none. */
  function FreeFrom(used: set<int>, i: int): (c: int)
    requires 0 <= i <= Palette
    ensures c == NoColor || (i <= c < Palette && c !in used && forall d :: i <= d < c ==> d in used)
    ensures c == NoColor ==> forall d :: i <= d < Palette ==> d in used
    decreases Palette - i
  {
    if i == Palette then NoColor
    else if i !in used then i
    else FreeFrom(used, i + 1)
  }

  /**
   * The colour loop of `color_node_dsatur`: the smallest palette index not
   * in used, or -1 exactly when every index is used.
   */
  function FirstFreeColor(used: set<int>): (c: int)
    ensures c == NoColor || (0 <= c < Palette && c !in used && forall d :: 0 <= d < c ==> d in used)
    ensures c == NoColor <==> forall d :: 0 <= d < Palette ==> d in used
  {
    FreeFrom(used, 0)
  }

  /** `for color_index in range(len(self.graph_view.colors))`, stopping at the first free index. */
  method FirstFree(used: set<int>) returns (c: int)
    ensures c == FirstFreeColor(used)
  {
    c := NoColor;
    var i := 0;
    while i < Palette
      invariant 0 <= i <= Palette
      invariant forall d :: 0 <= d < i ==> d in used
    {
      if i !in used {
        c := i;
        return;
      }
      i := i + 1;
    }
  }

  /** The palette indices below n. */
  function Indices(n: nat): (r: set<int>)
    ensures forall d :: d in r <==> 0 <= d < n
    ensures |r| == n
  {
    if n == 0 then {} else Indices(n - 1) + {n - 1}
  }

  lemma {:induction false} SubsetSize(a: set<int>, b: set<int>)
    requires a <= b
    ensures |a| <= |b|
    decreases |a|
  {
    if a != {} {
      NonEmpty(a);
      var x :| x in a;
      SubsetSize(a - {x}, b - {x});
    }
  }

  /** When no palette index is free, at least ten colours are in use. */
  lemma PaletteFull(used: set<int>)
    requires FirstFreeColor(used) == NoColor
    ensures |used| >= Palette
  {
    SubsetSize(Indices(Palette), used);
  }

  /** A node has no more distinct neighbour colours than neighbours. */
  lemma {:induction false} FewerColorsThanNeighbors(nodes: map<int, Vertex>, nbrs: set<int>)
    ensures |NeighborColors(nodes, nbrs)| <= |nbrs|
    decreases |nbrs|
  {
    if nbrs == {} {
      assert NeighborColors(nodes, nbrs) == {};
    } else {
      NonEmpty(nbrs);
      var n :| n in nbrs;
      var rest := nbrs - {n};
      FewerColorsThanNeighbors(nodes, rest);
      assert nbrs == rest + {n};
      NeighborColorsAdd(nodes, rest, n);
    }
  }

  /** With every node uncoloured, no node sees a colour around it. */
  lemma NoColorsAround(nodes: map<int, Vertex>, nbrs: set<int>)
    requires forall k :: k in nodes ==> nodes[k].color == NoColor
    ensures NeighborColors(nodes, nbrs) == {}
  {
  }

  /** The colour `color_node_dsatur` picks for a node. */
  ghost function ChosenColor(nodes: map<int, Vertex>, id: int): int
    requires id in nodes
  {
    FirstFreeColor(NeighborColors(nodes, nodes[id].neighbors))
  }

  /** `color_node(id, c)`: only a palette index is applied. */
  function Painted(nodes: map<int, Vertex>, id: int, c: int): (m: map<int, Vertex>)
    ensures m.Keys == nodes.Keys
  {
    if 0 <= c < Palette && id in nodes then nodes[id := nodes[id].(color := c)] else nodes
  }

  /** The listed nodes get their saturation recomputed from the colours of the map. */
  ghost function Resaturated(nodes: map<int, Vertex>, ids: set<int>): (m: map<int, Vertex>)
    ensures m.Keys == nodes.Keys
  {
    map k | k in nodes :: if k in ids then nodes[k].(saturation := |NeighborColors(nodes, nodes[k].neighbors)|) else nodes[k]
  }

  function Members(s: seq<int>): set<int> {
    set x | x in s
  }

  /** The nodes after `color_node_dsatur(id)` with the given uncoloured list. */
  ghost function AfterColoring(nodes: map<int, Vertex>, id: int, uncolored: seq<int>): map<int, Vertex>
    requires id in nodes
  {
    Resaturated(Painted(nodes, id, ChosenColor(nodes, id)), nodes[id].neighbors * Members(uncolored))
  }

  // ---- the node DSATUR picks ----

  /** DSATUR's order: u comes before v on a higher saturation, or on the same saturation and a higher degree. */
  predicate Outranks(u: Vertex, v: Vertex) {
    u.saturation > v.saturation || (u.saturation == v.saturation && u.degree > v.degree)
  }

  /**
   * Entry k of the uncoloured list is the node `dsatur_step` selects: no
   * entry outranks it (so its saturation is the highest, and its degree the
   * highest among those), and it outranks every earlier entry (so it is the
   * first such node in the list).
   */
  ghost predicate Selected(nodes: map<int, Vertex>, us: seq<int>, k: int) {
    0 <= k < |us| && (forall j :: 0 <= j < |us| ==> us[j] in nodes) &&
    (forall j :: 0 <= j < |us| ==> !Outranks(nodes[us[j]], nodes[us[k]])) &&
    (forall j :: 0 <= j < k ==> Outranks(nodes[us[k]], nodes[us[j]]))
  }

  /** The selection is determined: at most one entry is selected. */
  lemma SelectedUnique(nodes: map<int, Vertex>, us: seq<int>, k: int, k': int)
    requires Selected(nodes, us, k) && Selected(nodes, us, k')
    ensures k == k'
  {
    assert !Outranks(nodes[us[k']], nodes[us[k]]);
    assert !Outranks(nodes[us[k]], nodes[us[k']]);
  }

  /** A selected node has the highest saturation of the list. */
  lemma SelectedSaturation(nodes: map<int, Vertex>, us: seq<int>, k: int, j: int)
    requires Selected(nodes, us, k) && 0 <= j < |us|
    ensures nodes[us[j]].saturation <= nodes[us[k]].saturation
    ensures nodes[us[j]].saturation == nodes[us[k]].saturation ==> nodes[us[j]].degree <= nodes[us[k]].degree
  {
    assert !Outranks(nodes[us[j]], nodes[us[k]]);
  }

  /**
   * The two loops of `dsatur_step` that pick the node: the uncoloured
   * nodes of maximum saturation in list order, then the first of them of
   * maximum degree. An id that is not a node raises KeyError.
   */
  method SelectNode(nodes: map<int, Vertex>, us: seq<int>) returns (r: Outcome<int>, ghost k: int)
    requires us != [] && Tidy(nodes)
    ensures r.Raised? <==> exists j :: 0 <= j < |us| && us[j] !in nodes
    ensures r.Raised? ==> r.fault == KeyError
    ensures r.Ok? ==> Selected(nodes, us, k) && r.value == us[k]
  {
    var found;
    ghost var at, top;
    found, at, top := MostSaturated(nodes, us);
    if found.Raised? {
      return Raised(found.fault), 0;
    }
    var candidates := found.value;
    var selected;
    ghost var pos;
    selected, pos := HighestDegree(nodes, candidates);
    k := at[pos];
    SelectionMeets(nodes, us, at, candidates, top, pos);
    return Ok(selected), k;
  }

  /**
   * The candidates of `dsatur_step`: the entries of us at the increasing
   * positions at, exactly the entries whose saturation is the highest, top.
   */
  ghost predicate Tops(nodes: map<int, Vertex>, us: seq<int>, at: seq<int>, candidates: seq<int>, top: int) {
    (forall j :: 0 <= j < |us| ==> us[j] in nodes) &&
    |at| == |candidates| &&
    (forall t :: 0 <= t < |at| ==> 0 <= at[t] < |us| && candidates[t] == us[at[t]]) &&
    (forall t :: 0 <= t < |at| ==> nodes[us[at[t]]].saturation == top) &&
    (forall t, t' :: 0 <= t < t' < |at| ==> at[t] < at[t']) &&
    (forall j :: 0 <= j < |us| ==> nodes[us[j]].saturation <= top) &&
    (forall j :: 0 <= j < |us| && nodes[us[j]].saturation == top ==> j in at)
  }

  /** The first loop of `dsatur_step`: the uncoloured nodes of maximum saturation, in list order. */
  method MostSaturated(nodes: map<int, Vertex>, us: seq<int>) returns (r: Outcome<seq<int>>, ghost at: seq<int>, ghost top: int)
    requires us != [] && Tidy(nodes)
    ensures r.Raised? <==> exists j :: 0 <= j < |us| && us[j] !in nodes
    ensures r.Raised? ==> r.fault == KeyError
    ensures r.Ok? ==> r.value != [] && Tops(nodes, us, at, r.value, top)
  {
    var maxSaturation := -1;
    var candidates: seq<int> := [];
    at := [];
    var i := 0;
    while i < |us|
      invariant 0 <= i <= |us|
      invariant forall j :: 0 <= j < i ==> us[j] in nodes
      invariant i == 0 ==> maxSaturation == -1 && at == []
      invariant |at| == |candidates| && (i > 0 ==> |at| > 0)
      invariant forall t :: 0 <= t < |at| ==> 0 <= at[t] < i && candidates[t] == us[at[t]]
      invariant forall t :: 0 <= t < |at| ==> nodes[us[at[t]]].saturation == maxSaturation
      invariant forall t, t' :: 0 <= t < t' < |at| ==> at[t] < at[t']
      invariant forall j :: 0 <= j < i ==> nodes[us[j]].saturation <= maxSaturation
      invariant forall j :: 0 <= j < i && nodes[us[j]].saturation == maxSaturation ==> j in at
    {
      var id := us[i];
      if id !in nodes {
        return Raised(KeyError), at, maxSaturation;
      }
      var node := nodes[id];
      if node.saturation > maxSaturation {
        maxSaturation := node.saturation;
        candidates := [id];
        at := [i];
      } else if node.saturation == maxSaturation {
        candidates := candidates + [id];
        at := at + [i];
      }
      i := i + 1;
    }
    return Ok(candidates), at, maxSaturation;
  }

  /** The second part of `dsatur_step`'s choice: the first candidate of maximum degree. */
  method HighestDegree(nodes: map<int, Vertex>, candidates: seq<int>) returns (selected: int, ghost pos: int)
    requires candidates != [] && Tidy(nodes)
    requires forall t :: 0 <= t < |candidates| ==> candidates[t] in nodes
    ensures 0 <= pos < |candidates| && selected == candidates[pos]
    ensures forall t :: 0 <= t < |candidates| ==> nodes[candidates[t]].degree <= nodes[selected].degree
    ensures forall t :: 0 <= t < pos ==> nodes[candidates[t]].degree < nodes[selected].degree
  {
    selected := candidates[0];
    pos := 0;
    if |candidates| > 1 {
      var maxDegree := -1;
      var t := 0;
      while t < |candidates|
        invariant 0 <= t <= |candidates| && 0 <= pos < |candidates| && selected == candidates[pos]
        invariant t == 0 ==> pos == 0 && maxDegree == -1
        invariant t > 0 ==> pos < t && maxDegree == nodes[candidates[pos]].degree
        invariant forall t' :: 0 <= t' < t ==> nodes[candidates[t']].degree <= maxDegree
        invariant forall t' :: 0 <= t' < pos ==> nodes[candidates[t']].degree < maxDegree
      {
        var degree := nodes[candidates[t]].degree;
        if degree > maxDegree {
          maxDegree := degree;
          selected := candidates[t];
          pos := t;
        }
        t := t + 1;
      }
    }
  }

  /** What the two loops leave establishes `Selected`. */
  lemma SelectionMeets(nodes: map<int, Vertex>, us: seq<int>, at: seq<int>, candidates: seq<int>, top: int, pos: int)
    requires Tops(nodes, us, at, candidates, top) && 0 <= pos < |at|
    requires forall t :: 0 <= t < |candidates| ==> nodes[candidates[t]].degree <= nodes[candidates[pos]].degree
    requires forall t :: 0 <= t < pos ==> nodes[candidates[t]].degree < nodes[candidates[pos]].degree
    ensures Selected(nodes, us, at[pos])
  {
    var k := at[pos];
    forall j | 0 <= j < |us| ensures !Outranks(nodes[us[j]], nodes[us[k]]) {
      if nodes[us[j]].saturation == top {
        var t :| 0 <= t < |at| && at[t] == j;
        assert nodes[candidates[t]].degree <= nodes[candidates[pos]].degree;
      }
    }
    forall j | 0 <= j < k ensures Outranks(nodes[us[k]], nodes[us[j]]) {
      if nodes[us[j]].saturation == top {
        var t :| 0 <= t < |at| && at[t] == j;
        assert nodes[candidates[t]].degree < nodes[candidates[pos]].degree;
      }
    }
  }

  // ---- what a run keeps ----

  /** No node wears the colour of one of its neighbours; uncoloured nodes are exempt. */
  ghost predicate Proper(nodes: map<int, Vertex>) {
    forall a, b :: a in nodes && b in nodes[a].neighbors && b in nodes ==>
      nodes[a].color == NoColor || nodes[a].color != nodes[b].color
  }

  /** The colours the nodes wear. */
  ghost function UsedColors(nodes: map<int, Vertex>): set<int> {
    set k | k in nodes && nodes[k].color != NoColor :: nodes[k].color
  }

  /** The two lists together hold every node exactly once. */
  ghost predicate Partition(nodes: map<int, Vertex>, uncolored: seq<int>, colored: seq<int>) {
    Unique(uncolored + colored) && forall k :: k in nodes <==> k in uncolored || k in colored
  }

  /** A node still waiting has no colour, and its saturation counts the colours around it. */
  ghost predicate Waiting(nodes: map<int, Vertex>, uncolored: seq<int>) {
    forall u :: u in uncolored && u in nodes ==>
      nodes[u].color == NoColor && nodes[u].saturation == |NeighborColors(nodes, nodes[u].neighbors)|
  }

  /** A node that went through a step without getting a colour has at least ten neighbours. */
  ghost predicate Exhausted(nodes: map<int, Vertex>, colored: seq<int>) {
    forall v :: v in colored && v in nodes && nodes[v].color == NoColor ==> nodes[v].degree >= Palette
  }

  /** The run invariant over the graph's nodes and `dsatur_state`. */
  ghost predicate ColoringOf(nodes: map<int, Vertex>, uncolored: seq<int>, colored: seq<int>, used: set<int>, step: int) {
    Partition(nodes, uncolored, colored) && Waiting(nodes, uncolored) && Proper(nodes) &&
    Exhausted(nodes, colored) && used == UsedColors(nodes) && step == |colored|
  }

  /**
   * A finished run: every node has been coloured in some step, no two
   * neighbours share a colour, every node with fewer than ten neighbours
   * has a colour, and at most ten colours are in use.
   */
  lemma Finished(nodes: map<int, Vertex>, colored: seq<int>, used: set<int>, step: int)
    requires ColoringOf(nodes, [], colored, used, step) && Tidy(nodes)
    ensures forall k :: k in nodes <==> k in colored
    ensures Proper(nodes)
    ensures forall k :: k in nodes && nodes[k].degree < Palette ==> 0 <= nodes[k].color < Palette
    ensures used <= Indices(Palette) && |used| <= Palette
  {
    SubsetSize(used, Indices(Palette));
  }

  // ---- one step, on values ----

  /** `uncolored.remove(id)` for the entry at k of a list without repeats. */
  lemma RemovedEntry(us: seq<int>, k: int)
    requires Unique(us) && 0 <= k < |us|
    ensures PyRemove(us, us[k]) == us[..k] + us[k + 1..]
    ensures forall x :: x in PyRemove(us, us[k]) <==> x in us && x != us[k]
  {
    forall t | 0 <= t < k ensures us[t] != us[k] { }
    PyRemoveAt(us, k);
    forall x ensures x in us[..k] + us[k + 1..] <==> x in us && x != us[k] {
      if x in us && x != us[k] {
        KeptEntry(us, k, x);
      }
      if x in us[..k] + us[k + 1..] {
        DroppedEntry(us, k, x);
      }
    }
  }

  lemma KeptEntry(us: seq<int>, k: int, x: int)
    requires 0 <= k < |us| && x in us && x != us[k]
    ensures x in us[..k] + us[k + 1..]
  {
    var r := us[..k] + us[k + 1..];
    var t :| 0 <= t < |us| && us[t] == x;
    if t < k {
      assert r[t] == x;
    } else {
      assert r[t - 1] == x;
    }
  }

  lemma DroppedEntry(us: seq<int>, k: int, x: int)
    requires Unique(us) && 0 <= k < |us| && x in us[..k] + us[k + 1..]
    ensures x in us && x != us[k]
  {
    var r := us[..k] + us[k + 1..];
    var t :| 0 <= t < |r| && r[t] == x;
    var t' := if t < k then t else t + 1;
    assert us[t'] == x && t' != k;
  }

  /** Moving entry k of the first list to the end of the second keeps the entries distinct. */
  lemma MovedUnique(us: seq<int>, colored: seq<int>, k: int)
    requires Unique(us + colored) && 0 <= k < |us|
    ensures Unique(us[..k] + us[k + 1..] + (colored + [us[k]]))
  {
    var all := us + colored;
    var w := us[..k] + us[k + 1..] + (colored + [us[k]]);
    var n := |all|;
    assert |w| == n;
    forall i | 0 <= i < n ensures w[i] == all[Moved(i, k, n)] {
      if i < k {
        assert w[i] == us[i];
      } else if i < |us| - 1 {
        assert w[i] == us[i + 1];
      } else if i < n - 1 {
        assert w[i] == colored[i + 1 - |us|];
      }
    }
    forall i, j | 0 <= i < j < n ensures w[i] != w[j] {
      assert Moved(i, k, n) != Moved(j, k, n);
    }
  }

  /** Where entry i of the new lists was in the old ones, when entry k moves to the end. */
  function Moved(i: int, k: int, n: int): int {
    if i < k then i else if i < n - 1 then i + 1 else k
  }

  lemma PartitionStep(nodes: map<int, Vertex>, m: map<int, Vertex>, us: seq<int>, colored: seq<int>, k: int)
    requires Partition(nodes, us, colored) && m.Keys == nodes.Keys && 0 <= k < |us|
    ensures forall x :: x in PyRemove(us, us[k]) <==> x in us && x != us[k]
    ensures Partition(m, PyRemove(us, us[k]), colored + [us[k]])
  {
    var all := us + colored;
    assert Unique(us) by {
      forall i, j | 0 <= i < j < |us| ensures us[i] != us[j] {
        assert all[i] == us[i] && all[j] == us[j];
      }
    }
    RemovedEntry(us, k);
    MovedUnique(us, colored, k);
  }

  /** The colour `color_node_dsatur` picks differs from the colour of every neighbour. */
  lemma ChosenAvoids(nodes: map<int, Vertex>, id: int, b: int)
    requires id in nodes && b in nodes[id].neighbors && b in nodes
    ensures ChosenColor(nodes, id) == NoColor || ChosenColor(nodes, id) != nodes[b].color
  {
    if nodes[b].color != NoColor {
      assert nodes[b].color in NeighborColors(nodes, nodes[id].neighbors);
    }
  }

  /** Painting with the chosen colour keeps the colouring proper. */
  lemma PaintProper(nodes: map<int, Vertex>, edges: seq<Edge>, id: int)
    requires EdgesOver(nodes.Keys, edges) && Adjacent(nodes, edges) && Proper(nodes) && id in nodes
    ensures Proper(Painted(nodes, id, ChosenColor(nodes, id)))
  {
    var m := Painted(nodes, id, ChosenColor(nodes, id));
    forall a, b | a in m && b in m[a].neighbors && b in m
      ensures m[a].color == NoColor || m[a].color != m[b].color
    {
      if a == id {
        ChosenAvoids(nodes, id, b);
      } else if b == id {
        AdjacentSymmetric(nodes, edges, a, b);
        ChosenAvoids(nodes, id, a);
      }
    }
  }

  /** Recomputing saturations changes no colour and no neighbour set. */
  lemma ResaturatedKeeps(nodes: map<int, Vertex>, ids: set<int>)
    ensures forall k :: k in nodes ==> Resaturated(nodes, ids)[k].color == nodes[k].color &&
                                       Resaturated(nodes, ids)[k].neighbors == nodes[k].neighbors &&
                                       Resaturated(nodes, ids)[k].degree == nodes[k].degree
    ensures Proper(nodes) ==> Proper(Resaturated(nodes, ids))
    ensures UsedColors(Resaturated(nodes, ids)) == UsedColors(nodes)
    ensures forall nbrs :: NeighborColors(Resaturated(nodes, ids), nbrs) == NeighborColors(nodes, nbrs)
  {
    var m := Resaturated(nodes, ids);
    forall nbrs ensures NeighborColors(m, nbrs) == NeighborColors(nodes, nbrs) {
      NeighborColorsSame(m, nodes, nbrs);
    }
    var a, b := UsedColors(m), UsedColors(nodes);
    forall c | c in a ensures c in b {
      var k :| k in m && m[k].color != NoColor && m[k].color == c;
      assert nodes[k].color == c;
    }
    forall c | c in b ensures c in a {
      var k :| k in nodes && nodes[k].color != NoColor && nodes[k].color == c;
      assert m[k].color == c;
    }
  }

  /** Painting an uncoloured node adds its colour to the colours in use. */
  lemma PaintedColors(nodes: map<int, Vertex>, id: int, c: int)
    requires id in nodes && nodes[id].color == NoColor
    ensures UsedColors(Painted(nodes, id, c)) == UsedColors(nodes) + (if 0 <= c < Palette then {c} else {})
  {
    var m := Painted(nodes, id, c);
    var a, b := UsedColors(m), UsedColors(nodes);
    forall x | x in a ensures x in b || (0 <= c < Palette && x == c) {
      var k :| k in m && m[k].color != NoColor && m[k].color == x;
      if k != id {
        assert nodes[k].color == x;
      }
    }
    forall x | x in b ensures x in a {
      var k :| k in nodes && nodes[k].color != NoColor && nodes[k].color == x;
      assert k != id && m[k].color == x;
    }
    if 0 <= c < Palette {
      assert m[id].color == c;
    }
  }

  /** Painting one node changes only what that node's neighbours see. */
  lemma PaintedAround(nodes: map<int, Vertex>, id: int, c: int, nbrs: set<int>)
    requires id !in nbrs
    ensures NeighborColors(Painted(nodes, id, c), nbrs) == NeighborColors(nodes, nbrs)
  {
    NeighborColorsSame(Painted(nodes, id, c), nodes, nbrs);
  }

  /** The saturation of an uncoloured node stays exact after a step. */
  lemma SaturationStep(nodes: map<int, Vertex>, edges: seq<Edge>, id: int, us: seq<int>, u: int)
    requires EdgesOver(nodes.Keys, edges) && Adjacent(nodes, edges) && id in nodes && u in nodes && u != id
    requires nodes[u].saturation == |NeighborColors(nodes, nodes[u].neighbors)| && u in us
    ensures var m := AfterColoring(nodes, id, us);
            m[u].saturation == |NeighborColors(m, m[u].neighbors)| && m[u].color == nodes[u].color
  {
    var c := ChosenColor(nodes, id);
    var p := Painted(nodes, id, c);
    var ids := nodes[id].neighbors * Members(us);
    ResaturatedKeeps(p, ids);
    var m := Resaturated(p, ids);
    assert m[u].neighbors == nodes[u].neighbors;
    if u !in ids {
      assert u !in nodes[id].neighbors;
      if id in nodes[u].neighbors {
        AdjacentSymmetric(nodes, edges, u, id);
      }
      PaintedAround(nodes, id, c, nodes[u].neighbors);
    }
  }

  lemma WaitingStep(nodes: map<int, Vertex>, edges: seq<Edge>, id: int, us: seq<int>, rest: seq<int>)
    requires EdgesOver(nodes.Keys, edges) && Adjacent(nodes, edges) && id in nodes && Waiting(nodes, us)
    requires forall x :: x in rest <==> x in us && x != id
    ensures Waiting(AfterColoring(nodes, id, us), rest)
  {
    var m := AfterColoring(nodes, id, us);
    forall u | u in rest && u in m
      ensures m[u].color == NoColor && m[u].saturation == |NeighborColors(m, m[u].neighbors)|
    {
      SaturationStep(nodes, edges, id, us, u);
    }
  }

  /** A node left without a colour because all ten are taken around it has at least ten neighbours. */
  lemma ExhaustedStep(nodes: map<int, Vertex>, id: int, us: seq<int>, colored: seq<int>)
    requires id in nodes && Counted(nodes[id]) && Exhausted(nodes, colored)
    ensures Exhausted(AfterColoring(nodes, id, us), colored + [id])
  {
    var c := ChosenColor(nodes, id);
    var p := Painted(nodes, id, c);
    ResaturatedKeeps(p, nodes[id].neighbors * Members(us));
    if c == NoColor {
      PaletteFull(NeighborColors(nodes, nodes[id].neighbors));
      FewerColorsThanNeighbors(nodes, nodes[id].neighbors);
    }
  }

  lemma ColorsStep(nodes: map<int, Vertex>, edges: seq<Edge>, id: int, us: seq<int>)
    requires EdgesOver(nodes.Keys, edges) && Adjacent(nodes, edges) && Proper(nodes)
    requires id in nodes && nodes[id].color == NoColor
    ensures var c := ChosenColor(nodes, id);
            Proper(AfterColoring(nodes, id, us)) &&
            UsedColors(AfterColoring(nodes, id, us)) == UsedColors(nodes) + (if c != NoColor then {c} else {})
  {
    var c := ChosenColor(nodes, id);
    PaintProper(nodes, edges, id);
    PaintedColors(nodes, id, c);
    ResaturatedKeeps(Painted(nodes, id, c), nodes[id].neighbors * Members(us));
  }

  /** One `dsatur_step` on the selected entry k keeps the run invariant. */
  lemma StepKeeps(nodes: map<int, Vertex>, order: seq<int>, edges: seq<Edge>, next: int,
                  us: seq<int>, colored: seq<int>, used: set<int>, step: int, k: int)
    requires Wellformed(nodes, order, edges, next) && ColoringOf(nodes, us, colored, used, step) && 0 <= k < |us|
    ensures var id := us[k];
            var c := ChosenColor(nodes, id);
            ColoringOf(AfterColoring(nodes, id, us), PyRemove(us, id), colored + [id],
                       used + (if c != NoColor then {c} else {}), step + 1)
  {
    var id := us[k];
    assert id in nodes && Counted(nodes[id]);
    var m := AfterColoring(nodes, id, us);
    PartitionStep(nodes, m, us, colored, k);
    WaitingStep(nodes, edges, id, us, PyRemove(us, id));
    ExhaustedStep(nodes, id, us, colored);
    ColorsStep(nodes, edges, id, us);
  }

  // ---- the run ----

  class DsaturRun {
    /** `self.graph_view.graph` */
    const graph: Graph
    /** `dsatur_state['uncolored']` */
    var uncolored: seq<int>
    /** `dsatur_state['colored']` */
    var colored: seq<int>
    /** `dsatur_state['current_node']` */
    var currentNode: Option<int>
    /** `dsatur_state['step']` */
    var step: int
    /** `dsatur_state['is_running']` */
    var isRunning: bool
    /** `dsatur_state['colors_used']` */
    var colorsUsed: set<int>
    /** Whether `animation_timer` is active. */
    var ticking: bool

    /** The graph together with a run in progress or finished. */
    ghost predicate Coloring()
      reads this, graph
    {
      graph.Valid() && ColoringOf(graph.nodes, uncolored, colored, colorsUsed, step)
    }

    /** `DSATURAlgorithmApp.__init__`: an empty graph and an idle run. */
    constructor ()
      ensures graph.Valid() && fresh(graph)
      ensures graph.nodes == map[] && graph.edges == []
      ensures uncolored == [] && colored == [] && currentNode == None && step == 0
      ensures !isRunning && colorsUsed == {} && !ticking
      ensures Coloring()
    {
      graph := new Graph();
      uncolored := [];
      colored := [];
      currentNode := None;
      step := 0;
      isRunning := false;
      colorsUsed := {};
      ticking := false;
    }

    /**
     * `initialize_dsatur`: colours cleared, every saturation recomputed
     * (all zero), every node uncoloured in the dictionary's order.
     */
    method InitializeDsatur()
      requires graph.Valid()
      modifies this, graph
      ensures Coloring()
      ensures graph.nodes == Blanked(old(graph.nodes)) && graph.edges == old(graph.edges)
      ensures graph.order == old(graph.order) && graph.nextNodeId == old(graph.nextNodeId)
      ensures uncolored == graph.order && colored == [] && currentNode == None && step == 0
      ensures isRunning && colorsUsed == {} && ticking == old(ticking)
    {
      graph.ResetColors();
      var ids := graph.order;
      ghost var blank := graph.nodes;
      var i := 0;
      while i < |ids|
        invariant graph.order == ids && graph.edges == old(graph.edges) && graph.nextNodeId == old(graph.nextNodeId)
        invariant ticking == old(ticking)
        invariant 0 <= i <= |ids|
        invariant graph.Valid() && graph.nodes == blank
      {
        assert ids[i] in ids;
        NoColorsAround(graph.nodes, graph.nodes[ids[i]].neighbors);
        var saturation := graph.UpdateSaturation(ids[i]);
        assert graph.nodes == blank;
        i := i + 1;
      }
      uncolored := ids;
      colored := [];
      currentNode := None;
      step := 0;
      isRunning := true;
      colorsUsed := {};
      InitialColoring(graph.nodes, ids, graph.nextNodeId);
    }

    /**
     * `color_node_dsatur`: the node gets the smallest colour none of its
     * neighbours wears (none when all ten are worn), then every neighbour
     * still in the uncoloured list gets its saturation recomputed.
     */
    method ColorNodeDsatur(id: int) returns (c: int)
      requires graph.Valid() && id in graph.nodes
      modifies graph
      ensures graph.Valid()
      ensures c == ChosenColor(old(graph.nodes), id)
      ensures graph.nodes == AfterColoring(old(graph.nodes), id, uncolored)
      ensures graph.order == old(graph.order) && graph.edges == old(graph.edges) && graph.nextNodeId == old(graph.nextNodeId)
    {
      NeighborsPresent(graph.nodes, graph.edges, id);
      var used := graph.ColorsAround(id);
      c := FirstFree(used);
      var r := graph.ColorNode(id, c);
      var nbrs := graph.nodes[id].neighbors;
      NeighborsPresent(graph.nodes, graph.edges, id);
      RefreshSaturations(nbrs);
    }

    /** The saturation refresh of `color_node_dsatur`, over the neighbours still uncoloured. */
    method RefreshSaturations(nbrs: set<int>)
      requires graph.Valid() && nbrs <= graph.nodes.Keys
      modifies graph
      ensures graph.Valid()
      ensures graph.nodes == Resaturated(old(graph.nodes), nbrs * Members(uncolored))
      ensures graph.order == old(graph.order) && graph.edges == old(graph.edges) && graph.nextNodeId == old(graph.nextNodeId)
    {
      ghost var painted := graph.nodes;
      ResaturatedNone(painted);
      var todo := nbrs;
      while todo != {}
        invariant graph.order == old(graph.order) && graph.edges == old(graph.edges)
        invariant graph.nextNodeId == old(graph.nextNodeId)
        invariant graph.Valid() && todo <= nbrs && nbrs <= painted.Keys
        invariant graph.nodes == Resaturated(painted, (nbrs - todo) * Members(uncolored))
        decreases todo
      {
        NonEmpty(todo);
        var n :| n in todo;
        ghost var done := (nbrs - todo) * Members(uncolored);
        if n in uncolored {
          var saturation := graph.UpdateSaturation(n);
          ResaturatedStep(painted, done, n);
        }
        Shrunk(nbrs, todo, n, Members(uncolored));
        todo := todo - {n};
      }
      assert nbrs - {} == nbrs;
    }

    /**
     * `dsatur_step`: with nothing left the run and the timer stop;
     * otherwise the selected node is coloured, recorded as the current
     * node, moved from the uncoloured list to the coloured one, its colour
     * (if any) is recorded, and the step counter advances.
     */
    method DsaturStep() returns (r: Outcome<()>, ghost k: int)
      requires graph.Valid()
      modifies this, graph
      ensures graph.Valid()
      ensures graph.order == old(graph.order) && graph.edges == old(graph.edges) && graph.nextNodeId == old(graph.nextNodeId)
      ensures old(uncolored) == [] ==>
                r.Ok? && !isRunning && !ticking && graph.nodes == old(graph.nodes) &&
                uncolored == [] && colored == old(colored) && step == old(step)
      ensures r.Raised? ==>
                r.fault == KeyError && (exists j :: 0 <= j < |uncolored| && uncolored[j] !in graph.nodes) &&
                graph.nodes == old(graph.nodes) && uncolored == old(uncolored) && colored == old(colored) && step == old(step)
      ensures old(uncolored) != [] && r.Ok? ==>
                Selected(old(graph.nodes), old(uncolored), k) &&
                (var id := old(uncolored)[k];
                 var c := ChosenColor(old(graph.nodes), id);
                 currentNode == Some(id) && uncolored == PyRemove(old(uncolored), id) &&
                 colored == old(colored) + [id] && step == old(step) + 1 &&
                 colorsUsed == old(colorsUsed) + (if c != NoColor then {c} else {}) &&
                 graph.nodes == AfterColoring(old(graph.nodes), id, old(uncolored)) &&
                 isRunning == old(isRunning) && ticking == old(ticking))
      ensures old(Coloring()) ==> Coloring()
    {
      ghost var wasColoring := Coloring();
      ghost var nodes0, us0, colored0, used0, step0 := graph.nodes, uncolored, colored, colorsUsed, step;
      if uncolored == [] {
        ticking := false;
        isRunning := false;
        return Ok(()), 0;
      }
      var pick;
      pick, k := SelectNode(graph.nodes, uncolored);
      if pick.Raised? {
        return Raised(pick.fault), k;
      }
      var id := pick.value;
      var c := ColorNodeDsatur(id);
      Record(id, c);
      if wasColoring {
        StepKeeps(nodes0, graph.order, graph.edges, graph.nextNodeId, us0, colored0, used0, step0, k);
      }
      return Ok(()), k;
    }

    /** The bookkeeping that ends `dsatur_step`. */
    method Record(id: int, c: int)
      requires id in uncolored
      modifies this
      ensures currentNode == Some(id) && uncolored == PyRemove(old(uncolored), id)
      ensures colored == old(colored) + [id] && step == old(step) + 1
      ensures colorsUsed == old(colorsUsed) + (if c != NoColor then {c} else {})
      ensures isRunning == old(isRunning) && ticking == old(ticking)
    {
      currentNode := Some(id);
      uncolored := PyRemove(uncolored, id);
      colored := colored + [id];
      if c != NoColor {
        colorsUsed := colorsUsed + {c};
      }
      step := step + 1;
    }

    /**
     * `dsatur_single_step`: nothing on an empty graph; a run that has not
     * started is initialized first; then one step.
     */
    method DsaturSingleStep() returns (r: Outcome<()>)
      requires graph.Valid()
      modifies this, graph
      ensures graph.Valid()
      ensures old(graph.nodes) == map[] ==>
                r.Ok? && graph.nodes == old(graph.nodes) && uncolored == old(uncolored) && colored == old(colored) && step == old(step)
      ensures old(graph.nodes) != map[] && old(uncolored) == [] && old(step) == 0 ==> r.Ok? && Coloring()
      ensures old(Coloring()) ==> Coloring()
    {
      if graph.nodes == map[] {
        return Ok(());
      }
      if uncolored == [] && step == 0 {
        InitializeDsatur();
      }
      ghost var k;
      r, k := DsaturStep();
    }

    /** `start_dsatur`: on a graph with nodes, a run not in progress is initialized, then the run and the timer start. */
    method StartDsatur()
      requires graph.Valid()
      modifies this, graph
      ensures graph.Valid()
      ensures old(graph.nodes) == map[] ==>
                graph.nodes == old(graph.nodes) && isRunning == old(isRunning) && ticking == old(ticking)
      ensures old(graph.nodes) != map[] ==> isRunning && ticking
      ensures old(graph.nodes) != map[] && !old(isRunning) ==> Coloring() && uncolored == graph.order && step == 0
      ensures old(Coloring()) ==> Coloring()
    {
      if graph.nodes == map[] {
        return;
      }
      if !isRunning {
        InitializeDsatur();
      }
      isRunning := true;
      ticking := true;
    }

    /** `pause_dsatur`: a ticking run is paused; otherwise the run is started. */
    method PauseDsatur()
      requires graph.Valid()
      modifies this, graph
      ensures graph.Valid()
      ensures old(ticking) ==>
                !ticking && !isRunning && graph.nodes == old(graph.nodes) && uncolored == old(uncolored) && step == old(step)
      ensures !old(ticking) && old(graph.nodes) != map[] ==> isRunning && ticking
      ensures old(Coloring()) ==> Coloring()
    {
      if ticking {
        ticking := false;
        isRunning := false;
      } else {
        StartDsatur();
      }
    }

    /** `reset_all`: the timer stops, the colours are cleared and the run state is emptied. */
    method ResetAll()
      requires graph.Valid()
      modifies this, graph
      ensures graph.Valid()
      ensures graph.nodes == Blanked(old(graph.nodes)) && graph.edges == old(graph.edges) && graph.order == old(graph.order)
      ensures uncolored == [] && colored == [] && currentNode == None && step == 0
      ensures !isRunning && colorsUsed == {} && !ticking
    {
      ticking := false;
      graph.ResetColors();
      uncolored := [];
      colored := [];
      currentNode := None;
      step := 0;
      isRunning := false;
      colorsUsed := {};
    }
  }

  // ---- proof steps of the run ----

  lemma ResaturatedNone(nodes: map<int, Vertex>)
    ensures Resaturated(nodes, {}) == nodes
  {
  }

  /** One more `update_saturation` in the neighbour loop. */
  lemma ResaturatedStep(painted: map<int, Vertex>, done: set<int>, n: int)
    requires n in painted
    ensures var cur := Resaturated(painted, done);
            cur[n := cur[n].(saturation := |NeighborColors(cur, cur[n].neighbors)|)] == Resaturated(painted, done + {n})
  {
    ResaturatedKeeps(painted, done);
  }

  lemma Shrunk(nbrs: set<int>, todo: set<int>, n: int, u: set<int>)
    requires n in todo
    ensures (nbrs - (todo - {n})) * u == (nbrs - todo) * u + (if n in u && n in nbrs then {n} else {})
  {
  }

  /** The state `initialize_dsatur` leaves satisfies the run invariant. */
  lemma InitialColoring(nodes: map<int, Vertex>, ids: seq<int>, next: int)
    requires Registered(nodes, ids, next) && forall k :: k in nodes ==> nodes[k].color == NoColor && nodes[k].saturation == 0
    ensures ColoringOf(nodes, ids, [], {}, 0)
  {
    assert ids + [] == ids;
    forall i, j | 0 <= i < j < |ids| ensures ids[i] != ids[j] {
      assert ids[i] < ids[j];
    }
    forall u | u in nodes ensures |NeighborColors(nodes, nodes[u].neighbors)| == 0 {
      NoColorsAround(nodes, nodes[u].neighbors);
    }
  }
}
