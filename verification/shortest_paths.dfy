/**
 * The Bellman-Ford pass of `johnson_step2` in TP4/johnson_app.py: a
 * distance table over the node ids, `float('inf')` written as None, relaxed
 * over a list of weighted arcs for at most n - 1 rounds, with an early exit
 * after a round that changes nothing and a final pass that reports a
 * negative cycle.  Walks and their weights say what the distances mean.
 */
module ShortestPaths {
  import opened Common

  /** An entry `(u, v, w)` of the arc list Bellman-Ford relaxes. */
  datatype WArc = WArc(from: int, to: int, weight: int)

  /** A distance table; None stands for `float('inf')`. */
  type Distances = map<int, Option<int>>

  /** Every arc joins two nodes of the table. */
  predicate Closed(dist: Distances, arcs: seq<WArc>) {
    forall i :: 0 <= i < |arcs| ==> arcs[i].from in dist && arcs[i].to in dist
  }

  /** `dist[u] != float('inf') and dist[u] + w < dist[v]` */
  predicate Improves(dist: Distances, a: WArc)
    requires a.from in dist && a.to in dist
  {
    dist[a.from].Some? && (dist[a.to].None? || dist[a.from].value + a.weight < dist[a.to].value)
  }

  /** No arc can be relaxed any more. */
  predicate Settled(dist: Distances, arcs: seq<WArc>)
    requires Closed(dist, arcs)
  {
    forall i :: 0 <= i < |arcs| ==> !Improves(dist, arcs[i])
  }

  /** x is no larger than y, where None is infinity. */
  predicate Le(x: Option<int>, y: Option<int>) {
    y.None? || (x.Some? && x.value <= y.value)
  }

  /** d is finite and at most x. */
  predicate Below(d: Option<int>, x: int) {
    d.Some? && d.value <= x
  }

  /** `d + w`, infinite when d is. */
  function Plus(d: Option<int>, w: int): Option<int> {
    if d.None? then None else Some(d.value + w)
  }

  // ---- walks ----

  /** The node a walk from s along the arc indices p stands on after its first i arcs. */
  function At(arcs: seq<WArc>, s: int, p: seq<int>, i: int): int
    requires 0 <= i <= |p|
  {
    if i == 0 then s else if 0 <= p[i - 1] < |arcs| then arcs[p[i - 1]].to else s
  }

  /** The i-th entry of p names an arc that leaves the node the walk stands on. */
  ghost predicate Linked(arcs: seq<WArc>, s: int, p: seq<int>, i: int)
    requires 0 <= i < |p|
  {
    0 <= p[i] < |arcs| && arcs[p[i]].from == At(arcs, s, p, i)
  }

  /** p lists the indices of arcs that, in order, lead from s to v. */
  ghost predicate Walk(arcs: seq<WArc>, s: int, v: int, p: seq<int>) {
    (forall i :: 0 <= i < |p| ==> Linked(arcs, s, p, i)) && At(arcs, s, p, |p|) == v
  }

  /** The total weight of the arcs of p. */
  ghost function Weight(arcs: seq<WArc>, p: seq<int>): int
    decreases |p|
  {
    if p == [] then 0
    else
      var j := p[|p| - 1];
      Weight(arcs, p[..|p| - 1]) + (if 0 <= j < |arcs| then arcs[j].weight else 0)
  }

  /** Some walk from s to v weighs d. */
  ghost predicate Reached(arcs: seq<WArc>, s: int, v: int, d: int) {
    exists p :: Walk(arcs, s, v, p) && Weight(arcs, p) == d
  }

  /** Every finite distance is the weight of a walk from s. */
  ghost predicate Sound(dist: Distances, arcs: seq<WArc>, s: int) {
    forall v :: v in dist && dist[v].Some? ==> Reached(arcs, s, v, dist[v].value)
  }

  /** Every walk from s of at most k arcs ends at a node whose distance is finite and at most the walk's weight. */
  ghost predicate Bounded(dist: Distances, arcs: seq<WArc>, s: int, k: int) {
    forall v, p :: Walk(arcs, s, v, p) && |p| <= k ==> v in dist && Below(dist[v], Weight(arcs, p))
  }

  /**
   * d is the least weight of a walk from s to v, and None exactly when no
   * walk reaches v.
   */
  ghost predicate LeastWalk(d: Option<int>, arcs: seq<WArc>, s: int, v: int) {
    if d.Some? then Reached(arcs, s, v, d.value) && forall p :: Walk(arcs, s, v, p) ==> d.value <= Weight(arcs, p)
    else forall p :: !Walk(arcs, s, v, p)
  }

  /** Some node reachable from s lies on a closed walk of negative weight. */
  ghost predicate NegativeCycle(arcs: seq<WArc>, s: int) {
    exists x, p, c :: Walk(arcs, s, x, p) && Walk(arcs, x, x, c) && Weight(arcs, c) < 0
  }

  /** A walk followed by one more arc out of its end. */
  lemma WalkStep(arcs: seq<WArc>, s: int, p: seq<int>, j: int)
    requires 0 <= j < |arcs| && Walk(arcs, s, arcs[j].from, p)
    ensures Walk(arcs, s, arcs[j].to, p + [j]) && Weight(arcs, p + [j]) == Weight(arcs, p) + arcs[j].weight
  {
    var q := p + [j];
    forall i | 0 <= i < |q| ensures Linked(arcs, s, q, i) {
      assert At(arcs, s, q, i) == At(arcs, s, p, i);
      if i < |p| {
        assert Linked(arcs, s, p, i);
      }
    }
    assert At(arcs, s, q, |q|) == arcs[j].to;
    assert q[..|p|] == p;
  }

  /** A walk without its last arc leads to that arc's start. */
  lemma WalkPrefix(arcs: seq<WArc>, s: int, v: int, p: seq<int>)
    requires Walk(arcs, s, v, p) && p != []
    ensures 0 <= p[|p| - 1] < |arcs| && arcs[p[|p| - 1]].to == v
    ensures Walk(arcs, s, arcs[p[|p| - 1]].from, p[..|p| - 1])
  {
    var n := |p| - 1;
    var q := p[..n];
    assert Linked(arcs, s, p, n);
    forall i | 0 <= i < |q| ensures Linked(arcs, s, q, i) {
      assert Linked(arcs, s, p, i);
      assert At(arcs, s, q, i) == At(arcs, s, p, i);
    }
    assert At(arcs, s, q, n) == At(arcs, s, p, n);
  }

  lemma ReachedStep(arcs: seq<WArc>, s: int, d: int, j: int)
    requires 0 <= j < |arcs| && Reached(arcs, s, arcs[j].from, d)
    ensures Reached(arcs, s, arcs[j].to, d + arcs[j].weight)
  {
    var p :| Walk(arcs, s, arcs[j].from, p) && Weight(arcs, p) == d;
    WalkStep(arcs, s, p, j);
  }

  /** The walk with no arc. */
  lemma Stay(arcs: seq<WArc>, s: int)
    ensures Walk(arcs, s, s, []) && Weight(arcs, []) == 0 && Reached(arcs, s, s, 0)
  {
    assert Walk(arcs, s, s, []) && Weight(arcs, []) == 0;
  }

  /** The weight of two walks joined is the sum of their weights. */
  lemma {:induction false} WeightJoin(arcs: seq<WArc>, p: seq<int>, q: seq<int>)
    ensures Weight(arcs, p + q) == Weight(arcs, p) + Weight(arcs, q)
    decreases |q|
  {
    if q == [] {
      assert p + q == p;
    } else {
      var r := q[..|q| - 1];
      WeightJoin(arcs, p, r);
      assert (p + q)[..|p + q| - 1] == p + r;
    }
  }

  /** A walk from s to x followed by a walk from x to v. */
  lemma WalkJoin(arcs: seq<WArc>, s: int, x: int, v: int, p: seq<int>, q: seq<int>)
    requires Walk(arcs, s, x, p) && Walk(arcs, x, v, q)
    ensures Walk(arcs, s, v, p + q) && Weight(arcs, p + q) == Weight(arcs, p) + Weight(arcs, q)
  {
    JoinFront(arcs, s, x, p, q);
    JoinBack(arcs, s, x, v, p, q);
    forall i | 0 <= i < |p + q| ensures Linked(arcs, s, p + q, i) {
    }
    WeightJoin(arcs, p, q);
  }

  /** The first part of a joined walk is linked and leads to x. */
  lemma JoinFront(arcs: seq<WArc>, s: int, x: int, p: seq<int>, q: seq<int>)
    requires Walk(arcs, s, x, p)
    ensures forall i :: 0 <= i < |p| ==> Linked(arcs, s, p + q, i)
    ensures At(arcs, s, p + q, |p|) == x
  {
    var r := p + q;
    forall i | 0 <= i < |p| ensures Linked(arcs, s, r, i) {
      assert Linked(arcs, s, p, i);
      assert r[i] == p[i];
      if i > 0 {
        assert r[i - 1] == p[i - 1];
      }
    }
    if p != [] {
      assert r[|p| - 1] == p[|p| - 1];
    }
  }

  /** The second part of a joined walk, once at x, is linked and leads to v. */
  lemma JoinBack(arcs: seq<WArc>, s: int, x: int, v: int, p: seq<int>, q: seq<int>)
    requires At(arcs, s, p + q, |p|) == x && Walk(arcs, x, v, q)
    ensures forall i :: |p| <= i < |p| + |q| ==> Linked(arcs, s, p + q, i)
    ensures At(arcs, s, p + q, |p| + |q|) == v
  {
    var r := p + q;
    forall i | |p| <= i < |r| ensures Linked(arcs, s, r, i) {
      var m := i - |p|;
      assert Linked(arcs, x, q, m);
      assert r[i] == q[m];
      if m > 0 {
        assert r[i - 1] == q[m - 1];
        assert Linked(arcs, x, q, m - 1);
      }
    }
    if q != [] {
      assert r[|r| - 1] == q[|q| - 1];
      assert Linked(arcs, x, q, |q| - 1);
    }
  }

  /** The stretch of a walk between its i-th and k-th arc is a walk between the nodes it stands on there. */
  lemma WalkPart(arcs: seq<WArc>, s: int, v: int, p: seq<int>, i: int, k: int)
    requires Walk(arcs, s, v, p) && 0 <= i <= k <= |p|
    ensures Walk(arcs, At(arcs, s, p, i), At(arcs, s, p, k), p[i..k])
  {
    var x := At(arcs, s, p, i);
    var q := p[i..k];
    forall m | 0 <= m < |q| ensures Linked(arcs, x, q, m) {
      assert Linked(arcs, s, p, i + m);
      assert q[m] == p[i + m];
      if m > 0 {
        assert q[m - 1] == p[i + m - 1];
        assert Linked(arcs, s, p, i + m - 1);
      }
    }
    if q != [] {
      assert q[|q| - 1] == p[k - 1];
      assert Linked(arcs, s, p, k - 1);
    }
  }

  // ---- what a settled table means ----

  /** In a settled table, the distance at the end of a walk is at most the distance at its start plus its weight. */
  lemma {:induction false} SettledBounds(dist: Distances, arcs: seq<WArc>, s: int, v: int, p: seq<int>)
    requires Closed(dist, arcs) && Settled(dist, arcs) && s in dist && dist[s].Some? && Walk(arcs, s, v, p)
    ensures v in dist && Below(dist[v], dist[s].value + Weight(arcs, p))
    decreases |p|
  {
    if p != [] {
      var j := p[|p| - 1];
      WalkPrefix(arcs, s, v, p);
      SettledBounds(dist, arcs, s, arcs[j].from, p[..|p| - 1]);
      assert !Improves(dist, arcs[j]);
    }
  }

  /** A settled table with a non-positive distance at s bounds every walk from s. */
  lemma SettledBounded(dist: Distances, arcs: seq<WArc>, s: int, k: int)
    requires Closed(dist, arcs) && Settled(dist, arcs) && s in dist && Below(dist[s], 0)
    ensures Bounded(dist, arcs, s, k)
  {
    forall v, p | Walk(arcs, s, v, p) && |p| <= k ensures v in dist && Below(dist[v], Weight(arcs, p)) {
      SettledBounds(dist, arcs, s, v, p);
    }
  }

  /**
   * A settled, sound table is the table of shortest walks from s: s is at
   * 0, every finite distance is the weight of some walk and no walk weighs
   * less, and a node is at infinity exactly when no walk reaches it.
   */
  lemma Shortest(dist: Distances, arcs: seq<WArc>, s: int)
    requires Closed(dist, arcs) && s in dist && Settled(dist, arcs) && Sound(dist, arcs, s) && Below(dist[s], 0)
    ensures dist[s] == Some(0)
    ensures forall v, p :: Walk(arcs, s, v, p) ==> v in dist && Below(dist[v], Weight(arcs, p))
    ensures forall v :: v in dist && dist[v].Some? ==> Reached(arcs, s, v, dist[v].value)
    ensures forall v :: v in dist && dist[v].None? ==> forall p :: !Walk(arcs, s, v, p)
    ensures forall v :: v in dist ==> LeastWalk(dist[v], arcs, s, v)
  {
    var c := dist[s].value;
    assert Reached(arcs, s, s, c);
    var p0 :| Walk(arcs, s, s, p0) && Weight(arcs, p0) == c;
    SettledBounds(dist, arcs, s, s, p0);
    forall v, p | Walk(arcs, s, v, p) ensures v in dist && Below(dist[v], Weight(arcs, p)) {
      SettledBounds(dist, arcs, s, v, p);
    }
  }

  // ---- negative cycles ----

  /** Distinct elements drawn from a set are no more than the set has. */
  lemma {:induction false} DistinctWithin(xs: seq<int>, ids: set<int>)
    requires forall i, j :: 0 <= i < j < |xs| ==> xs[i] != xs[j]
    requires forall i :: 0 <= i < |xs| ==> xs[i] in ids
    ensures |xs| <= |ids|
    decreases |xs|
  {
    if xs != [] {
      var x := xs[|xs| - 1];
      DistinctWithin(xs[..|xs| - 1], ids - {x});
    }
  }

  /** A walk of at least as many arcs as there are nodes stands on some node twice. */
  lemma Repeats(arcs: seq<WArc>, ids: set<int>, s: int, v: int, p: seq<int>) returns (i: int, k: int)
    requires s in ids && forall j :: 0 <= j < |arcs| ==> arcs[j].to in ids
    requires Walk(arcs, s, v, p) && |p| >= |ids|
    ensures 0 <= i < k <= |p| && At(arcs, s, p, i) == At(arcs, s, p, k)
  {
    var xs := seq(|p| + 1, m requires 0 <= m <= |p| => At(arcs, s, p, m));
    if forall a, b :: 0 <= a < b < |xs| ==> xs[a] != xs[b] {
      DistinctWithin(xs, ids);
      assert false;
    }
    i, k :| 0 <= i < k < |xs| && xs[i] == xs[k];
  }

  /** Without a reachable negative cycle, every walk from s can be cut to fewer arcs than there are nodes without growing heavier. */
  lemma {:induction false} Shorten(arcs: seq<WArc>, ids: set<int>, s: int, v: int, p: seq<int>) returns (q: seq<int>)
    requires s in ids && forall j :: 0 <= j < |arcs| ==> arcs[j].to in ids
    requires !NegativeCycle(arcs, s) && Walk(arcs, s, v, p)
    ensures Walk(arcs, s, v, q) && |q| < |ids| && Weight(arcs, q) <= Weight(arcs, p)
    decreases |p|
  {
    if |p| < |ids| {
      return p;
    }
    var i, k := Repeats(arcs, ids, s, v, p);
    LoopWeight(arcs, s, v, p, i, k);
    CutCycle(arcs, s, v, p, i, k);
    q := Shorten(arcs, ids, s, v, p[..i] + p[k..]);
  }

  /** A closed stretch i..k of a walk from s weighs at least zero when no negative cycle is reachable. */
  lemma LoopWeight(arcs: seq<WArc>, s: int, v: int, p: seq<int>, i: int, k: int)
    requires !NegativeCycle(arcs, s) && Walk(arcs, s, v, p)
    requires 0 <= i < k <= |p| && At(arcs, s, p, i) == At(arcs, s, p, k)
    ensures Weight(arcs, p[i..k]) >= 0
  {
    WalkPart(arcs, s, v, p, 0, i);
    WalkPart(arcs, s, v, p, i, k);
  }

  /** Cutting a closed stretch i..k of no negative weight out of a walk from s leaves a walk no heavier. */
  lemma CutCycle(arcs: seq<WArc>, s: int, v: int, p: seq<int>, i: int, k: int)
    requires Walk(arcs, s, v, p) && 0 <= i < k <= |p| && At(arcs, s, p, i) == At(arcs, s, p, k)
    requires Weight(arcs, p[i..k]) >= 0
    ensures Walk(arcs, s, v, p[..i] + p[k..]) && Weight(arcs, p[..i] + p[k..]) <= Weight(arcs, p)
  {
    var x := At(arcs, s, p, i);
    WalkPart(arcs, s, v, p, 0, i);
    WalkPart(arcs, s, v, p, k, |p|);
    assert p[0..i] == p[..i] && p[k..|p|] == p[k..];
    WalkJoin(arcs, s, x, v, p[..i], p[k..]);
    WeightJoin(arcs, p[..i], p[i..k]);
    WeightJoin(arcs, p[..i] + p[i..k], p[k..]);
    assert p == p[..i] + p[i..k] + p[k..];
  }

  /** A settled table rules out every reachable negative cycle. */
  lemma SettledNoCycle(dist: Distances, arcs: seq<WArc>, s: int)
    requires Closed(dist, arcs) && Settled(dist, arcs) && s in dist && dist[s].Some?
    ensures !NegativeCycle(arcs, s)
  {
    if NegativeCycle(arcs, s) {
      var x, p, c :| Walk(arcs, s, x, p) && Walk(arcs, x, x, c) && Weight(arcs, c) < 0;
      SettledBounds(dist, arcs, s, x, p);
      SettledBounds(dist, arcs, x, x, c);
      assert false;
    }
  }

  /**
   * The table Bellman-Ford ends with is settled exactly when no negative
   * cycle is reachable from s: a relaxable arc after `len(ids) - 1` rounds
   * is a negative cycle, and a negative cycle leaves an arc relaxable.
   */
  lemma SettledIffNoCycle(dist: Distances, arcs: seq<WArc>, ids: set<int>, s: int)
    requires dist.Keys == ids && Closed(dist, arcs) && s in ids
    requires Sound(dist, arcs, s) && Below(dist[s], 0) && Bounded(dist, arcs, s, |ids| - 1)
    ensures Settled(dist, arcs) <==> !NegativeCycle(arcs, s)
  {
    if Settled(dist, arcs) {
      SettledNoCycle(dist, arcs, s);
    } else if !NegativeCycle(arcs, s) {
      var j :| 0 <= j < |arcs| && Improves(dist, arcs[j]);
      var a := arcs[j];
      var p :| Walk(arcs, s, a.from, p) && Weight(arcs, p) == dist[a.from].value;
      WalkStep(arcs, s, p, j);
      var q := Shorten(arcs, ids, s, a.to, p + [j]);
      assert false;
    }
  }

  // ---- the algorithm ----

  /** `dist`: every node at infinity but s, at 0. */
  function Initial(ids: set<int>, s: int): (d: Distances)
    requires s in ids
    ensures d.Keys == ids && d[s] == Some(0)
    ensures forall v :: v in d && v != s ==> d[v] == None
  {
    map v | v in ids :: if v == s then Some(0) else None
  }

  /**
   * One round of the relaxation loop: every arc, in order, lowers the
   * distance of its end when it improves on it.  No distance rises, every
   * arc ends up within its start's distance at the round's beginning, and a
   * round that changes nothing found the table settled.
   */
  method Relax(dist: Distances, arcs: seq<WArc>, ghost s: int) returns (next: Distances, updated: bool)
    requires Closed(dist, arcs)
    ensures next.Keys == dist.Keys && Closed(next, arcs)
    ensures forall v :: v in dist ==> Le(next[v], dist[v])
    ensures forall i :: 0 <= i < |arcs| ==> Le(next[arcs[i].to], Plus(dist[arcs[i].from], arcs[i].weight))
    ensures !updated ==> next == dist && Settled(dist, arcs)
    ensures Sound(dist, arcs, s) ==> Sound(next, arcs, s)
  {
    next := dist;
    updated := false;
    var i := 0;
    while i < |arcs|
      invariant 0 <= i <= |arcs|
      invariant next.Keys == dist.Keys
      invariant forall v :: v in dist ==> Le(next[v], dist[v])
      invariant forall j :: 0 <= j < i ==> Le(next[arcs[j].to], Plus(dist[arcs[j].from], arcs[j].weight))
      invariant !updated ==> next == dist && forall j :: 0 <= j < i ==> !Improves(dist, arcs[j])
      invariant Sound(dist, arcs, s) ==> Sound(next, arcs, s)
    {
      var a := arcs[i];
      if next[a.from].Some? && (next[a.to].None? || next[a.from].value + a.weight < next[a.to].value) {
        ghost var before := next;
        next := next[a.to := Some(next[a.from].value + a.weight)];
        updated := true;
        RelaxKeeps(dist, before, next, arcs, s, i);
      }
      i := i + 1;
    }
  }

  /** One lowered distance keeps the round's invariant. */
  lemma RelaxKeeps(dist: Distances, before: Distances, next: Distances, arcs: seq<WArc>, s: int, i: int)
    requires Closed(dist, arcs) && before.Keys == dist.Keys && 0 <= i < |arcs|
    requires before[arcs[i].from].Some? && next == before[arcs[i].to := Some(before[arcs[i].from].value + arcs[i].weight)]
    requires Improves(before, arcs[i])
    requires forall v :: v in dist ==> Le(before[v], dist[v])
    requires forall j :: 0 <= j < i ==> Le(before[arcs[j].to], Plus(dist[arcs[j].from], arcs[j].weight))
    requires Sound(dist, arcs, s) ==> Sound(before, arcs, s)
    ensures next.Keys == dist.Keys
    ensures forall v :: v in dist ==> Le(next[v], dist[v])
    ensures forall j :: 0 <= j <= i ==> Le(next[arcs[j].to], Plus(dist[arcs[j].from], arcs[j].weight))
    ensures Sound(dist, arcs, s) ==> Sound(next, arcs, s)
  {
    var a := arcs[i];
    if Sound(dist, arcs, s) {
      ReachedStep(arcs, s, before[a.from].value, i);
    }
  }

  /** A round after k rounds bounds every walk of k + 1 arcs. */
  lemma RoundBound(start: Distances, next: Distances, arcs: seq<WArc>, s: int, k: nat)
    requires Closed(start, arcs) && next.Keys == start.Keys && Bounded(start, arcs, s, k)
    requires forall v :: v in start ==> Le(next[v], start[v])
    requires forall i :: 0 <= i < |arcs| ==> Le(next[arcs[i].to], Plus(start[arcs[i].from], arcs[i].weight))
    ensures Bounded(next, arcs, s, k + 1)
  {
    forall v, p | Walk(arcs, s, v, p) && |p| <= k + 1 ensures v in next && Below(next[v], Weight(arcs, p)) {
      if |p| <= k {
        assert v in start && Below(start[v], Weight(arcs, p));
      } else {
        var j := p[|p| - 1];
        var q := p[..|p| - 1];
        WalkPrefix(arcs, s, v, p);
        assert Below(start[arcs[j].from], Weight(arcs, q));
      }
    }
  }

  /** The final pass of `johnson_step2`: whether some arc can still be relaxed. */
  method Relaxable(dist: Distances, arcs: seq<WArc>) returns (found: bool)
    requires Closed(dist, arcs)
    ensures found <==> !Settled(dist, arcs)
  {
    found := false;
    var i := 0;
    while i < |arcs|
      invariant 0 <= i <= |arcs|
      invariant forall j :: 0 <= j < i ==> !Improves(dist, arcs[j])
    {
      var a := arcs[i];
      if dist[a.from].Some? && (dist[a.to].None? || dist[a.from].value + a.weight < dist[a.to].value) {
        return true;
      }
      i := i + 1;
    }
  }

  /**
   * Bellman-Ford from s over the nodes ids: at most `len(ids) - 1` rounds,
   * stopping after a round with no update, then None when an arc can still
   * be relaxed.  The table it ends with (`last`) is sound, bounds every walk
   * of at most `len(ids) - 1` arcs, and is returned exactly when it is
   * settled.
   */
  method BellmanFord(ids: set<int>, s: int, arcs: seq<WArc>) returns (r: Option<Distances>, ghost last: Distances)
    requires s in ids && forall i :: 0 <= i < |arcs| ==> arcs[i].from in ids && arcs[i].to in ids
    ensures last.Keys == ids && Closed(last, arcs) && Sound(last, arcs, s) && Below(last[s], 0)
    ensures Bounded(last, arcs, s, |ids| - 1)
    ensures r.Some? <==> Settled(last, arcs)
    ensures r.Some? ==> r.value == last
    ensures r.None? <==> NegativeCycle(arcs, s)
  {
    var dist := Initial(ids, s);
    Stay(arcs, s);
    var n := |ids|;
    var i := 1;
    while i < n
      invariant 1 <= i <= n
      invariant dist.Keys == ids && Closed(dist, arcs) && Sound(dist, arcs, s)
      invariant Bounded(dist, arcs, s, i - 1)
    {
      var start := dist;
      var updated;
      dist, updated := Relax(dist, arcs, s);
      RoundBound(start, dist, arcs, s, i - 1);
      if !updated {
        assert Walk(arcs, s, s, []);
        SettledBounded(dist, arcs, s, n - 1);
        break;
      }
      i := i + 1;
    }
    assert Walk(arcs, s, s, []);
    last := dist;
    SettledIffNoCycle(dist, arcs, ids, s);
    var negative := Relaxable(dist, arcs);
    if negative {
      return None, last;
    }
    return Some(dist), last;
  }
}
