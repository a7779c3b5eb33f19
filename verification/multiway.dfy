/**
 * The node shape shared by the two tree engines (`BTreeNode` in
 * TP2/b_arbre.py and `BStarNode` in b_arbre_star.py): a leaf flag, a key list
 * and a child list. Nodes are values here; an operation that rewires nodes in
 * place returns the rebuilt node instead, and the classic engine's `parent`
 * back-link is replaced by the recursion that descends from the root.
 *
 * The in-order key sequence `Flatten` is the abstract value of a subtree:
 * every local surgery of the engines is characterised by what it does to it.
 */
module Multiway {
  import opened Common

  datatype Node = Node(leaf: bool, keys: seq<int>, children: seq<Node>)

  /** The root both constructors create: `Node(leaf=True)` with no keys. */
  const EmptyLeaf := Node(true, [], [])

  /** Shape: a leaf has no child and an internal node has one more child than keys, at every level. */
  predicate WF(n: Node)
    decreases n
  {
    if n.leaf then n.children == []
    else |n.children| == |n.keys| + 1 && forall i :: 0 <= i < |n.children| ==> WF(n.children[i])
  }

  /** Height measured along the first child. */
  function Height(n: Node): nat
    decreases n
  {
    if n.children == [] then 0 else 1 + Height(n.children[0])
  }

  /** Well-formed, and all children of every node have one height: all leaves lie at one depth. */
  predicate Balanced(n: Node)
    decreases n
  {
    WF(n) &&
    forall i :: 0 <= i < |n.children| ==>
      Height(n.children[i]) == Height(n.children[0]) && Balanced(n.children[i])
  }

  /** Every node of the subtree holds at least one key. */
  predicate AllKeyed(n: Node)
    decreases n
  {
    |n.keys| >= 1 && forall i :: 0 <= i < |n.children| ==> AllKeyed(n.children[i])
  }

  /** A run of sibling subtrees, each balanced and all of height h. */
  predicate Level(cs: seq<Node>, h: nat) {
    forall j :: 0 <= j < |cs| ==> Balanced(cs[j]) && Height(cs[j]) == h
  }

  /** The children of a balanced internal node form one level. */
  lemma LevelOfChildren(n: Node)
    requires Balanced(n) && !n.leaf
    ensures Height(n) >= 1 && Level(n.children, Height(n) - 1)
  {
  }

  /** A node of the right shape over one level is balanced, one above it. */
  lemma BalancedOverLevel(n: Node, h: nat)
    requires !n.leaf && |n.children| == |n.keys| + 1 && Level(n.children, h)
    ensures Balanced(n) && Height(n) == h + 1
  {
  }

  lemma LevelConcat(a: seq<Node>, b: seq<Node>, h: nat)
    requires Level(a, h) && Level(b, h)
    ensures Level(a + b, h)
  {
    forall j | 0 <= j < |a + b| ensures Balanced((a + b)[j]) && Height((a + b)[j]) == h {
      if j < |a| {
        assert (a + b)[j] == a[j];
      } else {
        assert (a + b)[j] == b[j - |a|];
      }
    }
  }

  lemma LevelUpdate(cs: seq<Node>, t: nat, c: Node, h: nat)
    requires t < |cs| && Level(cs, h) && Balanced(c) && Height(c) == h
    ensures Level(cs[t := c], h)
  {
  }

  lemma LevelSlice(cs: seq<Node>, lo: nat, hi: nat, h: nat)
    requires lo <= hi <= |cs| && Level(cs, h)
    ensures Level(cs[lo..hi], h) && Level(cs[..hi], h) && Level(cs[lo..], h)
  {
    forall j | 0 <= j < hi - lo ensures Balanced(cs[lo..hi][j]) && Height(cs[lo..hi][j]) == h {
      assert cs[lo..hi][j] == cs[lo + j];
    }
    forall j | 0 <= j < |cs| - lo ensures Balanced(cs[lo..][j]) && Height(cs[lo..][j]) == h {
      assert cs[lo..][j] == cs[lo + j];
    }
  }

  /** The keys of a subtree in order: each child's keys, then the separator to its right. */
  function Flatten(n: Node): seq<int>
    decreases n, 1
  {
    if n.leaf || |n.children| != |n.keys| + 1 then n.keys else Weave(n.keys, Parts(n))
  }

  /** The in-order key sequence of each child. */
  function Parts(n: Node): (p: seq<seq<int>>)
    decreases n, 0
    ensures |p| == |n.children|
  {
    PartsFrom(n, 0)
  }

  function PartsFrom(n: Node, i: nat): (p: seq<seq<int>>)
    decreases n, 0, |n.children| - i
    ensures |p| == if i <= |n.children| then |n.children| - i else 0
  {
    if i >= |n.children| then [] else [Flatten(n.children[i])] + PartsFrom(n, i + 1)
  }

  lemma {:induction false} PartsFromAt(n: Node, i: nat, j: nat)
    requires i <= j < |n.children|
    ensures PartsFrom(n, i)[j - i] == Flatten(n.children[j])
    decreases j - i
  {
    if i < j {
      PartsFromAt(n, i + 1, j);
    }
  }

  /** Part j is the in-order sequence of child j. */
  lemma PartAt(n: Node, j: nat)
    requires j < |n.children|
    ensures Parts(n)[j] == Flatten(n.children[j])
  {
    PartsFromAt(n, 0, j);
  }

  lemma PartsAll(n: Node)
    ensures forall j :: 0 <= j < |n.children| ==> Parts(n)[j] == Flatten(n.children[j])
  {
    forall j | 0 <= j < |n.children| ensures Parts(n)[j] == Flatten(n.children[j]) {
      PartAt(n, j);
    }
  }

  /** The same child in two nodes gives the same part. */
  lemma PartSame(a: Node, b: Node, k: nat, k': nat)
    requires k < |a.children| && k' < |b.children| && a.children[k] == b.children[k']
    ensures Parts(a)[k] == Parts(b)[k']
  {
    PartAt(a, k);
    PartAt(b, k');
  }

  /** Equal runs of children have equal runs of parts. */
  lemma PartsAgree(a: Node, b: Node, i: nat, j: nat, len: nat)
    requires i + len <= |a.children| && j + len <= |b.children|
    requires a.children[i..i + len] == b.children[j..j + len]
    ensures Parts(a)[i..i + len] == Parts(b)[j..j + len]
  {
    var sa, sb := Parts(a)[i..i + len], Parts(b)[j..j + len];
    forall t | 0 <= t < len ensures sa[t] == sb[t] {
      assert a.children[i..i + len][t] == b.children[j..j + len][t];
      PartSame(a, b, i + t, j + t);
    }
  }

  lemma PartsPrefix(a: Node, b: Node, len: nat)
    requires len <= |b.children| && a.children == b.children[..len]
    ensures Parts(a) == Parts(b)[..len]
  {
    assert a.children[0..len] == a.children;
    PartsAgree(a, b, 0, 0, len);
    assert Parts(a) == Parts(a)[0..len];
  }

  lemma PartsSuffix(a: Node, b: Node, start: nat)
    requires start <= |b.children| && a.children == b.children[start..]
    ensures Parts(a) == Parts(b)[start..]
  {
    var len := |b.children| - start;
    assert a.children[0..len] == a.children;
    assert b.children[start..start + len] == b.children[start..];
    PartsAgree(a, b, 0, start, len);
    assert Parts(a) == Parts(a)[0..len];
    assert Parts(b)[start..] == Parts(b)[start..start + len];
  }

  /** Children that agree up to i have parts that agree up to i. */
  lemma PartsHead(a: Node, b: Node, i: nat)
    requires i <= |a.children| && i <= |b.children| && a.children[..i] == b.children[..i]
    ensures Parts(a)[..i] == Parts(b)[..i]
  {
    assert a.children[0..i] == a.children[..i] && b.children[0..i] == b.children[..i];
    PartsAgree(a, b, 0, 0, i);
    assert Parts(a)[0..i] == Parts(a)[..i] && Parts(b)[0..i] == Parts(b)[..i];
  }

  /** Children that agree from i on in a and from j on in b have parts that agree there. */
  lemma PartsTail(a: Node, b: Node, i: nat, j: nat)
    requires i <= |a.children| && j <= |b.children| && a.children[i..] == b.children[j..]
    ensures Parts(a)[i..] == Parts(b)[j..]
  {
    var len := |a.children| - i;
    assert a.children[i..i + len] == a.children[i..] && b.children[j..j + len] == b.children[j..];
    PartsAgree(a, b, i, j, len);
    assert Parts(a)[i..i + len] == Parts(a)[i..] && Parts(b)[j..j + len] == Parts(b)[j..];
  }

  /** The parts of a concatenation of child lists. */
  lemma PartsConcat(m: Node, c: Node, s: Node)
    requires m.children == c.children + s.children
    ensures Parts(m) == Parts(c) + Parts(s)
  {
    forall t | 0 <= t < |m.children| ensures Parts(m)[t] == (Parts(c) + Parts(s))[t] {
      if t >= |c.children| {
        PartSame(m, s, t, t - |c.children|);
      } else {
        PartSame(m, c, t, t);
      }
    }
  }

  /** parts[0] + [keys[0]] + parts[1] + ... + [keys[m-1]] + parts[m]. */
  function Weave(keys: seq<int>, parts: seq<seq<int>>): seq<int>
    requires |parts| == |keys| + 1
    decreases keys
  {
    if keys == [] then parts[0] else parts[0] + [keys[0]] + Weave(keys[1..], parts[1..])
  }

  /** What the weave holds before part i. */
  function Before(keys: seq<int>, parts: seq<seq<int>>, i: nat): seq<int>
    requires |parts| == |keys| + 1 && i < |parts|
  {
    Weave(keys[..i], parts[..i] + [[]])
  }

  /** What the weave holds after part i. */
  function After(keys: seq<int>, parts: seq<seq<int>>, i: nat): seq<int>
    requires |parts| == |keys| + 1 && i < |parts|
  {
    Weave(keys[i..], [[]] + parts[i + 1..])
  }

  lemma WeaveFirst(keys: seq<int>, x: seq<int>, rest: seq<seq<int>>)
    requires |rest| == |keys|
    ensures Weave(keys, [x] + rest) == x + Weave(keys, [[]] + rest)
  {
    if keys != [] {
      assert ([x] + rest)[1..] == rest == ([[]] + rest)[1..];
    }
  }

  lemma {:induction false} WeaveLast(keys: seq<int>, front: seq<seq<int>>, x: seq<int>)
    requires |front| == |keys|
    ensures Weave(keys, front + [x]) == Weave(keys, front + [[]]) + x
    decreases keys
  {
    if keys != [] {
      assert (front + [x])[1..] == front[1..] + [x];
      assert (front + [[]])[1..] == front[1..] + [[]];
      WeaveLast(keys[1..], front[1..], x);
    }
  }

  /** The weave of two weaves joined by one key. */
  lemma {:induction false} WeaveConcat(k1: seq<int>, m: int, k2: seq<int>, p1: seq<seq<int>>, p2: seq<seq<int>>)
    requires |p1| == |k1| + 1 && |p2| == |k2| + 1
    ensures Weave(k1 + [m] + k2, p1 + p2) == Weave(k1, p1) + [m] + Weave(k2, p2)
    decreases k1
  {
    if k1 == [] {
      assert k1 + [m] + k2 == [m] + k2;
      assert (p1 + p2)[0] == p1[0];
      assert (p1 + p2)[1..] == p2;
      assert ([m] + k2)[1..] == k2;
    } else {
      assert (k1 + [m] + k2)[0] == k1[0];
      assert (k1 + [m] + k2)[1..] == k1[1..] + [m] + k2;
      assert (p1 + p2)[0] == p1[0];
      assert (p1 + p2)[1..] == p1[1..] + p2;
      WeaveConcat(k1[1..], m, k2, p1[1..], p2);
    }
  }

  /** Any part splits the weave into what lies before it, itself and what lies after it. */
  lemma {:induction false} WeaveAround(keys: seq<int>, parts: seq<seq<int>>, i: nat)
    requires |parts| == |keys| + 1 && i < |parts|
    ensures Weave(keys, parts) == Before(keys, parts, i) + parts[i] + After(keys, parts, i)
    decreases i
  {
    if i == 0 {
      assert parts == [parts[0]] + parts[1..];
      WeaveFirst(keys, parts[0], parts[1..]);
      assert keys[0..] == keys;
      assert Before(keys, parts, 0) == Weave([], [[]]) == [];
    } else {
      var k', p' := keys[1..], parts[1..];
      WeaveAround(k', p', i - 1);
      assert keys[..i][0] == keys[0] && keys[..i][1..] == k'[..i - 1];
      assert (parts[..i] + [[]])[0] == parts[0];
      assert (parts[..i] + [[]])[1..] == p'[..i - 1] + [[]];
      assert Before(keys, parts, i) == parts[0] + [keys[0]] + Before(k', p', i - 1);
      assert k'[i - 1..] == keys[i..];
      assert p'[i..] == parts[i + 1..];
      assert p'[i - 1] == parts[i];
    }
  }

  /** Before depends only on the keys and parts in front of position i. */
  lemma BeforeCongruent(k1: seq<int>, p1: seq<seq<int>>, k2: seq<int>, p2: seq<seq<int>>, i: nat)
    requires |p1| == |k1| + 1 && i < |p1| && |p2| == |k2| + 1 && i < |p2|
    requires k1[..i] == k2[..i] && p1[..i] == p2[..i]
    ensures Before(k1, p1, i) == Before(k2, p2, i)
  {
  }

  /** After depends only on the keys and parts behind the position. */
  lemma AfterCongruent(k1: seq<int>, p1: seq<seq<int>>, i: nat, k2: seq<int>, p2: seq<seq<int>>, j: nat)
    requires |p1| == |k1| + 1 && i < |p1| && |p2| == |k2| + 1 && j < |p2|
    requires k1[i..] == k2[j..] && p1[i + 1..] == p2[j + 1..]
    ensures After(k1, p1, i) == After(k2, p2, j)
  {
  }

  /** The part after a separator key. */
  lemma AfterStep(keys: seq<int>, parts: seq<seq<int>>, i: nat)
    requires |parts| == |keys| + 1 && i < |keys|
    ensures After(keys, parts, i) == [keys[i]] + parts[i + 1] + After(keys, parts, i + 1)
  {
    var rest := keys[i..];
    assert rest[0] == keys[i] && rest[1..] == keys[i + 1..];
    assert ([[]] + parts[i + 1..])[0] == [];
    assert ([[]] + parts[i + 1..])[1..] == parts[i + 1..];
    assert parts[i + 1..] == [parts[i + 1]] + parts[i + 2..];
    WeaveFirst(keys[i + 1..], parts[i + 1], parts[i + 2..]);
  }

  /** The part before a separator key. */
  lemma BeforeStep(keys: seq<int>, parts: seq<seq<int>>, i: nat)
    requires |parts| == |keys| + 1 && i < |keys|
    ensures Before(keys, parts, i + 1) == Before(keys, parts, i) + parts[i] + [keys[i]]
  {
    assert keys[..i + 1] == keys[..i] + [keys[i]] + [];
    assert parts[..i + 1] == parts[..i] + [parts[i]];
    WeaveConcat(keys[..i], keys[i], [], parts[..i + 1], [[]]);
    WeaveLast(keys[..i], parts[..i], parts[i]);
  }

  /** Two neighbouring parts with the separator between them. */
  lemma WeavePair(keys: seq<int>, parts: seq<seq<int>>, i: nat)
    requires |parts| == |keys| + 1 && i < |keys|
    ensures Weave(keys, parts)
         == Before(keys, parts, i) + parts[i] + [keys[i]] + parts[i + 1] + After(keys, parts, i + 1)
  {
    WeaveAround(keys, parts, i);
    AfterStep(keys, parts, i);
  }

  // ---- sortedness of concatenations ----

  lemma SortedSplit(a: seq<int>, b: seq<int>)
    requires Sorted(a + b)
    ensures Sorted(a) && Sorted(b)
    ensures forall x, y :: x in a && y in b ==> x <= y
  {
    forall x, y | x in a && y in b ensures x <= y {
      var i :| 0 <= i < |a| && a[i] == x;
      var j :| 0 <= j < |b| && b[j] == y;
      assert (a + b)[i] == x && (a + b)[|a| + j] == y;
    }
    forall i, j | 0 <= i < j < |b| ensures b[i] <= b[j] {
      assert (a + b)[|a| + i] == b[i] && (a + b)[|a| + j] == b[j];
    }
    forall i, j | 0 <= i < j < |a| ensures a[i] <= a[j] {
      assert (a + b)[i] == a[i] && (a + b)[j] == a[j];
    }
  }

  lemma StrictlySortedSplit(a: seq<int>, b: seq<int>)
    requires StrictlySorted(a + b)
    ensures StrictlySorted(a) && StrictlySorted(b)
    ensures forall x, y :: x in a && y in b ==> x < y
  {
    forall x, y | x in a && y in b ensures x < y {
      var i :| 0 <= i < |a| && a[i] == x;
      var j :| 0 <= j < |b| && b[j] == y;
      assert (a + b)[i] == x && (a + b)[|a| + j] == y;
    }
    forall i, j | 0 <= i < j < |b| ensures b[i] < b[j] {
      assert (a + b)[|a| + i] == b[i] && (a + b)[|a| + j] == b[j];
    }
    forall i, j | 0 <= i < j < |a| ensures a[i] < a[j] {
      assert (a + b)[i] == a[i] && (a + b)[j] == a[j];
    }
  }

  lemma SortedJoin(a: seq<int>, b: seq<int>)
    requires Sorted(a) && Sorted(b)
    requires forall x, y :: x in a && y in b ==> x <= y
    ensures Sorted(a + b)
  {
    var s := a + b;
    forall i, j | 0 <= i < j < |s| ensures s[i] <= s[j] {
      if j < |a| {
        assert s[i] == a[i] && s[j] == a[j];
      } else if i >= |a| {
        assert s[i] == b[i - |a|] && s[j] == b[j - |a|];
      } else {
        assert s[i] == a[i] && s[j] == b[j - |a|];
        assert a[i] in a && b[j - |a|] in b;
      }
    }
  }

  lemma StrictlySortedJoin(a: seq<int>, b: seq<int>)
    requires StrictlySorted(a) && StrictlySorted(b)
    requires forall x, y :: x in a && y in b ==> x < y
    ensures StrictlySorted(a + b)
  {
    var s := a + b;
    forall i, j | 0 <= i < j < |s| ensures s[i] < s[j] {
      if j < |a| {
        assert s[i] == a[i] && s[j] == a[j];
      } else if i >= |a| {
        assert s[i] == b[i - |a|] && s[j] == b[j - |a|];
      } else {
        assert s[i] == a[i] && s[j] == b[j - |a|];
        assert a[i] in a && b[j - |a|] in b;
      }
    }
  }

  // ---- descending into a child ----

  /** In a sorted sequence b + [m] + c + a, m bounds b from above and c from below. */
  lemma SortedPivotLeft(b: seq<int>, m: int, c: seq<int>, a: seq<int>)
    requires Sorted(b + [m] + c + a)
    ensures forall x :: x in b + [m] ==> x <= m
    ensures forall x :: x in c ==> m <= x
  {
    var s := b + [m] + c + a;
    assert s[|b|] == m;
    forall x | x in b + [m] ensures x <= m {
      var i :| 0 <= i < |b| + 1 && (b + [m])[i] == x;
      assert s[i] == x;
    }
    forall x | x in c ensures m <= x {
      var i :| 0 <= i < |c| && c[i] == x;
      assert s[|b| + 1 + i] == x;
    }
  }

  /** In a sorted sequence b + ([m] + c1 + c2), m bounds b from above and c1, c2 from below. */
  lemma SortedPivotRight(b: seq<int>, m: int, c1: seq<int>, c2: seq<int>)
    requires Sorted(b + ([m] + c1 + c2))
    ensures forall x :: x in b ==> x <= m
    ensures forall x :: x in c1 ==> m <= x
    ensures forall x :: x in c2 ==> m <= x
  {
    var s := b + ([m] + c1 + c2);
    assert s[|b|] == m;
    forall x | x in b ensures x <= m {
      var i :| 0 <= i < |b| && b[i] == x;
      assert s[i] == x;
    }
    forall x | x in c1 ensures m <= x {
      var i :| 0 <= i < |c1| && c1[i] == x;
      assert s[|b| + 1 + i] == x;
    }
    forall x | x in c2 ensures m <= x {
      var i :| 0 <= i < |c2| && c2[i] == x;
      assert s[|b| + 1 + |c1| + i] == x;
    }
  }

  /** The weave around the separator keys[j-1] that precedes part j. */
  lemma WeaveAtLeftSeparator(keys: seq<int>, parts: seq<seq<int>>, j: nat)
    requires |parts| == |keys| + 1 && 0 < j < |parts|
    ensures Before(keys, parts, j) == (Before(keys, parts, j - 1) + parts[j - 1]) + [keys[j - 1]]
    ensures Weave(keys, parts)
         == (Before(keys, parts, j - 1) + parts[j - 1]) + [keys[j - 1]] + parts[j] + After(keys, parts, j)
  {
    BeforeStep(keys, parts, j - 1);
    WeaveAround(keys, parts, j);
  }

  /** The weave around the separator keys[j] that follows part j. */
  lemma WeaveAtRightSeparator(keys: seq<int>, parts: seq<seq<int>>, j: nat)
    requires |parts| == |keys| + 1 && j < |keys|
    ensures After(keys, parts, j) == [keys[j]] + parts[j + 1] + After(keys, parts, j + 1)
    ensures Weave(keys, parts)
         == (Before(keys, parts, j) + parts[j]) + ([keys[j]] + parts[j + 1] + After(keys, parts, j + 1))
  {
    AfterStep(keys, parts, j);
    WeaveAround(keys, parts, j);
  }

  /** In a sorted weave, everything before part j is at most the separator keys[j-1], and part j at least it. */
  lemma WeaveLowerBound(keys: seq<int>, parts: seq<seq<int>>, j: nat)
    requires |parts| == |keys| + 1 && 0 < j < |parts|
    requires Sorted(Weave(keys, parts))
    ensures forall x :: x in Before(keys, parts, j) ==> x <= keys[j - 1]
    ensures forall x :: x in parts[j] ==> keys[j - 1] <= x
  {
    WeaveAtLeftSeparator(keys, parts, j);
    SortedPivotLeft(Before(keys, parts, j - 1) + parts[j - 1], keys[j - 1], parts[j], After(keys, parts, j));
  }

  /** In a sorted weave, part j is at most the separator keys[j], and everything after it at least it. */
  lemma WeaveUpperBound(keys: seq<int>, parts: seq<seq<int>>, j: nat)
    requires |parts| == |keys| + 1 && j < |keys|
    requires Sorted(Weave(keys, parts))
    ensures forall x :: x in After(keys, parts, j) ==> keys[j] <= x
    ensures forall x :: x in parts[j] ==> x <= keys[j]
  {
    WeaveAtRightSeparator(keys, parts, j);
    SortedPivotRight(Before(keys, parts, j) + parts[j], keys[j], parts[j + 1], After(keys, parts, j + 1));
    forall x | x in parts[j] ensures x <= keys[j] {
      assert x in Before(keys, parts, j) + parts[j];
    }
  }

  /**
   * Replacing child i of p by two children whose in-order sequences, joined
   * by a new separator, give child i's sequence keeps the in-order sequence
   * of the node: the common core of splitting a child and merging two.
   */
  lemma SpreadChild(p: Node, r: Node, i: nat)
    requires WF(p) && WF(r) && !p.leaf && !r.leaf && i < |p.children|
    requires |r.children| == |p.children| + 1
    requires r.keys[..i] == p.keys[..i] && r.keys[i + 1..] == p.keys[i..]
    requires r.children[..i] == p.children[..i] && r.children[i + 2..] == p.children[i + 1..]
    requires Flatten(p.children[i]) == Flatten(r.children[i]) + [r.keys[i]] + Flatten(r.children[i + 1])
    ensures Flatten(r) == Flatten(p)
  {
    var K, P, K', P' := p.keys, Parts(p), r.keys, Parts(r);
    var B, A := Before(K, P, i), After(K, P, i);
    var fl, m, fr := Flatten(r.children[i]), K'[i], Flatten(r.children[i + 1]);
    assert B == Before(K', P', i) by {
      PartsHead(r, p, i);
      BeforeCongruent(K', P', K, P, i);
    }
    assert A == After(K', P', i + 1) by {
      PartsTail(r, p, i + 2, i + 1);
      AfterCongruent(K', P', i + 1, K, P, i);
    }
    assert Flatten(r) == B + fl + [m] + fr + A by {
      PartAt(r, i);
      PartAt(r, i + 1);
      WeavePair(K', P', i);
    }
    assert Flatten(p) == B + (fl + [m] + fr) + A by {
      PartAt(p, i);
      WeaveAround(K, P, i);
    }
  }

  /** A node without its last key and last child, followed by them. */
  lemma DropLastFlatten(d: Node, d': Node)
    requires WF(d) && !d.leaf && |d.keys| >= 1
    requires d' == Node(d.leaf, d.keys[..|d.keys| - 1], d.children[..|d.keys|])
    ensures WF(d')
    ensures Flatten(d) == Flatten(d') + [d.keys[|d.keys| - 1]] + Flatten(d.children[|d.keys|])
  {
    var n := |d.keys|;
    var K, P := d.keys, Parts(d);
    PartsPrefix(d', d, n);
    PartAt(d, n);
    assert K == K[..n - 1] + [K[n - 1]] + [];
    assert P == P[..n] + [P[n]];
    WeaveConcat(K[..n - 1], K[n - 1], [], P[..n], [P[n]]);
  }

  /** A node without its first key and first child, preceded by them. */
  lemma DropFirstFlatten(d: Node, d': Node)
    requires WF(d) && !d.leaf && |d.keys| >= 1
    requires d' == Node(d.leaf, d.keys[1..], d.children[1..])
    ensures WF(d')
    ensures Flatten(d) == Flatten(d.children[0]) + [d.keys[0]] + Flatten(d')
  {
    var K, P := d.keys, Parts(d);
    PartsSuffix(d', d, 1);
    PartAt(d, 0);
    assert K == [] + [K[0]] + K[1..];
    assert P == [P[0]] + P[1..];
    WeaveConcat([], K[0], K[1..], [P[0]], P[1..]);
  }

  /** A node given a new first key and first child. */
  lemma PushFrontFlatten(c: Node, moved: Node, sep: int, c': Node)
    requires WF(c) && !c.leaf && WF(moved)
    requires c' == Node(c.leaf, [sep] + c.keys, [moved] + c.children)
    ensures WF(c')
    ensures Flatten(c') == Flatten(moved) + [sep] + Flatten(c)
  {
    var one := Node(false, [], [moved]);
    PartAt(one, 0);
    assert Parts(one) == [Flatten(moved)];
    PartsConcat(c', one, c);
    assert [sep] + c.keys == [] + [sep] + c.keys;
    WeaveConcat([], sep, c.keys, Parts(one), Parts(c));
  }

  /** A node given a new last key and last child. */
  lemma PushBackFlatten(c: Node, moved: Node, sep: int, c': Node)
    requires WF(c) && !c.leaf && WF(moved)
    requires c' == Node(c.leaf, c.keys + [sep], c.children + [moved])
    ensures WF(c')
    ensures Flatten(c') == Flatten(c) + [sep] + Flatten(moved)
  {
    var one := Node(false, [], [moved]);
    PartAt(one, 0);
    assert Parts(one) == [Flatten(moved)];
    PartsConcat(c', c, one);
    assert c.keys + [sep] == c.keys + [sep] + [];
    WeaveConcat(c.keys, sep, [], Parts(c), Parts(one));
  }

  /**
   * Replacing children j and j+1 and the separator between them by others
   * with the same local in-order sequence keeps the in-order sequence of the
   * node: the common core of the rotations through a separator.
   */
  lemma ReplacePair(p: Node, r: Node, j: nat)
    requires WF(p) && WF(r) && !p.leaf && !r.leaf && j + 1 < |p.children| && |r.children| == |p.children|
    requires r.keys[..j] == p.keys[..j] && r.keys[j + 1..] == p.keys[j + 1..]
    requires r.children[..j] == p.children[..j] && r.children[j + 2..] == p.children[j + 2..]
    requires Flatten(r.children[j]) + [r.keys[j]] + Flatten(r.children[j + 1])
          == Flatten(p.children[j]) + [p.keys[j]] + Flatten(p.children[j + 1])
    ensures Flatten(r) == Flatten(p)
  {
    var K, P, K', P' := p.keys, Parts(p), r.keys, Parts(r);
    assert Before(K, P, j) == Before(K', P', j) by {
      PartsHead(r, p, j);
      BeforeCongruent(K', P', K, P, j);
    }
    assert After(K, P, j + 1) == After(K', P', j + 1) by {
      PartsTail(r, p, j + 2, j + 2);
      AfterCongruent(K', P', j + 1, K, P, j + 1);
    }
    FlattenAroundPair(r, j);
    FlattenAroundPair(p, j);
  }

  /** The in-order sequence of a parent around children j and j+1. */
  lemma FlattenAroundPair(p: Node, j: nat)
    requires WF(p) && !p.leaf && j < |p.keys|
    ensures Flatten(p) == Before(p.keys, Parts(p), j)
                          + (Flatten(p.children[j]) + [p.keys[j]] + Flatten(p.children[j + 1]))
                          + After(p.keys, Parts(p), j + 1)
  {
    PartAt(p, j);
    PartAt(p, j + 1);
    WeavePair(p.keys, Parts(p), j);
  }

  /** The in-order sequence of a parent around children j, j+1 and j+2. */
  lemma FlattenAroundTriple(r: Node, j: nat)
    requires WF(r) && !r.leaf && j + 1 < |r.keys|
    ensures Flatten(r) == Before(r.keys, Parts(r), j)
                          + (Flatten(r.children[j]) + [r.keys[j]] + Flatten(r.children[j + 1])
                             + [r.keys[j + 1]] + Flatten(r.children[j + 2]))
                          + After(r.keys, Parts(r), j + 2)
  {
    var K, P := r.keys, Parts(r);
    FlattenAroundPair(r, j);
    AfterStep(K, P, j + 1);
    PartAt(r, j + 2);
    var B, X, Y, Z := Before(K, P, j), Flatten(r.children[j]), Flatten(r.children[j + 1]), Flatten(r.children[j + 2]);
    var A1, A2 := After(K, P, j + 1), After(K, P, j + 2);
    assert A1 == [K[j + 1]] + Z + A2;
    SeqAssoc5(B, X + [K[j]] + Y, [K[j + 1]], Z, A2);
  }

  /** Regrouping a concatenation of five sequences. */
  lemma SeqAssoc5(b: seq<int>, x: seq<int>, k: seq<int>, z: seq<int>, a: seq<int>)
    ensures b + x + (k + z + a) == b + (x + k + z) + a
  {
  }

  /**
   * Replacing children j and j+1 and separator j by three children and two
   * separators that spell out the same keys keeps the in-order sequence of
   * the node: the core of a three-way split.
   */
  lemma ReplaceTriple(p: Node, r: Node, j: nat)
    requires WF(p) && WF(r) && !p.leaf && !r.leaf && j + 1 < |p.children| && |r.children| == |p.children| + 1
    requires r.keys[..j] == p.keys[..j] && r.keys[j + 2..] == p.keys[j + 1..]
    requires r.children[..j] == p.children[..j] && r.children[j + 3..] == p.children[j + 2..]
    requires Flatten(r.children[j]) + [r.keys[j]] + Flatten(r.children[j + 1]) + [r.keys[j + 1]] + Flatten(r.children[j + 2])
          == Flatten(p.children[j]) + [p.keys[j]] + Flatten(p.children[j + 1])
    ensures Flatten(r) == Flatten(p)
  {
    var K, P, K', P' := p.keys, Parts(p), r.keys, Parts(r);
    assert Before(K, P, j) == Before(K', P', j) by {
      PartsHead(r, p, j);
      BeforeCongruent(K', P', K, P, j);
    }
    assert After(K, P, j + 1) == After(K', P', j + 2) by {
      PartsTail(r, p, j + 3, j + 2);
      AfterCongruent(K', P', j + 2, K, P, j + 1);
    }
    FlattenAroundTriple(r, j);
    FlattenAroundPair(p, j);
  }

  /**
   * In a node whose in-order sequence is sorted, the keys of the subtree below
   * child j lie between the separators around it: everything before child j
   * is at most keys[j-1] and everything after it at least keys[j].
   */
  lemma PartBounds(n: Node, j: nat)
    requires WF(n) && !n.leaf && Sorted(Flatten(n)) && j < |n.children|
    ensures Flatten(n) == Before(n.keys, Parts(n), j) + Flatten(n.children[j]) + After(n.keys, Parts(n), j)
    ensures j > 0 ==> forall x :: x in Before(n.keys, Parts(n), j) ==> x <= n.keys[j - 1]
    ensures j > 0 ==> forall x :: x in Flatten(n.children[j]) ==> n.keys[j - 1] <= x
    ensures j < |n.keys| ==> forall x :: x in After(n.keys, Parts(n), j) ==> n.keys[j] <= x
    ensures j < |n.keys| ==> forall x :: x in Flatten(n.children[j]) ==> x <= n.keys[j]
  {
    PartAt(n, j);
    WeaveAround(n.keys, Parts(n), j);
    if j > 0 {
      WeaveLowerBound(n.keys, Parts(n), j);
    }
    if j < |n.keys| {
      WeaveUpperBound(n.keys, Parts(n), j);
    }
  }

  /**
   * Descending into child j is exact when the separators around it enclose k:
   * every key before the child is below k and every key after it is above k,
   * so k occurs in the node iff it occurs in that child.
   */
  lemma Descend(n: Node, k: int, j: nat)
    requires WF(n) && !n.leaf && Sorted(Flatten(n)) && j < |n.children|
    requires j > 0 ==> n.keys[j - 1] < k
    ensures forall x :: x in Before(n.keys, Parts(n), j) ==> x < k
    ensures j < |n.keys| && k < n.keys[j] ==> forall x :: x in After(n.keys, Parts(n), j) ==> k < x
    ensures j < |n.keys| && k < n.keys[j] ==> (k in Flatten(n) <==> k in Flatten(n.children[j]))
    ensures j == |n.keys| ==> (k in Flatten(n) <==> k in Flatten(n.children[j]))
  {
    PartBounds(n, j);
    if j == |n.keys| {
      assert After(n.keys, Parts(n), j) == Weave([], [[]]) == [];
    }
  }

  /** The in-order sequence of a node around its child j. */
  lemma FlattenAround(n: Node, j: nat)
    requires WF(n) && !n.leaf && j < |n.children|
    ensures Flatten(n) == Before(n.keys, Parts(n), j) + Flatten(n.children[j]) + After(n.keys, Parts(n), j)
  {
    PartAt(n, j);
    WeaveAround(n.keys, Parts(n), j);
  }

  /** The child sequences do not depend on the keys. */
  lemma PartsRekey(n: Node, keys: seq<int>)
    ensures Parts(n.(keys := keys)) == Parts(n)
  {
    PartsPrefix(n.(keys := keys), n, |n.children|);
  }

  /** Every key stored in a node belongs to its in-order sequence. */
  lemma KeysInFlatten(n: Node)
    requires WF(n)
    ensures forall x :: x in n.keys ==> x in Flatten(n)
  {
    if !n.leaf {
      forall x | x in n.keys ensures x in Flatten(n) {
        var i :| 0 <= i < |n.keys| && n.keys[i] == x;
        WeaveAround(n.keys, Parts(n), i);
        AfterStep(n.keys, Parts(n), i);
      }
    }
  }

  /** The in-order sequence of a subtree is the concatenation of its children's around its keys. */
  lemma FlattenMembers(n: Node, j: nat)
    requires WF(n) && !n.leaf && j < |n.children|
    ensures forall x :: x in Flatten(n.children[j]) ==> x in Flatten(n)
  {
    PartAt(n, j);
    WeaveAround(n.keys, Parts(n), j);
  }
}
