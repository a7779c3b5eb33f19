/**
 * What the B*-tree operations of b_arbre_star.py do to the in-order key
 * sequence and to the shape of the tree. The surgeries are characterised on
 * any well-formed parent; the insertion and deletion as a whole only on trees
 * of at most two levels whose children are leaves, because the three-way
 * split gives the nodes it creates no children (so on deeper trees it loses
 * subtrees, as b_arbre_star.py does).
 */
module BStarFacts {
  import opened Common
  import opened Multiway
  import opened Surgery
  import opened BStar

  // ---- sizes ----

  /** `is_full(m)` holds exactly when a node holds more than kmax keys. */
  lemma FullIffOverKmax(s: BSizes, n: Node)
    requires MakeBSizes(s.m) == Ok(s)
    ensures IsFull(n, s.m) <==> |n.keys| > s.kmax
  {
  }

  // ---- search ----

  /** A sequence whose neighbours are in order is in order. */
  lemma {:induction false} AdjacentChain(s: seq<int>, i: nat, j: nat)
    requires forall t :: 0 <= t < |s| - 1 ==> s[t] <= s[t + 1]
    requires i <= j < |s|
    ensures s[i] <= s[j]
    decreases j - i
  {
    if i < j {
      AdjacentChain(s, i + 1, j);
    }
  }

  /** The keys of a node whose in-order sequence is sorted are sorted. */
  lemma KeysSorted(n: Node)
    requires WF(n) && Sorted(Flatten(n))
    ensures Sorted(n.keys)
  {
    if !n.leaf {
      var K, P := n.keys, Parts(n);
      forall t | 0 <= t < |K| - 1 ensures K[t] <= K[t + 1] {
        WeavePair(K, P, t);
        AfterStep(K, P, t + 1);
        var X, Y, Z := Before(K, P, t) + P[t], P[t + 1], P[t + 2] + After(K, P, t + 2);
        assert Flatten(n) == X + [K[t]] + Y + [K[t + 1]] + Z;
        assert Flatten(n)[|X|] == K[t];
        assert Flatten(n)[|X| + 1 + |Y|] == K[t + 1];
      }
      forall i, j | 0 <= i < j < |K| ensures K[i] <= K[j] {
        AdjacentChain(K, i, j);
      }
    }
  }

  /**
   * On a well-formed tree whose keys are in order, `search` never raises and
   * finds the key exactly when the tree holds it.
   */
  lemma {:induction false} FindComplete(n: Node, key: int)
    requires WF(n) && Sorted(Flatten(n))
    ensures Find(n, key).Ok?
    ensures Find(n, key).value.Some? <==> key in Flatten(n)
    decreases n
  {
    KeysSorted(n);
    var i := LowerBound(n.keys, key);
    if i < |n.keys| && n.keys[i] == key {
      KeysInFlatten(n);
    } else if n.leaf {
      assert key !in n.keys by {
        forall t | 0 <= t < |n.keys| ensures n.keys[t] != key {
          if t >= i {
            assert n.keys[i] <= n.keys[t];
          }
        }
      }
    } else {
      ChildSorted(n, i);
      Descend(n, key, i);
      FindComplete(n.children[i], key);
    }
  }

  // ---- _redistribute ----

  /**
   * Redistributing between two children of the same kind keeps the parent
   * well formed, its in-order sequence, and its balance and height.
   */
  lemma RedistributeInOrder(p: Node, idx: nat, kmin: nat)
    requires WF(p) && !p.leaf && idx < |p.keys| && p.children[idx].leaf == p.children[idx + 1].leaf
    requires Redistribute(p, idx, kmin).Ok?
    ensures WF(Redistribute(p, idx, kmin).value)
    ensures Flatten(Redistribute(p, idx, kmin).value) == Flatten(p)
    ensures Balanced(p) ==> Balanced(Redistribute(p, idx, kmin).value)
                            && Height(Redistribute(p, idx, kmin).value) == Height(p)
  {
    var L, R := p.children[idx], p.children[idx + 1];
    assert WF(L) && WF(R);
    if TowardsLeft(p, idx, kmin) {
      var carry := R.children != [];
      assert Rotatable(p, idx, carry);
      RotateLeftInOrder(p, idx, carry);
      if Balanced(p) {
        RotateLeftBalanced(p, idx, carry);
      }
    } else {
      var carry := L.children != [];
      assert Rotatable(p, idx, carry);
      RotateRightInOrder(p, idx, carry);
      if Balanced(p) {
        RotateRightBalanced(p, idx, carry);
      }
    }
  }

  // ---- _three_way_split_strict ----

  /**
   * With a separator index inside the lists, the three-way split in plain
   * list terms: separator j becomes merged[n//3] and merged[2n//3], and
   * children j and j+1 become three childless nodes holding the runs
   * merged[:n//3], merged[n//3+1:2n//3] and merged[2n//3+1:].
   */
  lemma SplitThreePlain(p: Node, j: nat, merged: seq<int>, leftLeaf: bool, rightLeaf: bool)
    requires |merged| >= 3 && j < |p.keys| && j + 1 < |p.children|
    ensures var (a, b) := Thirds(|merged|);
            var q := SplitThree(p, j, merged, leftLeaf, rightLeaf);
            q.keys == p.keys[..j] + [merged[a], merged[b]] + p.keys[j + 1..] &&
            q.children[..j] == p.children[..j] && q.children[j + 3..] == p.children[j + 2..] &&
            q.children[j] == Node(leftLeaf, merged[..a], []) &&
            q.children[j + 1] == Node(leftLeaf, merged[a + 1..b], []) &&
            q.children[j + 2] == Node(rightLeaf, merged[b + 1..], [])
  {
    var (a, b) := Thirds(|merged|);
    var P, Q, R := Node(leftLeaf, merged[..a], []), Node(leftLeaf, merged[a + 1..b], []), Node(rightLeaf, merged[b + 1..], []);
    SetSetInsert(p.children, j, P, Q, R);
  }

  /** The list operations `s[j] = x; s[j + 1] = y; s.insert(j + 2, z)` inside the list. */
  lemma SetSetInsert<T>(s: seq<T>, j: nat, x: T, y: T, z: T)
    requires j + 1 < |s|
    ensures var q := PyInsert(PySet(PySet(s, j, x), j + 1, y), j + 2, z);
            q[..j] == s[..j] && q[j] == x && q[j + 1] == y && q[j + 2] == z && q[j + 3..] == s[j + 2..]
  {
    var c := PySet(PySet(s, j, x), j + 1, y);
    var q := PyInsert(c, j + 2, z);
    assert q == c[..j + 2] + [z] + c[j + 2..];
    forall k | 0 <= k < j ensures q[k] == s[k] {
      assert q[k] == c[k];
    }
    forall k | j + 3 <= k < |q| ensures q[k] == s[k - 1] {
      assert q[k] == c[k - 1];
    }
  }

  /**
   * The three nodes of a split of n keys have near-equal sizes a, b - a - 1
   * and n - b - 1: each is (n-2)//3 or one more.
   */
  lemma SplitThreeSizes(n: nat)
    requires n >= 3
    ensures var (a, b) := Thirds(n);
            (n - 2) / 3 <= a <= (n - 2) / 3 + 1 &&
            (n - 2) / 3 <= b - a - 1 <= (n - 2) / 3 + 1 &&
            (n - 2) / 3 <= n - b - 1 <= (n - 2) / 3 + 1
  {
    var q, r := n / 3, n % 3;
    assert n == 3 * q + r;
    if r == 0 {
      assert 2 * n / 3 == 2 * q;
      assert (n - 2) / 3 == q - 1;
    } else if r == 1 {
      assert 2 * n / 3 == 2 * q;
      assert (n - 2) / 3 == q - 1;
    } else {
      assert 2 * n / 3 == 2 * q + 1;
      assert (n - 2) / 3 == q;
    }
  }

  /** A node all of whose children are leaves. */
  predicate OverLeaves(n: Node) {
    WF(n) && !n.leaf && forall i :: 0 <= i < |n.children| ==> n.children[i].leaf
  }

  /** A node over leaves is balanced, of height one. */
  lemma OverLeavesBalanced(n: Node)
    requires OverLeaves(n)
    ensures Balanced(n) && Height(n) == 1
  {
    assert Level(n.children, 0) by {
      forall i | 0 <= i < |n.children| ensures Balanced(n.children[i]) && Height(n.children[i]) == 0 {
        assert WF(n.children[i]);
      }
    }
    BalancedOverLevel(n, 0);
  }

  /** Under a parent whose keys are in order, the sorted pool of two leaves is the pool as it stands. */
  lemma PoolOfLeaves(p: Node, j: nat)
    requires OverLeaves(p) && j < |p.keys| && Sorted(Flatten(p))
    ensures Merged(p.children[j], p.keys[j], p.children[j + 1], None)
         == p.children[j].keys + [p.keys[j]] + p.children[j + 1].keys
  {
    var L, R := p.children[j], p.children[j + 1];
    assert WF(L) && WF(R);
    var pool := L.keys + [p.keys[j]] + R.keys;
    assert Pool(L, p.keys[j], R, None) == pool;
    var B, A := Before(p.keys, Parts(p), j), After(p.keys, Parts(p), j + 1);
    FlattenAroundPair(p, j);
    SortedSplit(B + pool, A);
    SortedSplit(B, pool);
    SortSortedIdentity(pool);
  }

  /** Splitting two neighbouring leaves three ways leaves a node whose children are all leaves. */
  lemma SplitLeavesShape(p: Node, j: nat, merged: seq<int>)
    requires OverLeaves(p) && j < |p.keys| && |merged| >= 3
    ensures OverLeaves(SplitThree(p, j, merged, true, true))
  {
    var q := SplitThree(p, j, merged, true, true);
    SplitThreePlain(p, j, merged, true, true);
    forall i | 0 <= i < |q.children| ensures q.children[i].leaf && WF(q.children[i]) {
      if i < j {
        assert q.children[i] == q.children[..j][i] == p.children[i];
      } else if i >= j + 3 {
        assert q.children[i] == q.children[j + 3..][i - j - 3] == p.children[i - 1];
      }
    }
  }

  /** The three new leaves and the two separators spell out the pooled keys. */
  lemma SplitLeavesLocal(p: Node, j: nat, merged: seq<int>)
    requires OverLeaves(p) && j < |p.keys| && |merged| >= 3
    requires merged == p.children[j].keys + [p.keys[j]] + p.children[j + 1].keys
    ensures var q := SplitThree(p, j, merged, true, true);
      Flatten(q.children[j]) + [q.keys[j]] + Flatten(q.children[j + 1]) + [q.keys[j + 1]] + Flatten(q.children[j + 2])
        == Flatten(p.children[j]) + [p.keys[j]] + Flatten(p.children[j + 1])
  {
    var (a, b) := Thirds(|merged|);
    var q := SplitThree(p, j, merged, true, true);
    SplitThreePlain(p, j, merged, true, true);
    assert q.keys[j] == merged[a] && q.keys[j + 1] == merged[b] by {
      var pre := p.keys[..j];
      assert |pre| == j;
      assert q.keys == pre + [merged[a], merged[b]] + p.keys[j + 1..];
    }
    assert Flatten(q.children[j]) == merged[..a];
    assert Flatten(q.children[j + 1]) == merged[a + 1..b];
    assert Flatten(q.children[j + 2]) == merged[b + 1..];
    assert p.children[j].leaf && p.children[j + 1].leaf;
    assert Flatten(p.children[j]) + [p.keys[j]] + Flatten(p.children[j + 1]) == merged;
    CutTwice(merged, a, b);
  }

  /** Cutting a sequence at two positions and gluing the pieces back restores it. */
  lemma CutTwice(s: seq<int>, a: nat, b: nat)
    requires a < b < |s|
    ensures s[..a] + [s[a]] + s[a + 1..b] + [s[b]] + s[b + 1..] == s
  {
    assert s[..b] == s[..a] + [s[a]] + s[a + 1..b];
    assert s == s[..b] + [s[b]] + s[b + 1..];
  }

  /**
   * Splitting two neighbouring leaves three ways with their pool as it
   * stands keeps the in-order sequence, and the parent stays over leaves.
   */
  lemma SplitLeavesInOrder(p: Node, j: nat, merged: seq<int>)
    requires OverLeaves(p) && j < |p.keys| && |merged| >= 3
    requires merged == p.children[j].keys + [p.keys[j]] + p.children[j + 1].keys
    ensures OverLeaves(SplitThree(p, j, merged, true, true))
    ensures Flatten(SplitThree(p, j, merged, true, true)) == Flatten(p)
  {
    var q := SplitThree(p, j, merged, true, true);
    SplitLeavesShape(p, j, merged);
    SplitLeavesLocal(p, j, merged);
    SplitThreePlain(p, j, merged, true, true);
    ReplaceTriple(p, q, j);
  }

  /**
   * A three-way split of two neighbouring leaves under a parent whose keys
   * are in order never raises and keeps the in-order sequence: sorting the
   * pool changes nothing, and the runs and the two new separators spell it
   * out again. The parent stays a node over leaves unless it was the root and
   * ended with more than kmax keys, when the root grown above it adds one
   * level.
   */
  lemma ThreeWayLeaves(p: Node, j: nat, kmax: nat, isRoot: bool)
    requires OverLeaves(p) && j < |p.keys| && Sorted(Flatten(p))
    ensures ThreeWaySplit(p, j, None, kmax, isRoot).Ok?
    ensures ThreeWaySplit(p, j, None, kmax, isRoot).value.1.Kept? ==> OverLeaves(ThreeWaySplit(p, j, None, kmax, isRoot).value.0)
    ensures Flatten(Reroot(ThreeWaySplit(p, j, None, kmax, isRoot).value.0, ThreeWaySplit(p, j, None, kmax, isRoot).value.1))
         == Flatten(p)
    ensures Balanced(Reroot(ThreeWaySplit(p, j, None, kmax, isRoot).value.0, ThreeWaySplit(p, j, None, kmax, isRoot).value.1))
    ensures 1 <= Height(Reroot(ThreeWaySplit(p, j, None, kmax, isRoot).value.0, ThreeWaySplit(p, j, None, kmax, isRoot).value.1)) <= 2
    ensures ThreeWaySplit(p, j, None, kmax, isRoot).value.1.Kept? ==> |ThreeWaySplit(p, j, None, kmax, isRoot).value.0.keys| >= |p.keys|
    ensures |p.keys| < kmax ==> ThreeWaySplit(p, j, None, kmax, isRoot).value.1.Kept?
  {
    OverLeavesBalanced(p);
    PoolOfLeaves(p, j);
    var merged := Merged(p.children[j], p.keys[j], p.children[j + 1], None);
    var r := ThreeWaySplit(p, j, None, kmax, isRoot);
    ThreeWayAtLeaves(p, j, kmax, isRoot);
    if |merged| >= 3 {
      var q := SplitThree(p, j, merged, true, true);
      SplitLeavesInOrder(p, j, merged);
      OverLeavesBalanced(q);
      if |q.keys| > kmax && isRoot {
        assert r == Ok(Regrow(q));
        GrowProps(q);
      } else {
        assert r == Ok((q, Kept));
      }
    }
  }

  /** On a node over leaves and an index in range, the three-way split takes its plain form. */
  lemma ThreeWayAtLeaves(p: Node, j: nat, kmax: nat, isRoot: bool)
    requires OverLeaves(p) && j < |p.keys|
    ensures var merged := Merged(p.children[j], p.keys[j], p.children[j + 1], None);
      ThreeWaySplit(p, j, None, kmax, isRoot) ==
        if |merged| < 3 then Ok((p, Kept))
        else
          var q := SplitThree(p, j, merged, true, true);
          if |q.keys| > kmax && isRoot then Ok(Regrow(q)) else Ok((q, Kept))
  {
    assert p.children[j].leaf && p.children[j + 1].leaf;
  }

  // ---- the overflow of a leaf ----

  /**
   * A surgery on a node over leaves that did not raise and left, once its
   * root event is applied, a balanced tree of height one or two with the
   * in-order sequence F.
   */
  predicate Settled(o: Outcome<(Node, RootEvent)>, F: seq<int>) {
    o.Ok? && Flatten(Reroot(o.value.0, o.value.1)) == F && Balanced(Reroot(o.value.0, o.value.1))
    && 1 <= Height(Reroot(o.value.0, o.value.1)) <= 2
  }

  /** Redistributing between two leaves of a node over leaves keeps its in-order sequence and its shape. */
  lemma RedistributeLeaves(p: Node, idx: nat, kmin: nat)
    requires OverLeaves(p) && idx < |p.keys| && Redistribute(p, idx, kmin).Ok?
    ensures Settled(Unmoved(Redistribute(p, idx, kmin)), Flatten(p))
  {
    OverLeavesBalanced(p);
    RedistributeInOrder(p, idx, kmin);
  }

  /**
   * `_redistribute` raises only when its donor is empty: it never does when
   * the right child has keys, nor when the left one holds at least kmin.
   */
  lemma RedistributeOk(p: Node, idx: nat, kmin: nat)
    requires idx < |p.keys| && idx + 1 < |p.children|
    requires |p.children[idx + 1].keys| >= 1 || |p.children[idx].keys| >= kmin + 1
    ensures Redistribute(p, idx, kmin).Ok?
  {
  }

  /**
   * When a leaf under a node over leaves holds more than kmax keys, the
   * overflow handling of `_insert_nonfull` never raises: every
   * redistribution it picks has a donor with keys, and every three-way
   * split is between two leaves. The in-order sequence is kept and the tree
   * stays balanced, one level higher at most.
   */
  lemma LeafOverflowInOrder(p: Node, idx: nat, isRoot: bool, s: BSizes)
    requires MakeBSizes(s.m) == Ok(s)
    requires OverLeaves(p) && idx < |p.children| && |p.children[idx].keys| > s.kmax && Sorted(Flatten(p))
    ensures Settled(LeafOverflow(p, idx, isRoot, s), Flatten(p))
  {
    var hasLeft, hasRight := idx >= 1, idx + 1 < |p.children|;
    if (hasLeft && |p.children[idx - 1].keys| < s.kmax) || (hasRight && |p.children[idx + 1].keys| < s.kmax) {
      LeafOverflowShifts(p, idx, isRoot, s);
    } else {
      LeafOverflowSplits(p, idx, isRoot, s);
    }
  }

  /** The overflow handling when a sibling has room: one redistribution. */
  lemma LeafOverflowShifts(p: Node, idx: nat, isRoot: bool, s: BSizes)
    requires MakeBSizes(s.m) == Ok(s)
    requires OverLeaves(p) && idx < |p.children| && |p.children[idx].keys| > s.kmax
    requires (idx >= 1 && |p.children[idx - 1].keys| < s.kmax) || (idx + 1 < |p.children| && |p.children[idx + 1].keys| < s.kmax)
    ensures Settled(LeafOverflow(p, idx, isRoot, s), Flatten(p))
  {
    var at := OverflowRepair(p, idx, s).at;
    RedistributeOk(p, at, s.kmin);
    RedistributeLeaves(p, at, s.kmin);
  }

  /** A three-way split of two leaves of a node over leaves settles into a tree of height one or two. */
  lemma ThreeWaySettled(p: Node, j: nat, kmax: nat, isRoot: bool)
    requires OverLeaves(p) && j < |p.keys| && Sorted(Flatten(p))
    ensures Settled(ThreeWaySplit(p, j, None, kmax, isRoot), Flatten(p))
  {
    ThreeWayLeaves(p, j, kmax, isRoot);
  }

  /** The overflow handling when no sibling has room: a three-way split with one of them. */
  lemma LeafOverflowSplits(p: Node, idx: nat, isRoot: bool, s: BSizes)
    requires MakeBSizes(s.m) == Ok(s)
    requires OverLeaves(p) && idx < |p.children| && |p.children[idx].keys| > s.kmax && Sorted(Flatten(p))
    requires !((idx >= 1 && |p.children[idx - 1].keys| < s.kmax) || (idx + 1 < |p.children| && |p.children[idx + 1].keys| < s.kmax))
    ensures Settled(LeafOverflow(p, idx, isRoot, s), Flatten(p))
  {
    var r := OverflowRepair(p, idx, s);
    if r.SplitThreeWays? {
      ThreeWaySettled(p, r.j, s.kmax, isRoot);
    } else {
      assert r.Leave?;
      OverLeavesBalanced(p);
    }
  }

  // ---- insert ----

  /**
   * A tree of at most two levels as `insert` finds it between calls: a leaf
   * root, or a root with keys over leaves, no node holding more than kmax
   * keys.
   */
  predicate Shallow(n: Node, s: BSizes) {
    WF(n) && (n.leaf || (OverLeaves(n) && |n.keys| >= 1)) && |n.keys| <= s.kmax &&
    forall i :: 0 <= i < |n.children| ==> |n.children[i].keys| <= s.kmax
  }

  /**
   * `_insert_nonfull` on a leaf below the root puts the key before its
   * equals and reports an overflow exactly when the leaf then holds more
   * than kmax keys.
   */
  lemma InsertIntoLeaf(c: Node, key: int, s: BSizes, fuel: nat)
    requires WF(c) && c.leaf && Sorted(c.keys) && fuel >= 1
    ensures var c1 := c.(keys := InsertAt(c.keys, LowerBound(c.keys, key), key));
            InsertNonfull(c, key, false, s, fuel) == Ok(Inserted(c1, |c1.keys| > s.kmax, Kept))
  {
    InsortLowerBound(c.keys, key);
  }

  /** `insert` on a root with keys that is not full goes straight to `_insert_nonfull`. */
  lemma InsertTopDirect(root: Node, key: int, s: BSizes)
    requires MakeBSizes(s.m) == Ok(s) && 1 <= |root.keys| <= s.kmax
    requires InsertNonfull(root, key, true, s, RecursionLimit).Ok?
    ensures var c := InsertNonfull(root, key, true, s, RecursionLimit).value;
            InsertTop(root, key, s) == Ok(Reroot(c.node, c.event))
  {
  }

  /** `insert` into a leaf root that holds keys and is not full. */
  lemma InsertLeafRoot(root: Node, key: int, s: BSizes)
    requires MakeBSizes(s.m) == Ok(s)
    requires WF(root) && root.leaf && 1 <= |root.keys| <= s.kmax && Sorted(root.keys)
    ensures InsertTop(root, key, s).Ok?
    ensures Flatten(InsertTop(root, key, s).value) == InsertAt(root.keys, LowerBound(root.keys, key), key)
    ensures Balanced(InsertTop(root, key, s).value) && Height(InsertTop(root, key, s).value) <= 1
  {
    var n1 := root.(keys := Insort(root.keys, key));
    InsortLowerBound(root.keys, key);
    InsertTopDirect(root, key, s);
    if |n1.keys| > s.kmax {
      GrowProps(n1);
    }
  }

  /** Replacing a child of a node over leaves by a leaf keeps it a node over leaves. */
  lemma ReplaceLeaf(p: Node, i: nat, c: Node)
    requires OverLeaves(p) && i < |p.children| && c.leaf && c.children == []
    ensures OverLeaves(p.(children := p.children[i := c]))
  {
    var n1 := p.(children := p.children[i := c]);
    forall t | 0 <= t < |n1.children| ensures n1.children[t].leaf && WF(n1.children[t]) {
      assert WF(p.children[t]);
    }
  }

  /**
   * Putting the key into the leaf that `bisect_left` picks under a root
   * over leaves puts it before its equals in the in-order sequence.
   */
  lemma InsertBelowRoot(root: Node, key: int)
    requires OverLeaves(root) && Sorted(Flatten(root))
    ensures Sorted(root.keys)
    ensures var i := LowerBound(root.keys, key);
            var c := root.children[i];
            var n1 := root.(children := root.children[i := c.(keys := InsertAt(c.keys, LowerBound(c.keys, key), key))]);
            Sorted(c.keys) && OverLeaves(n1) && Sorted(Flatten(n1)) &&
            Flatten(n1) == InsertAt(Flatten(root), LowerBound(Flatten(root), key), key)
  {
    KeysSorted(root);
    var i := LowerBound(root.keys, key);
    var c := root.children[i];
    assert WF(c) && c.leaf;
    ChildSorted(root, i);
    var c1 := c.(keys := InsertAt(c.keys, LowerBound(c.keys, key), key));
    InsertPosition(root, key, i);
    InsertedChildFlatten(root, key, i, c1);
    InsertSorted(Flatten(root), key);
    ReplaceLeaf(root, i, c1);
  }

  /**
   * `_insert_nonfull` on a root over leaves none of which is full descends
   * at `bisect_left`, puts the key into that leaf, and hands an overflowing
   * leaf to the overflow handling.
   */
  lemma InsertNonfullOverLeaves(root: Node, key: int, s: BSizes)
    requires MakeBSizes(s.m) == Ok(s)
    requires Shallow(root, s) && !root.leaf && Sorted(root.keys)
    ensures var i := LowerBound(root.keys, key);
            var c := root.children[i];
            var n1 := root.(children := root.children[i := c.(keys := InsertAt(c.keys, LowerBound(c.keys, key), key))]);
            Sorted(c.keys) ==>
            InsertNonfull(root, key, true, s, RecursionLimit) ==
              if |c.keys| + 1 > s.kmax then
                match LeafOverflow(n1, i, true, s)
                case Raised(f) => Raised(f)
                case Ok((n2, e)) => Ok(Inserted(n2, false, e))
              else Ok(Inserted(n1, false, Kept))
  {
    var i := LowerBound(root.keys, key);
    var c := root.children[i];
    assert WF(c) && c.leaf;
    if Sorted(c.keys) {
      InsertIntoLeaf(c, key, s, RecursionLimit - 1);
    }
  }

  /** `insert` into a root with keys over leaves, none of them full. */
  lemma InsertOverLeaves(root: Node, key: int, s: BSizes)
    requires MakeBSizes(s.m) == Ok(s)
    requires Shallow(root, s) && !root.leaf && Sorted(Flatten(root))
    ensures InsertTop(root, key, s).Ok?
    ensures Flatten(InsertTop(root, key, s).value) == InsertAt(Flatten(root), LowerBound(Flatten(root), key), key)
    ensures Balanced(InsertTop(root, key, s).value) && 1 <= Height(InsertTop(root, key, s).value) <= 2
  {
    InsertBelowRoot(root, key);
    InsertNonfullOverLeaves(root, key, s);
    var i := LowerBound(root.keys, key);
    var c := root.children[i];
    var n1 := root.(children := root.children[i := c.(keys := InsertAt(c.keys, LowerBound(c.keys, key), key))]);
    if |c.keys| + 1 > s.kmax {
      LeafOverflowInOrder(n1, i, true, s);
    } else {
      OverLeavesBalanced(n1);
    }
    InsertTopDirect(root, key, s);
  }

  /**
   * `insert` on a tree of at most two levels whose keys are in order never
   * raises and inserts the key before its equals in the in-order sequence;
   * the tree stays balanced and grows by one level at most.
   */
  lemma InsertShallow(root: Node, key: int, s: BSizes)
    requires MakeBSizes(s.m) == Ok(s)
    requires Shallow(root, s) && Sorted(Flatten(root))
    ensures InsertTop(root, key, s).Ok?
    ensures Flatten(InsertTop(root, key, s).value) == InsertAt(Flatten(root), LowerBound(Flatten(root), key), key)
    ensures Balanced(InsertTop(root, key, s).value)
    ensures Height(root) <= Height(InsertTop(root, key, s).value) <= Height(root) + 1
  {
    if root.keys == [] {
      assert root.leaf;
    } else if root.leaf {
      InsertLeafRoot(root, key, s);
    } else {
      OverLeavesBalanced(root);
      InsertOverLeaves(root, key, s);
    }
  }
}
