/**
 * What `delete` of b_arbre_star.py does to the in-order key sequence. As
 * written, the three-way split that follows a merge raises IndexError when
 * the merged node has no right neighbour; with the re-split pairing the
 * node with whichever neighbour it has (`Pairing.WithNeighbour`), deletion
 * from a tree of at most two levels removes exactly the key and keeps the
 * tree balanced.
 */
module BStarDelete {
  import opened Common
  import opened Multiway
  import opened Surgery
  import opened BStar
  import opened BStarFacts

  // ---- the re-split as written ----

  /**
   * Order 4 (kmin 2, kmax 3): deleting 25 from [10, 20] over [5, 7],
   * [12, 15], [22, 25] merges [12, 15], 20 and [22] into a last child of
   * four keys, which has no right neighbour to split with.
   */
  lemma ResplitRaisesAtLastChild()
    ensures MakeBSizes(4) == Ok(BSizes(4, 2, 3))
    ensures DeleteTop(Node(false, [10, 20], [Node(true, [5, 7], []), Node(true, [12, 15], []), Node(true, [22, 25], [])]),
                      25, BSizes(4, 2, 3), WithNext) == Raised(IndexError)
  {
    LastLeafDelete();
  }

  /** The deletion below the root of the example above. */
  lemma LastLeafDelete()
    ensures DeleteInternal(Node(false, [10, 20], [Node(true, [5, 7], []), Node(true, [12, 15], []), Node(true, [22, 25], [])]),
                           25, true, BSizes(4, 2, 3), WithNext) == Raised(IndexError)
  {
    assert LowerBound([10, 20], 25) == 2;
    LastLeafDescent(Node(false, [10, 20], [Node(true, [5, 7], []), Node(true, [12, 15], []), Node(true, [22, 25], [])]));
  }

  /** The descent of the example above into its last leaf. */
  lemma LastLeafDescent(root: Node)
    requires root == Node(false, [10, 20], [Node(true, [5, 7], []), Node(true, [12, 15], []), Node(true, [22, 25], [])])
    ensures DescendAndFix(root, 2, 25, true, BSizes(4, 2, 3), WithNext) == Raised(IndexError)
  {
    var A, B, C1 := Node(true, [5, 7], []), Node(true, [12, 15], []), Node(true, [22], []);
    assert root.children[2] == Node(true, [22, 25], []);
    LastLeafLosesKey(root.children[2]);
    assert root.(children := root.children[2 := C1]) == Node(false, [10, 20], [A, B, C1]);
    LastLeafMergeRaises();
  }

  /** The last leaf of the example above loses 25 and falls below kmin. */
  lemma LastLeafLosesKey(leaf: Node)
    requires leaf == Node(true, [22, 25], [])
    ensures DeleteInternal(leaf, 25, false, BSizes(4, 2, 3), WithNext) == Ok(Deleted(Node(true, [22], []), true, Kept))
  {
    assert LowerBound([22, 25], 25) == 1;
    assert RemoveAt([22, 25], 1) == [22];
  }

  /** The merge of the example above, and the split that raises after it. */
  lemma LastLeafMergeRaises()
    ensures FixUnderflow(Node(false, [10, 20], [Node(true, [5, 7], []), Node(true, [12, 15], []), Node(true, [22], [])]),
                         2, true, BSizes(4, 2, 3), WithNext) == Raised(IndexError)
  {
    LastLeafMerge(Node(false, [10, 20], [Node(true, [5, 7], []), Node(true, [12, 15], []), Node(true, [22], [])]));
    LastLeafResplit();
  }

  /** The merge of the example above: [12, 15], 20 and [22] become one last child. */
  lemma LastLeafMerge(m1: Node)
    requires m1 == Node(false, [10, 20], [Node(true, [5, 7], []), Node(true, [12, 15], []), Node(true, [22], [])])
    ensures MergeNodes(m1, 1, true, BSizes(4, 2, 3), WithNext)
         == Ok((Node(false, [10], [Node(true, [5, 7], []), Node(true, [12, 15, 20, 22], [])]), Kept))
  {
    var p1 := MergeChildren(m1, 1);
    assert p1.keys == [10] && |p1.children| == 2;
    assert p1.children[1].keys == [12, 15, 20, 22];
    assert p1 == Node(false, [10], [Node(true, [5, 7], []), Node(true, [12, 15, 20, 22], [])]);
  }

  /** The split of the example above, asked of a last child. */
  lemma LastLeafResplit()
    ensures ResplitMerged(Node(false, [10], [Node(true, [5, 7], []), Node(true, [12, 15, 20, 22], [])]),
                          1, Kept, true, BSizes(4, 2, 3), WithNext) == Raised(IndexError)
  {
    assert ThreeWaySplit(Node(false, [10], [Node(true, [5, 7], []), Node(true, [12, 15, 20, 22], [])]), 1, None, 3, true)
        == Raised(IndexError);
  }

  /**
   * Order 4: deleting 5 from [10] over [5, 7], [12, 15] merges everything
   * into a new root of four keys, and the split is then asked of the old
   * root, which has no second child.
   */
  lemma ResplitRaisesAtNewRoot()
    ensures DeleteTop(Node(false, [10], [Node(true, [5, 7], []), Node(true, [12, 15], [])]),
                      5, BSizes(4, 2, 3), WithNext) == Raised(IndexError)
  {
    var root := Node(false, [10], [Node(true, [5, 7], []), Node(true, [12, 15], [])]);
    assert LowerBound([10], 5) == 0;
    FirstLeafDescent();
    assert DeleteInternal(root, 5, true, BSizes(4, 2, 3), WithNext) == Raised(IndexError);
  }

  /** The descent of the example above into its first leaf, which loses 5. */
  lemma FirstLeafDescent()
    ensures DescendAndFix(Node(false, [10], [Node(true, [5, 7], []), Node(true, [12, 15], [])]),
                          0, 5, true, BSizes(4, 2, 3), WithNext) == Raised(IndexError)
  {
    var s := BSizes(4, 2, 3);
    var A, B, A1 := Node(true, [5, 7], []), Node(true, [12, 15], []), Node(true, [7], []);
    var root := Node(false, [10], [A, B]);
    assert LowerBound([5, 7], 5) == 0;
    assert RemoveAt([5, 7], 0) == [7];
    assert DeleteInternal(A, 5, false, s, WithNext) == Ok(Deleted(A1, true, Kept));
    assert root.(children := root.children[0 := A1]) == Node(false, [10], [A1, B]);
    FirstLeafMergeRaises();
  }

  /** The merge of the example above, which replaces the root, and the split that raises after it. */
  lemma FirstLeafMergeRaises()
    ensures FixUnderflow(Node(false, [10], [Node(true, [7], []), Node(true, [12, 15], [])]),
                         0, true, BSizes(4, 2, 3), WithNext) == Raised(IndexError)
  {
    var s := BSizes(4, 2, 3);
    var m1 := Node(false, [10], [Node(true, [7], []), Node(true, [12, 15], [])]);
    var p1 := MergeChildren(m1, 0);
    assert p1.keys == [] && |p1.children| == 1;
    assert p1.children[0].keys == [7, 10, 12, 15];
    assert MergeNodes(m1, 0, true, s, WithNext) == Ok((p1, Replaced(p1.children[0])));
    assert ThreeWaySplit(p1, 0, None, 3, false) == Raised(IndexError);
  }

  // ---- deletion with the corrected re-split ----

  /**
   * A surgery at the root of a tree of at most two levels that did not
   * raise and left, once its root event is applied, a balanced tree of
   * height at most one with the in-order sequence F, and no keyless
   * internal root.
   */
  predicate Restored(o: Outcome<(Node, RootEvent)>, F: seq<int>) {
    o.Ok? && Flatten(Reroot(o.value.0, o.value.1)) == F && Balanced(Reroot(o.value.0, o.value.1))
    && Height(Reroot(o.value.0, o.value.1)) <= 1 && (Reroot(o.value.0, o.value.1).leaf || Reroot(o.value.0, o.value.1).keys != [])
  }

  /** A keyless internal node reads as its only child. */
  lemma KeylessFlatten(n: Node)
    requires WF(n) && !n.leaf && n.keys == []
    ensures Flatten(n) == Flatten(n.children[0])
  {
    PartAt(n, 0);
    assert Parts(n) == [Flatten(n.children[0])];
  }

  /**
   * `_delete_internal` on a leaf removes the key when it is there and
   * flags an underflow only then.
   */
  lemma DeleteFromLeaf(c: Node, k: int, isRoot: bool, s: BSizes, mode: Pairing)
    requires WF(c) && c.leaf && StrictlySorted(c.keys)
    ensures var c1 := c.(keys := Without(c.keys, k));
            DeleteInternal(c, k, isRoot, s, mode) == Ok(Deleted(c1, k in c.keys && |c1.keys| < s.kmin, Kept))
  {
    StrictlySortedIsSorted(c.keys);
    var i := LowerBound(c.keys, k);
    LeafPop(c, k, isRoot, s, mode);
    if i < |c.keys| && c.keys[i] == k {
      WithoutAt(c.keys, i);
    } else {
      LowerBoundAbsent(c.keys, k);
      WithoutAbsent(c.keys, k);
      assert c.(keys := Without(c.keys, k)) == c;
    }
  }

  /** On a leaf `_delete_internal` pops the key at `bisect_left` when it is there. */
  lemma LeafPop(c: Node, k: int, isRoot: bool, s: BSizes, mode: Pairing)
    requires c.leaf && Sorted(c.keys)
    ensures var i := LowerBound(c.keys, k);
            DeleteInternal(c, k, isRoot, s, mode)
            == if i < |c.keys| && c.keys[i] == k then Ok(Deleted(c.(keys := RemoveAt(c.keys, i)), |c.keys| - 1 < s.kmin, Kept))
               else Ok(Deleted(c, false, Kept))
  {
  }

  /** A redistribution at the root between two of its leaves restores the tree. */
  lemma RedistributeRestored(p: Node, at: nat, kmin: nat)
    requires OverLeaves(p) && at < |p.keys| && Redistribute(p, at, kmin).Ok?
    ensures Restored(Unmoved(Redistribute(p, at, kmin)), Flatten(p))
  {
    OverLeavesBalanced(p);
    RedistributeInOrder(p, at, kmin);
    var n := Redistribute(p, at, kmin).value;
    assert Reroot(n, Kept) == n;
  }

  /** `_fix_underflow` borrows from a left sibling above kmin first. */
  lemma BorrowLeft(p: Node, idx: nat, s: BSizes, mode: Pairing)
    requires 1 <= idx < |p.children| && |p.children[idx - 1].keys| > s.kmin
    ensures FixUnderflow(p, idx, true, s, mode) == Unmoved(Redistribute(p, idx - 1, s.kmin))
  {
  }

  /** Otherwise it borrows from a right sibling above kmin. */
  lemma BorrowRight(p: Node, idx: nat, s: BSizes, mode: Pairing)
    requires idx + 1 < |p.children| && |p.children[idx + 1].keys| > s.kmin
    requires !(idx >= 1 && |p.children[idx - 1].keys| > s.kmin)
    ensures FixUnderflow(p, idx, true, s, mode) == Unmoved(Redistribute(p, idx, s.kmin))
  {
  }

  /** The underflow handling when a sibling holds more than kmin keys: one redistribution. */
  lemma FixByBorrow(p: Node, idx: nat, s: BSizes, mode: Pairing)
    requires OverLeaves(p) && idx < |p.children|
    requires (idx >= 1 && |p.children[idx - 1].keys| > s.kmin) || (idx + 1 < |p.children| && |p.children[idx + 1].keys| > s.kmin)
    ensures Restored(FixUnderflow(p, idx, true, s, mode), Flatten(p))
  {
    if idx >= 1 && |p.children[idx - 1].keys| > s.kmin {
      BorrowLeft(p, idx, s, mode);
      RedistributeOk(p, idx - 1, s.kmin);
      RedistributeRestored(p, idx - 1, s.kmin);
    } else {
      BorrowRight(p, idx, s, mode);
      RedistributeOk(p, idx, s.kmin);
      RedistributeRestored(p, idx, s.kmin);
    }
  }

  /** Merging two leaves under the root: a keyless root gives way to the merged leaf. */
  lemma MergeLeaves(p: Node, at: nat, s: BSizes, mode: Pairing)
    requires OverLeaves(p) && at < |p.keys|
    ensures var p1 := MergeChildren(p, at);
            MergeNodes(p, at, true, s, mode) == Ok((p1, if p1.keys == [] then Replaced(p1.children[at]) else Kept))
    ensures WF(MergeChildren(p, at)) && Flatten(MergeChildren(p, at)) == Flatten(p)
    ensures MergeChildren(p, at).children[at].leaf
    ensures OverLeaves(MergeChildren(p, at))
  {
    var p1 := MergeChildren(p, at);
    MergeInOrder(p, at);
    forall t | 0 <= t < |p1.children| ensures p1.children[t].leaf {
      if t < at {
        assert p1.children[t] == p1.children[..at][t] == p.children[t];
      } else if t > at {
        assert p1.children[t] == p1.children[at + 1..][t - at - 1] == p.children[t + 1];
      }
    }
  }

  /** A merged leaf that replaced a keyless root and overflows is grown into a root of its own. */
  lemma ResplitGrown(p1: Node, at: nat, s: BSizes)
    requires WF(p1) && !p1.leaf && p1.keys == [] && at < |p1.children|
    requires p1.children[at].leaf && |p1.children[at].keys| > s.kmax
    ensures Restored(ResplitMerged(p1, at, Replaced(p1.children[at]), true, s, WithNeighbour), Flatten(p1))
  {
    var c := p1.children[at];
    assert WF(c) && Balanced(c) && Height(c) == 0;
    KeylessFlatten(p1);
    GrowProps(c);
  }

  /** A three-way split under a root below kmax keys keeps the root, which restores the tree. */
  lemma ThreeWayRestored(p1: Node, j: nat, kmax: nat)
    requires OverLeaves(p1) && j < |p1.keys| < kmax && Sorted(Flatten(p1))
    ensures Restored(ThreeWaySplit(p1, j, None, kmax, true), Flatten(p1))
  {
    ThreeWayLeaves(p1, j, kmax, true);
    var r := ThreeWaySplit(p1, j, None, kmax, true).value.0;
    OverLeavesBalanced(r);
    assert Reroot(r, Kept) == r;
  }

  /** Under a root that kept keys the corrected re-split pairs the merged node with its right neighbour, or its left one when it is the last child. */
  lemma PairedChoice(p1: Node, at: nat, s: BSizes)
    requires at + 1 < |p1.children| || at >= 1
    requires at < |p1.children| && |p1.children[at].keys| > s.kmax
    ensures ResplitMerged(p1, at, Kept, true, s, WithNeighbour)
            == ThreeWaySplit(p1, if at + 1 < |p1.children| then at else at - 1, None, s.kmax, true)
  {
  }

  /** A merged leaf that overflows under a root that kept keys is split three ways with a neighbour. */
  lemma ResplitPaired(p1: Node, at: nat, s: BSizes)
    requires OverLeaves(p1) && at < |p1.children| && |p1.children[at].keys| > s.kmax
    requires Sorted(Flatten(p1)) && 1 <= |p1.keys| < s.kmax
    ensures Restored(ResplitMerged(p1, at, Kept, true, s, WithNeighbour), Flatten(p1))
  {
    PairedChoice(p1, at, s);
    ThreeWayRestored(p1, if at + 1 < |p1.children| then at else at - 1, s.kmax);
  }

  /** Without a sibling to borrow from, `_fix_underflow` merges with the left sibling, else the right one. */
  lemma MergeChoice(p: Node, idx: nat, s: BSizes, mode: Pairing, p1: Node, e: RootEvent)
    requires idx < |p.children| && (idx >= 1 || idx + 1 < |p.children|)
    requires !((idx >= 1 && |p.children[idx - 1].keys| > s.kmin) || (idx + 1 < |p.children| && |p.children[idx + 1].keys| > s.kmin))
    requires MergeNodes(p, if idx >= 1 then idx - 1 else idx, true, s, mode) == Ok((p1, e))
    requires (if idx >= 1 then idx - 1 else idx) < |p1.children|
    ensures var at: nat := if idx >= 1 then idx - 1 else idx;
            FixUnderflow(p, idx, true, s, mode)
            == if |p1.children[at].keys| > s.kmax then ResplitMerged(p1, at, e, true, s, mode) else Ok((p1, e))
  {
  }

  /** A merged root that needs no re-split is already restored. */
  lemma MergedRestored(p1: Node, at: nat)
    requires OverLeaves(p1) && at < |p1.children|
    ensures Restored(Ok((p1, if p1.keys == [] then Replaced(p1.children[at]) else Kept)), Flatten(p1))
  {
    if p1.keys == [] {
      KeylessFlatten(p1);
      assert WF(p1.children[at]);
    } else {
      OverLeavesBalanced(p1);
    }
  }

  /** The underflow handling when no sibling has keys to spare: a merge, and a re-split if needed. */
  lemma FixByMerge(p: Node, idx: nat, s: BSizes)
    requires OverLeaves(p) && 1 <= |p.keys| <= s.kmax && idx < |p.children| && Sorted(Flatten(p))
    requires !((idx >= 1 && |p.children[idx - 1].keys| > s.kmin) || (idx + 1 < |p.children| && |p.children[idx + 1].keys| > s.kmin))
    ensures Restored(FixUnderflow(p, idx, true, s, WithNeighbour), Flatten(p))
  {
    var at: nat := if idx >= 1 then idx - 1 else idx;
    MergeLeaves(p, at, s, WithNeighbour);
    var p1 := MergeChildren(p, at);
    MergeChoice(p, idx, s, WithNeighbour, p1, if p1.keys == [] then Replaced(p1.children[at]) else Kept);
    if |p1.children[at].keys| <= s.kmax {
      MergedRestored(p1, at);
    } else if p1.keys == [] {
      ResplitGrown(p1, at, s);
    } else {
      ResplitPaired(p1, at, s);
    }
  }

  /** `_fix_underflow` on the root of a tree of at most two levels, with the corrected re-split. */
  lemma FixUnderflowLeaves(p: Node, idx: nat, s: BSizes)
    requires MakeBSizes(s.m) == Ok(s)
    requires OverLeaves(p) && 1 <= |p.keys| <= s.kmax && idx < |p.children| && Sorted(Flatten(p))
    ensures Restored(FixUnderflow(p, idx, true, s, WithNeighbour), Flatten(p))
  {
    if (idx >= 1 && |p.children[idx - 1].keys| > s.kmin) || (idx + 1 < |p.children| && |p.children[idx + 1].keys| > s.kmin) {
      FixByBorrow(p, idx, s, WithNeighbour);
    } else {
      FixByMerge(p, idx, s);
    }
  }

  /** A recursive delete below the root that did not raise and left the tree restored. */
  predicate Removed(o: Outcome<Deleted>, F: seq<int>) {
    o.Ok? && Restored(Ok((o.value.node, o.value.event)), F)
  }

  /** The root m with the key k taken out of its leaf child i. */
  function Lightened(m: Node, i: nat, k: int): (r: Node)
    requires i < |m.children|
    ensures r.keys == m.keys && |r.children| == |m.children|
  {
    m.(children := m.children[i := m.children[i].(keys := Without(m.children[i].keys, k))])
  }

  /** The frame of `_delete_internal` below the root: the recursive call, then `_fix_underflow` on an underflow. */
  lemma DescendSteps(m: Node, i: nat, k: int, s: BSizes, mode: Pairing, c: Deleted)
    requires i < |m.children| && DeleteInternal(m.children[i], k, false, s, mode) == Ok(c)
    ensures var m1 := m.(children := m.children[i := c.node]);
            !c.underflow ==> DescendAndFix(m, i, k, true, s, mode) == Ok(Deleted(m1, |m1.keys| < s.kmin, Kept))
    ensures var m1 := m.(children := m.children[i := c.node]);
            var f := FixUnderflow(m1, i, true, s, mode);
            c.underflow && f.Ok? ==> DescendAndFix(m, i, k, true, s, mode) == Ok(Deleted(f.value.0, |f.value.0.keys| < s.kmin, f.value.1))
  {
  }

  /**
   * Deleting k from the leaf child i of a root over leaves, and repairing
   * an underflow with the corrected re-split, restores the tree around the
   * lightened leaf.
   */
  lemma LeafStep(m: Node, i: nat, k: int, s: BSizes)
    requires MakeBSizes(s.m) == Ok(s)
    requires OverLeaves(m) && 1 <= |m.keys| <= s.kmax && i < |m.children|
    requires StrictlySorted(m.children[i].keys) && Sorted(Flatten(Lightened(m, i, k)))
    ensures Removed(DescendAndFix(m, i, k, true, s, WithNeighbour), Flatten(Lightened(m, i, k)))
  {
    var c := m.children[i];
    var c1 := c.(keys := Without(c.keys, k));
    assert WF(c) && c.leaf;
    DeleteFromLeaf(c, k, false, s, WithNeighbour);
    var d := Deleted(c1, k in c.keys && |c1.keys| < s.kmin, Kept);
    DescendSteps(m, i, k, s, WithNeighbour, d);
    var m1 := Lightened(m, i, k);
    ReplaceLeaf(m, i, c1);
    if d.underflow {
      FixUnderflowLeaves(m1, i, s);
    } else {
      OverLeavesBalanced(m1);
      assert Reroot(m1, Kept) == m1;
    }
  }

  /** The key sits in the child `bisect_left` picks, if anywhere: lightening that child removes it from the tree. */
  lemma MissFlatten(root: Node, key: int)
    requires OverLeaves(root) && StrictlySorted(Flatten(root))
    requires var i := LowerBound(root.keys, key); !(i < |root.keys| && root.keys[i] == key)
    ensures LowerBound(root.keys, key) < |root.children|
    ensures StrictlySorted(root.children[LowerBound(root.keys, key)].keys)
    ensures Flatten(Lightened(root, LowerBound(root.keys, key), key)) == Without(Flatten(root), key)
  {
    var i := LowerBound(root.keys, key);
    var c := root.children[i];
    assert WF(c) && c.leaf && Flatten(c) == c.keys;
    StrictlySortedIsSorted(Flatten(root));
    ChildStrictlySorted(root, i);
    Descend(root, key, i);
    FlattenAround(root, i);
    FlattenReplace(root, i, c.(keys := Without(c.keys, key)));
    WithoutInside(Before(root.keys, Parts(root), i), c.keys, After(root.keys, Parts(root), i), key);
  }

  /** A missing key at the root: the delete goes down into the child `bisect_left` picks. */
  lemma MissCase(root: Node, key: int, s: BSizes)
    requires MakeBSizes(s.m) == Ok(s)
    requires OverLeaves(root) && 1 <= |root.keys| <= s.kmax && StrictlySorted(Flatten(root))
    requires var i := LowerBound(root.keys, key); !(i < |root.keys| && root.keys[i] == key)
    ensures Removed(DeleteInternal(root, key, true, s, WithNeighbour), Without(Flatten(root), key))
  {
    StrictlySortedIsSorted(Flatten(root));
    KeysSorted(root);
    var i := LowerBound(root.keys, key);
    MissFlatten(root, key);
    WithoutSorted(Flatten(root), key);
    LeafStep(root, i, key, s);
    assert DeleteInternal(root, key, true, s, WithNeighbour) == DescendAndFix(root, i, key, true, s, WithNeighbour);
  }

  /**
   * A key found at the root is overwritten by the last key of the leaf
   * before it, and that key is deleted from the leaf: the tree then reads
   * as before without the key.
   */
  lemma HitFlatten(root: Node, i: nat, key: int)
    requires OverLeaves(root) && StrictlySorted(Flatten(root))
    requires i < |root.keys| && root.keys[i] == key && root.children[i].keys != []
    ensures var c := root.children[i];
            var pred := c.keys[|c.keys| - 1];
            var m := root.(keys := root.keys[i := pred]);
            Rightmost(c) == Ok(pred) && StrictlySorted(c.keys) && OverLeaves(m)
            && Flatten(Lightened(m, i, pred)) == Without(Flatten(root), key)
  {
    var c, right := root.children[i], root.children[i + 1];
    var pred := c.keys[|c.keys| - 1];
    var m := root.(keys := root.keys[i := pred]);
    assert WF(c) && c.leaf && Flatten(c) == c.keys;
    ChildStrictlySorted(root, i);
    var l := c.keys[..|c.keys| - 1];
    assert c.keys == l + [pred];
    var B, A := Before(root.keys, Parts(root), i), After(root.keys, Parts(root), i + 1);
    AroundSeparator(root, i);
    RekeyAround(root, i, pred);
    AfterStep(m.keys, Parts(m), i);
    PartAt(m, i + 1);
    var c1 := c.(keys := Without(c.keys, pred));
    assert WF(c1) && Flatten(c1) == Without(l + [pred], pred);
    FlattenReplace(m, i, c1);
    PredecessorSwap(B, l, pred, key, Flatten(right), A);
  }

  /** A key found at the root: `_delete_internal` descends with its predecessor. */
  lemma HitCase(root: Node, key: int, s: BSizes)
    requires MakeBSizes(s.m) == Ok(s)
    requires OverLeaves(root) && 1 <= |root.keys| <= s.kmax && StrictlySorted(Flatten(root))
    requires var i := LowerBound(root.keys, key); i < |root.keys| && root.keys[i] == key && root.children[i].keys != []
    ensures Removed(DeleteInternal(root, key, true, s, WithNeighbour), Without(Flatten(root), key))
  {
    StrictlySortedIsSorted(Flatten(root));
    KeysSorted(root);
    var i := LowerBound(root.keys, key);
    var c := root.children[i];
    var pred := c.keys[|c.keys| - 1];
    var m := root.(keys := root.keys[i := pred]);
    HitFlatten(root, i, key);
    WithoutSorted(Flatten(root), key);
    LeafStep(m, i, pred, s);
    assert DeleteInternal(root, key, true, s, WithNeighbour) == DescendAndFix(m, i, pred, true, s, WithNeighbour);
  }

  /** Every child of n holds at least one key. */
  predicate LeavesKeyed(n: Node) {
    forall i :: 0 <= i < |n.children| ==> n.children[i].keys != []
  }

  /** A keyed root over leaves: the delete below it leaves a restored tree. */
  lemma DeleteBelowRoot(root: Node, key: int, s: BSizes)
    requires MakeBSizes(s.m) == Ok(s)
    requires OverLeaves(root) && 1 <= |root.keys| <= s.kmax && StrictlySorted(Flatten(root))
    requires LeavesKeyed(root)
    ensures Removed(DeleteInternal(root, key, true, s, WithNeighbour), Without(Flatten(root), key))
  {
    var i := LowerBound(root.keys, key);
    if i < |root.keys| && root.keys[i] == key {
      HitCase(root, key, s);
    } else {
      MissCase(root, key, s);
    }
  }

  /**
   * The corrected `delete(key)` on a tree of at most two levels whose leaves
   * all hold keys: it never raises, removes exactly the key, keeps the keys
   * strictly increasing and the tree balanced, and lowers the height by at
   * most one.
   */
  lemma DeleteShallow(root: Node, key: int, s: BSizes)
    requires MakeBSizes(s.m) == Ok(s)
    requires Shallow(root, s) && StrictlySorted(Flatten(root))
    requires LeavesKeyed(root)
    ensures DeleteTop(root, key, s, WithNeighbour).Ok?
    ensures Flatten(DeleteTop(root, key, s, WithNeighbour).value) == Without(Flatten(root), key)
    ensures StrictlySorted(Flatten(DeleteTop(root, key, s, WithNeighbour).value))
    ensures Balanced(DeleteTop(root, key, s, WithNeighbour).value)
    ensures Height(DeleteTop(root, key, s, WithNeighbour).value) <= Height(root)
            <= Height(DeleteTop(root, key, s, WithNeighbour).value) + 1
  {
    WithoutSorted(Flatten(root), key);
    if root.keys == [] {
      assert root.leaf && Flatten(root) == [];
    } else if root.leaf {
      DeleteFromLeaf(root, key, true, s, WithNeighbour);
    } else {
      OverLeavesBalanced(root);
      DeleteBelowRoot(root, key, s);
    }
  }

  // ---- the re-split as written, against the corrected one ----

  /**
   * After a merge under the root, the written re-split gives what the
   * corrected one gives unless it raises IndexError: only a merged node
   * that became the root, or that is the last child, lacks a right
   * neighbour.
   */
  lemma ResplitAgrees(p1: Node, at: nat, s: BSizes)
    requires WF(p1) && !p1.leaf && at < |p1.children| && |p1.children[at].keys| > s.kmax
    ensures var e := if p1.keys == [] then Replaced(p1.children[at]) else Kept;
            var o := ResplitMerged(p1, at, e, true, s, WithNext);
            o == ResplitMerged(p1, at, e, true, s, WithNeighbour) || o == Raised(IndexError)
  {
  }

  /** A leaf loses the key, or not, the same way under either re-split. */
  lemma LeafModeFree(c: Node, k: int, isRoot: bool, s: BSizes)
    requires c.leaf && c.children == []
    ensures DeleteInternal(c, k, isRoot, s, WithNext) == DeleteInternal(c, k, isRoot, s, WithNeighbour)
    ensures var o := DeleteInternal(c, k, isRoot, s, WithNext);
            o.Ok? && o.value.node.leaf && o.value.node.children == [] && o.value.event == Kept
  {
  }

  /** `_fix_underflow` on a root over leaves: as written, the corrected result or IndexError. */
  lemma FixAgrees(p: Node, idx: nat, s: BSizes)
    requires OverLeaves(p) && idx < |p.children|
    ensures var o := FixUnderflow(p, idx, true, s, WithNext);
            o == FixUnderflow(p, idx, true, s, WithNeighbour) || o == Raised(IndexError)
  {
    var hasLeft, hasRight := idx >= 1, idx + 1 < |p.children|;
    if hasLeft && |p.children[idx - 1].keys| > s.kmin {
      BorrowLeft(p, idx, s, WithNext);
      BorrowLeft(p, idx, s, WithNeighbour);
    } else if hasRight && |p.children[idx + 1].keys| > s.kmin {
      BorrowRight(p, idx, s, WithNext);
      BorrowRight(p, idx, s, WithNeighbour);
    } else if hasLeft || hasRight {
      var at: nat := if hasLeft then idx - 1 else idx;
      MergeLeaves(p, at, s, WithNext);
      MergeLeaves(p, at, s, WithNeighbour);
      var p1 := MergeChildren(p, at);
      var e := if p1.keys == [] then Replaced(p1.children[at]) else Kept;
      MergeChoice(p, idx, s, WithNext, p1, e);
      MergeChoice(p, idx, s, WithNeighbour, p1, e);
      if |p1.children[at].keys| > s.kmax {
        ResplitAgrees(p1, at, s);
      }
    }
  }

  /** The frame of `_delete_internal` below a root over leaves: as written, the corrected result or IndexError. */
  lemma DescendAgrees(m: Node, i: nat, k: int, s: BSizes)
    requires OverLeaves(m) && i < |m.children|
    ensures var o := DescendAndFix(m, i, k, true, s, WithNext);
            o == DescendAndFix(m, i, k, true, s, WithNeighbour) || o == Raised(IndexError)
  {
    var c := m.children[i];
    assert WF(c) && c.leaf;
    LeafModeFree(c, k, false, s);
    var d := DeleteInternal(c, k, false, s, WithNext).value;
    var m1 := m.(children := m.children[i := d.node]);
    if d.underflow {
      ReplaceLeaf(m, i, d.node);
      FixAgrees(m1, i, s);
    }
  }

  /** `_delete_internal` at a root over leaves: as written, the corrected result or IndexError. */
  lemma InternalAgrees(root: Node, key: int, s: BSizes)
    requires OverLeaves(root)
    ensures var o := DeleteInternal(root, key, true, s, WithNext);
            o == DeleteInternal(root, key, true, s, WithNeighbour) || o == Raised(IndexError)
  {
    var i := BisectLeft(root.keys, key);
    if i < |root.children| {
      if i < |root.keys| && root.keys[i] == key {
        var pred := Rightmost(root.children[i]);
        if pred.Ok? {
          var m := root.(keys := root.keys[i := pred.value]);
          assert OverLeaves(m) by {
            assert forall t :: 0 <= t < |m.children| ==> m.children[t] == root.children[t];
          }
          DescendAgrees(m, i, pred.value, s);
        }
      } else {
        DescendAgrees(root, i, key, s);
      }
    }
  }

  /**
   * `delete(key)` as written on a leaf root or a root over leaves gives
   * what the corrected deletion gives, unless it raises IndexError.
   */
  lemma DeleteAgrees(root: Node, key: int, s: BSizes)
    requires WF(root) && (root.leaf || OverLeaves(root))
    ensures var o := DeleteTop(root, key, s, WithNext);
            o == DeleteTop(root, key, s, WithNeighbour) || o == Raised(IndexError)
  {
    if root.keys != [] {
      if root.leaf {
        LeafModeFree(root, key, true, s);
      } else {
        InternalAgrees(root, key, s);
      }
    }
  }

  /**
   * `delete(key)` as written on a tree of at most two levels whose leaves
   * all hold keys: it raises IndexError, or it removes exactly the key and
   * keeps the keys strictly increasing and the tree balanced.
   */
  lemma DeleteShallowAsWritten(root: Node, key: int, s: BSizes)
    requires MakeBSizes(s.m) == Ok(s)
    requires Shallow(root, s) && StrictlySorted(Flatten(root))
    requires LeavesKeyed(root)
    ensures var o := DeleteTop(root, key, s, WithNext);
            o == Raised(IndexError)
            || (o.Ok? && Flatten(o.value) == Without(Flatten(root), key)
                && StrictlySorted(Flatten(o.value)) && Balanced(o.value))
  {
    DeleteShallow(root, key, s);
    DeleteAgrees(root, key, s);
  }
}
