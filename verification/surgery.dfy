/**
 * The two list surgeries that both tree engines perform on a parent and its
 * children: `_split_child` (identical in TP2/b_arbre.py and b_arbre_star.py)
 * and the key/child concatenation at the heart of `_merge` / `_merge_nodes`.
 * Each is a function from the parent before to the parent after; the lemmas
 * say what it does to the shape, the heights and the in-order key sequence.
 */
module Surgery {
  import opened Common
  import opened Multiway

  // ---- replacing one child ----

  /** Replacing child j changes the in-order sequence only where that child's keys were. */
  lemma FlattenReplace(n: Node, j: nat, c: Node)
    requires WF(n) && !n.leaf && j < |n.children|
    ensures Flatten(n.(children := n.children[j := c]))
         == Before(n.keys, Parts(n), j) + Flatten(c) + After(n.keys, Parts(n), j)
  {
    var n' := n.(children := n.children[j := c]);
    var p, p' := Parts(n), Parts(n');
    assert p'[..j] == p[..j] by {
      PartsAgree(n', n, 0, 0, j);
      assert p'[..j] == p'[0..j] && p[..j] == p[0..j];
    }
    assert p'[j + 1..] == p[j + 1..] by {
      PartsAgree(n', n, j + 1, j + 1, |n.children| - j - 1);
      assert p'[j + 1..] == p'[j + 1..|p'|] && p[j + 1..] == p[j + 1..|p|];
    }
    PartAt(n', j);
    BeforeCongruent(n.keys, p', n.keys, p, j);
    AfterCongruent(n.keys, p', j, n.keys, p, j);
    WeaveAround(n.keys, p', j);
  }

  /** A child of a balanced node replaced by a balanced node of the same height. */
  lemma ReplaceBalanced(n: Node, j: nat, c: Node)
    requires Balanced(n) && j < |n.children|
    requires Balanced(c) && Height(c) == Height(n.children[j])
    ensures Balanced(n.(children := n.children[j := c]))
    ensures Height(n.(children := n.children[j := c])) == Height(n)
  {
  }

  lemma ChildSorted(n: Node, j: nat)
    requires WF(n) && !n.leaf && j < |n.children| && Sorted(Flatten(n))
    ensures Sorted(Flatten(n.children[j]))
  {
    var b, a := Before(n.keys, Parts(n), j), After(n.keys, Parts(n), j);
    PartAt(n, j);
    WeaveAround(n.keys, Parts(n), j);
    SortedSplit(b + Flatten(n.children[j]), a);
    SortedSplit(b, Flatten(n.children[j]));
  }

  lemma ChildStrictlySorted(n: Node, j: nat)
    requires WF(n) && !n.leaf && j < |n.children| && StrictlySorted(Flatten(n))
    ensures StrictlySorted(Flatten(n.children[j]))
  {
    var b, a := Before(n.keys, Parts(n), j), After(n.keys, Parts(n), j);
    PartAt(n, j);
    WeaveAround(n.keys, Parts(n), j);
    StrictlySortedSplit(b + Flatten(n.children[j]), a);
    StrictlySortedSplit(b, Flatten(n.children[j]));
  }

  /** Leaves are exactly the nodes of height 0. */
  lemma LeafIffLow(n: Node)
    requires WF(n)
    ensures n.leaf <==> Height(n) == 0
  {
  }

  // ---- _split_child ----

  /**
   * `_split_child(parent, i)`: with mid = len(full.keys) // 2 for the child
   * `full` at i, the key full.keys[mid] moves up into the parent at i, `full`
   * keeps keys[:mid] (and children[:mid+1]) and a new right sibling at i+1
   * takes keys[mid+1:] (and children[mid+1:]).
   */
  function SplitChild(p: Node, i: nat): (r: Node)
    requires i < |p.children| && i <= |p.keys| && |p.children[i].keys| >= 1
    ensures r.leaf == p.leaf
    ensures |r.keys| == |p.keys| + 1 && |r.children| == |p.children| + 1
    ensures r.keys == InsertAt(p.keys, i, p.children[i].keys[|p.children[i].keys| / 2])
    ensures r.children[i].keys + [r.keys[i]] + r.children[i + 1].keys == p.children[i].keys
    ensures r.children[..i] == p.children[..i] && r.children[i + 2..] == p.children[i + 1..]
    ensures r.children[i].leaf == r.children[i + 1].leaf == p.children[i].leaf
  {
    var full := p.children[i];
    var mid := |full.keys| / 2;
    var left := Node(full.leaf, full.keys[..mid], if full.leaf then full.children else Take(full.children, mid + 1));
    var right := Node(full.leaf, full.keys[mid + 1..], if full.leaf then [] else Drop(full.children, mid + 1));
    assert full.keys == full.keys[..mid] + [full.keys[mid]] + full.keys[mid + 1..];
    var r := Node(p.leaf, InsertAt(p.keys, i, full.keys[mid]), p.children[..i] + [left, right] + p.children[i + 1..]);
    assert r.children[i + 2..] == p.children[i + 1..];
    r
  }

  /** The two halves a split leaves at i and i + 1. */
  lemma SplitHalves(p: Node, i: nat)
    requires i < |p.children| && i <= |p.keys| && |p.children[i].keys| >= 1
    ensures var full, mid := p.children[i], |p.children[i].keys| / 2;
            && SplitChild(p, i).children[i]
               == Node(full.leaf, full.keys[..mid], if full.leaf then full.children else Take(full.children, mid + 1))
            && SplitChild(p, i).children[i + 1]
               == Node(full.leaf, full.keys[mid + 1..], if full.leaf then [] else Drop(full.children, mid + 1))
  {
  }

  /** Where the children of the split child go, when it is well formed. */
  lemma SplitHalvesShape(p: Node, i: nat)
    requires WF(p) && i < |p.children| && |p.children[i].keys| >= 1
    ensures WF(SplitChild(p, i).children[i]) && WF(SplitChild(p, i).children[i + 1])
    ensures !p.children[i].leaf ==>
              SplitChild(p, i).children[i].children == p.children[i].children[..|p.children[i].keys| / 2 + 1] &&
              SplitChild(p, i).children[i + 1].children == p.children[i].children[|p.children[i].keys| / 2 + 1..]
  {
    var full := p.children[i];
    var mid := |full.keys| / 2;
    SplitHalves(p, i);
    assert WF(full);
    if !full.leaf {
      WFHalves(full, mid);
      assert Take(full.children, mid + 1) == full.children[..mid + 1];
      assert Drop(full.children, mid + 1) == full.children[mid + 1..];
    }
  }

  /** The keys and children either side of key mid of a well-formed internal node make two well-formed nodes. */
  lemma WFHalves(full: Node, mid: nat)
    requires WF(full) && !full.leaf && mid < |full.keys|
    ensures WF(Node(false, full.keys[..mid], full.children[..mid + 1]))
    ensures WF(Node(false, full.keys[mid + 1..], full.children[mid + 1..]))
  {
    var L, R := full.children[..mid + 1], full.children[mid + 1..];
    forall c | 0 <= c < |L| ensures WF(L[c]) {
      assert L[c] == full.children[c];
    }
    forall c | 0 <= c < |R| ensures WF(R[c]) {
      assert R[c] == full.children[mid + 1 + c];
    }
  }

  /** The child being split is the two halves joined by the median. */
  lemma SplitHalvesFlatten(p: Node, i: nat)
    requires WF(p) && i < |p.children| && |p.children[i].keys| >= 1
    ensures Flatten(p.children[i])
         == Flatten(SplitChild(p, i).children[i]) + [SplitChild(p, i).keys[i]] + Flatten(SplitChild(p, i).children[i + 1])
  {
    var r := SplitChild(p, i);
    var full := p.children[i];
    var mid := |full.keys| / 2;
    var left, right := r.children[i], r.children[i + 1];
    var K := full.keys;
    assert K == K[..mid] + [K[mid]] + K[mid + 1..];
    SplitHalvesShape(p, i);
    assert WF(full);
    if !full.leaf {
      var P := Parts(full);
      PartsPrefix(left, full, mid + 1);
      PartsSuffix(right, full, mid + 1);
      assert P == P[..mid + 1] + P[mid + 1..];
      WeaveConcat(K[..mid], K[mid], K[mid + 1..], P[..mid + 1], P[mid + 1..]);
    }
  }

  /** Splitting keeps the shape and the in-order key sequence. */
  lemma SplitChildInOrder(p: Node, i: nat)
    requires WF(p) && i < |p.children| && |p.children[i].keys| >= 1
    ensures WF(SplitChild(p, i)) && Flatten(SplitChild(p, i)) == Flatten(p)
  {
    SplitChildShape(p, i);
    SplitChildFlatten(p, i);
  }

  lemma SplitChildShape(p: Node, i: nat)
    requires WF(p) && i < |p.children| && |p.children[i].keys| >= 1
    ensures WF(SplitChild(p, i))
  {
    var r := SplitChild(p, i);
    SplitHalvesShape(p, i);
    forall j | 0 <= j < |r.children| ensures WF(r.children[j]) {
      if j < i {
        assert r.children[j] == r.children[..i][j] == p.children[j];
      } else if j > i + 1 {
        assert r.children[j] == r.children[i + 2..][j - i - 2] == p.children[j - 1];
      }
    }
  }

  lemma SplitChildFlatten(p: Node, i: nat)
    requires WF(p) && i < |p.children| && |p.children[i].keys| >= 1
    ensures Flatten(SplitChild(p, i)) == Flatten(p)
  {
    SplitChildShape(p, i);
    SplitHalvesFlatten(p, i);
    SpreadChild(p, SplitChild(p, i), i);
  }

  /** Both halves keep the height of the child they come from. */
  lemma SplitHalvesBalanced(p: Node, i: nat)
    requires Balanced(p) && i < |p.children| && |p.children[i].keys| >= 1
    ensures Level([SplitChild(p, i).children[i], SplitChild(p, i).children[i + 1]], Height(p.children[i]))
  {
    var r := SplitChild(p, i);
    var full := p.children[i];
    var mid := |full.keys| / 2;
    var left, right := r.children[i], r.children[i + 1];
    assert Balanced(full);
    SplitHalvesShape(p, i);
    if !full.leaf {
      LevelOfChildren(full);
      var h := Height(full) - 1;
      LevelSlice(full.children, mid + 1, |full.children|, h);
      BalancedOverLevel(left, h);
      BalancedOverLevel(right, h);
    }
  }

  /** Splitting keeps balance and height. */
  lemma SplitChildBalanced(p: Node, i: nat)
    requires Balanced(p) && i < |p.children| && |p.children[i].keys| >= 1
    ensures Balanced(SplitChild(p, i)) && Height(SplitChild(p, i)) == Height(p)
  {
    var r := SplitChild(p, i);
    LevelOfChildren(p);
    var h := Height(p) - 1;
    SplitHalvesBalanced(p, i);
    SplitChildren(p, i);
    LevelReplaceByPair(p.children, i, [r.children[i], r.children[i + 1]], h);
    BalancedOverLevel(r, h);
  }

  /** After a split the children are those before i, the two halves, and those after i. */
  lemma SplitChildren(p: Node, i: nat)
    requires i < |p.children| && i <= |p.keys| && |p.children[i].keys| >= 1
    ensures var r := SplitChild(p, i);
            r.children == p.children[..i] + [r.children[i], r.children[i + 1]] + p.children[i + 1..]
  {
    var r := SplitChild(p, i);
    assert r.children == r.children[..i] + [r.children[i], r.children[i + 1]] + r.children[i + 2..];
  }

  /** One node of a level replaced by nodes of that level leaves a level. */
  lemma LevelReplaceByPair(cs: seq<Node>, i: nat, halves: seq<Node>, h: nat)
    requires i < |cs| && Level(cs, h) && Level(halves, h)
    ensures Level(cs[..i] + halves + cs[i + 1..], h)
  {
    LevelSlice(cs, 0, i, h);
    LevelSlice(cs, i + 1, |cs|, h);
    LevelConcat(cs[..i], halves, h);
    LevelConcat(cs[..i] + halves, cs[i + 1..], h);
  }

  /** A child of at least three keys splits into two halves that each keep a key. */
  lemma SplitChildKeyed(p: Node, i: nat)
    requires WF(p) && i < |p.children| && |p.children[i].keys| >= 3
    requires forall j :: 0 <= j < |p.children| ==> AllKeyed(p.children[j])
    ensures forall j :: 0 <= j < |SplitChild(p, i).children| ==> AllKeyed(SplitChild(p, i).children[j])
  {
    var r := SplitChild(p, i);
    var full := p.children[i];
    var mid := |full.keys| / 2;
    assert AllKeyed(full);
    forall j | 0 <= j < |r.children| ensures AllKeyed(r.children[j]) {
      if j < i {
        assert r.children[j] == r.children[..i][j] == p.children[j];
      } else if j > i + 1 {
        assert r.children[j] == r.children[i + 2..][j - i - 2] == p.children[j - 1];
      } else if j == i {
        var left := r.children[i];
        forall c | 0 <= c < |left.children| ensures AllKeyed(left.children[c]) {
          assert left.children[c] == full.children[c];
        }
      } else {
        var right := r.children[i + 1];
        forall c | 0 <= c < |right.children| ensures AllKeyed(right.children[c]) {
          assert right.children[c] == full.children[mid + 1 + c];
        }
      }
    }
  }

  /**
   * A fresh internal root above n, split at once: the root growth of both
   * engines (`new_root.children.append(old_root)` then `_split_child(new_root, 0)`).
   */
  function Grow(n: Node): (r: Node)
    requires |n.keys| >= 1
    ensures !r.leaf && |r.keys| == 1 && |r.children| == 2
  {
    SplitChild(Node(false, [], [n]), 0)
  }

  /** Growing keeps the keys in order and adds exactly one level. */
  lemma GrowProps(n: Node)
    requires Balanced(n) && |n.keys| >= 1
    ensures Balanced(Grow(n)) && Flatten(Grow(n)) == Flatten(n)
    ensures Height(Grow(n)) == Height(n) + 1
  {
    var top := Node(false, [], [n]);
    Lifted(n);
    SplitChildInOrder(top, 0);
    SplitChildBalanced(top, 0);
  }

  /** A keyless node above n alone holds n's keys, one level higher. */
  lemma Lifted(n: Node)
    requires Balanced(n)
    ensures Balanced(Node(false, [], [n])) && Height(Node(false, [], [n])) == Height(n) + 1
    ensures Flatten(Node(false, [], [n])) == Flatten(n)
  {
    var top := Node(false, [], [n]);
    PartAt(top, 0);
    assert Parts(top) == [Flatten(n)];
  }

  lemma GrowKeyed(n: Node)
    requires WF(n) && |n.keys| >= 3 && forall j :: 0 <= j < |n.children| ==> AllKeyed(n.children[j])
    ensures AllKeyed(Grow(n))
  {
    SplitChildKeyed(Node(false, [], [n]), 0);
  }

  // ---- the concatenation of _merge / _merge_nodes ----

  /**
   * `_merge(parent, idx)` (TP2/b_arbre.py) and the list edits of
   * `_merge_nodes(parent, idx)` (b_arbre_star.py): the child at idx absorbs
   * the separator and every key of its right sibling (and, when it is
   * internal, the sibling's children); the parent loses that separator and
   * that sibling.
   */
  function MergeChildren(p: Node, idx: nat): (r: Node)
    requires idx < |p.keys| && idx + 1 < |p.children|
    ensures r.leaf == p.leaf
    ensures |r.keys| == |p.keys| - 1 && |r.children| == |p.children| - 1
    ensures r.keys == RemoveAt(p.keys, idx)
    ensures r.children[idx].keys == p.children[idx].keys + [p.keys[idx]] + p.children[idx + 1].keys
    ensures r.children[idx].leaf == p.children[idx].leaf
    ensures r.children[..idx] == p.children[..idx] && r.children[idx + 1..] == p.children[idx + 2..]
  {
    var child, sib := p.children[idx], p.children[idx + 1];
    var merged := Node(child.leaf, child.keys + [p.keys[idx]] + sib.keys,
                       if child.leaf then child.children else child.children + sib.children);
    var r := Node(p.leaf, RemoveAt(p.keys, idx), p.children[..idx] + [merged] + p.children[idx + 2..]);
    assert r.children[idx + 1..] == p.children[idx + 2..];
    r
  }

  /** The merged child of a well-formed parent is well formed. */
  lemma MergedChildShape(p: Node, idx: nat)
    requires WF(p) && !p.leaf && idx < |p.keys| && p.children[idx].leaf == p.children[idx + 1].leaf
    ensures WF(MergeChildren(p, idx).children[idx])
    ensures !p.children[idx].leaf ==>
              MergeChildren(p, idx).children[idx].children == p.children[idx].children + p.children[idx + 1].children
  {
    var m := MergeChildren(p, idx).children[idx];
    var c, s := p.children[idx], p.children[idx + 1];
    assert WF(c) && WF(s);
    if !c.leaf {
      forall j | 0 <= j < |m.children| ensures WF(m.children[j]) {
        if j >= |c.children| {
          assert m.children[j] == s.children[j - |c.children|];
        } else {
          assert m.children[j] == c.children[j];
        }
      }
    }
  }

  /** The merged child is the two children joined by the separator. */
  lemma MergedChildFlatten(p: Node, idx: nat)
    requires WF(p) && !p.leaf && idx < |p.keys| && p.children[idx].leaf == p.children[idx + 1].leaf
    ensures Flatten(MergeChildren(p, idx).children[idx])
         == Flatten(p.children[idx]) + [p.keys[idx]] + Flatten(p.children[idx + 1])
  {
    var m := MergeChildren(p, idx).children[idx];
    var c, s := p.children[idx], p.children[idx + 1];
    assert WF(c) && WF(s);
    MergedChildShape(p, idx);
    if !c.leaf {
      PartsConcat(m, c, s);
      WeaveConcat(c.keys, p.keys[idx], s.keys, Parts(c), Parts(s));
    }
  }

  lemma MergeShape(p: Node, idx: nat)
    requires WF(p) && !p.leaf && idx < |p.keys| && p.children[idx].leaf == p.children[idx + 1].leaf
    ensures WF(MergeChildren(p, idx))
  {
    var r := MergeChildren(p, idx);
    MergedChildShape(p, idx);
    forall j | 0 <= j < |r.children| ensures WF(r.children[j]) {
      if j < idx {
        assert r.children[j] == r.children[..idx][j] == p.children[j];
      } else if j > idx {
        assert r.children[j] == r.children[idx + 1..][j - idx - 1] == p.children[j + 1];
      }
    }
  }

  /** Merging keeps the in-order key sequence of the parent. */
  lemma MergeFlatten(p: Node, idx: nat)
    requires WF(p) && !p.leaf && idx < |p.keys| && p.children[idx].leaf == p.children[idx + 1].leaf
    ensures Flatten(MergeChildren(p, idx)) == Flatten(p)
  {
    var r := MergeChildren(p, idx);
    MergeShape(p, idx);
    MergedChildFlatten(p, idx);
    SpreadChild(r, p, idx);
  }

  lemma MergeInOrder(p: Node, idx: nat)
    requires WF(p) && !p.leaf && idx < |p.keys| && p.children[idx].leaf == p.children[idx + 1].leaf
    ensures WF(MergeChildren(p, idx)) && Flatten(MergeChildren(p, idx)) == Flatten(p)
  {
    MergeShape(p, idx);
    MergeFlatten(p, idx);
  }

  /** The merged child keeps the height of the two it replaces, so balance is kept. */
  lemma MergeBalanced(p: Node, idx: nat)
    requires Balanced(p) && !p.leaf && idx < |p.keys|
    ensures p.children[idx].leaf == p.children[idx + 1].leaf
    ensures Balanced(MergeChildren(p, idx)) && Height(MergeChildren(p, idx)) == Height(p)
    ensures Height(MergeChildren(p, idx).children[idx]) == Height(p.children[idx])
  {
    var r := MergeChildren(p, idx);
    LevelOfChildren(p);
    var h := Height(p) - 1;
    MergedChildBalanced(p, idx);
    MergedChildren(p, idx);
    LevelReplacePair(p.children, idx, r.children[idx], h);
    BalancedOverLevel(r, h);
  }

  /** After a merge the children are those before idx, the merged child, and those after idx + 1. */
  lemma MergedChildren(p: Node, idx: nat)
    requires idx < |p.keys| && idx + 1 < |p.children|
    ensures var r := MergeChildren(p, idx);
            r.children == p.children[..idx] + [r.children[idx]] + p.children[idx + 2..]
  {
    var r := MergeChildren(p, idx);
    assert r.children == r.children[..idx] + [r.children[idx]] + r.children[idx + 1..];
  }

  /** Two neighbours of a level replaced by one node of that level leave a level. */
  lemma LevelReplacePair(cs: seq<Node>, idx: nat, m: Node, h: nat)
    requires idx + 1 < |cs| && Level(cs, h) && Balanced(m) && Height(m) == h
    ensures Level(cs[..idx] + [m] + cs[idx + 2..], h)
  {
    LevelSlice(cs, 0, idx, h);
    LevelSlice(cs, idx + 2, |cs|, h);
    assert Level([m], h);
    LevelConcat(cs[..idx], [m], h);
    LevelConcat(cs[..idx] + [m], cs[idx + 2..], h);
  }

  /** The child a merge builds is balanced, as high as the two it replaces. */
  lemma MergedChildBalanced(p: Node, idx: nat)
    requires Balanced(p) && !p.leaf && idx < |p.keys|
    ensures p.children[idx].leaf == p.children[idx + 1].leaf
    ensures Height(p) >= 1 && Height(p.children[idx]) == Height(p) - 1
    ensures Balanced(MergeChildren(p, idx).children[idx])
    ensures Height(MergeChildren(p, idx).children[idx]) == Height(p) - 1
  {
    var C := p.children;
    var c, s := C[idx], C[idx + 1];
    LevelOfChildren(p);
    var h := Height(p) - 1;
    assert Balanced(c) && Balanced(s) && Height(c) == h && Height(s) == h;
    LeafIffLow(c);
    LeafIffLow(s);
    MergedChildShape(p, idx);
    var m := MergeChildren(p, idx).children[idx];
    if !c.leaf {
      LevelOfChildren(c);
      LevelOfChildren(s);
      LevelConcat(c.children, s.children, h - 1);
      BalancedOverLevel(m, h - 1);
    }
  }

  /** Merging two keyed children yields a keyed child of at least three keys. */
  lemma MergeKeyed(p: Node, idx: nat)
    requires WF(p) && !p.leaf && idx < |p.keys| && p.children[idx].leaf == p.children[idx + 1].leaf
    requires forall j :: 0 <= j < |p.children| ==> AllKeyed(p.children[j])
    ensures forall j :: 0 <= j < |MergeChildren(p, idx).children| ==> AllKeyed(MergeChildren(p, idx).children[j])
    ensures |MergeChildren(p, idx).children[idx].keys| >= 3
  {
    var r := MergeChildren(p, idx);
    var c, s := p.children[idx], p.children[idx + 1];
    assert AllKeyed(c) && AllKeyed(s);
    forall j | 0 <= j < |r.children| ensures AllKeyed(r.children[j]) {
      if j < idx {
        assert r.children[j] == r.children[..idx][j] == p.children[j];
      } else if j > idx {
        assert r.children[j] == r.children[idx + 1..][j - idx - 1] == p.children[j + 1];
      } else {
        var m := r.children[idx];
        forall t | 0 <= t < |m.children| ensures AllKeyed(m.children[t]) {
          if t >= |c.children| {
            assert m.children[t] == s.children[t - |c.children|];
          } else {
            assert m.children[t] == c.children[t];
          }
        }
      }
    }
  }

  // ---- one key through a separator: _borrow_from_prev/next and _redistribute ----

  /**
   * The left child j gives its last key up to separator j, whose old key goes
   * down to the front of child j+1; when `carry` holds, the last child of the
   * donor follows to the front of the receiver's children.
   */
  function RotateRight(p: Node, j: nat, carry: bool): (r: Node)
    requires j < |p.keys| && j + 1 < |p.children| && |p.children[j].keys| >= 1
    requires carry ==> |p.children[j].children| >= 1
    ensures r.leaf == p.leaf && |r.children| == |p.children|
    ensures r.keys == p.keys[j := Last(p.children[j].keys)]
    ensures r.children[j].keys + [r.keys[j]] + r.children[j + 1].keys
         == p.children[j].keys + [p.keys[j]] + p.children[j + 1].keys
    ensures |r.children[j].keys| == |p.children[j].keys| - 1
    ensures |r.children[j + 1].keys| == |p.children[j + 1].keys| + 1
    ensures r.children[j].leaf == p.children[j].leaf && r.children[j + 1].leaf == p.children[j + 1].leaf
    ensures r.children[..j] == p.children[..j] && r.children[j + 2..] == p.children[j + 2..]
  {
    var d, c := p.children[j], p.children[j + 1];
    var nk, nc := |d.keys|, |d.children|;
    var d' := Node(d.leaf, d.keys[..nk - 1], if carry then d.children[..nc - 1] else d.children);
    var c' := Node(c.leaf, [p.keys[j]] + c.keys, if carry then [d.children[nc - 1]] + c.children else c.children);
    var r := Node(p.leaf, p.keys[j := d.keys[nk - 1]], p.children[j := d'][j + 1 := c']);
    assert r.children[j] == d' && r.children[j + 1] == c';
    assert d'.keys + [d.keys[nk - 1]] + c'.keys == (d'.keys + [d.keys[nk - 1]]) + [p.keys[j]] + c.keys;
    assert d.keys == d'.keys + [d.keys[nk - 1]];
    assert r.children[..j] == p.children[..j];
    assert r.children[j + 2..] == p.children[j + 2..];
    r
  }

  /**
   * The right child j+1 gives its first key up to separator j, whose old key
   * goes down to the end of child j; when `carry` holds, the first child of
   * the donor follows to the end of the receiver's children.
   */
  function RotateLeft(p: Node, j: nat, carry: bool): (r: Node)
    requires j < |p.keys| && j + 1 < |p.children| && |p.children[j + 1].keys| >= 1
    requires carry ==> |p.children[j + 1].children| >= 1
    ensures r.leaf == p.leaf && |r.children| == |p.children|
    ensures r.keys == p.keys[j := p.children[j + 1].keys[0]]
    ensures r.children[j].keys + [r.keys[j]] + r.children[j + 1].keys
         == p.children[j].keys + [p.keys[j]] + p.children[j + 1].keys
    ensures |r.children[j].keys| == |p.children[j].keys| + 1
    ensures |r.children[j + 1].keys| == |p.children[j + 1].keys| - 1
    ensures r.children[j].leaf == p.children[j].leaf && r.children[j + 1].leaf == p.children[j + 1].leaf
    ensures r.children[..j] == p.children[..j] && r.children[j + 2..] == p.children[j + 2..]
  {
    var c, d := p.children[j], p.children[j + 1];
    var c' := Node(c.leaf, c.keys + [p.keys[j]], if carry then c.children + [d.children[0]] else c.children);
    var d' := Node(d.leaf, d.keys[1..], if carry then d.children[1..] else d.children);
    var r := Node(p.leaf, p.keys[j := d.keys[0]], p.children[j := c'][j + 1 := d']);
    assert r.children[j] == c' && r.children[j + 1] == d';
    assert c'.keys + [d.keys[0]] + d'.keys == c.keys + [p.keys[j]] + ([d.keys[0]] + d'.keys);
    assert d.keys == [d.keys[0]] + d'.keys;
    assert r.children[..j] == p.children[..j];
    assert r.children[j + 2..] == p.children[j + 2..];
    r
  }

  /** The conditions under which a rotation keeps a well-formed parent well formed. */
  predicate Rotatable(p: Node, j: nat, carry: bool) {
    WF(p) && !p.leaf && j < |p.keys| &&
    p.children[j].leaf == p.children[j + 1].leaf && carry == !p.children[j].leaf &&
    (carry ==> |p.children[j].children| == |p.children[j].keys| + 1 &&
               |p.children[j + 1].children| == |p.children[j + 1].keys| + 1)
  }

  /** The two rebuilt children of a right rotation, with their local in-order sequence. */
  lemma RotateRightLocal(p: Node, j: nat, carry: bool)
    requires Rotatable(p, j, carry) && |p.children[j].keys| >= 1
    ensures WF(RotateRight(p, j, carry).children[j]) && WF(RotateRight(p, j, carry).children[j + 1])
    ensures Flatten(RotateRight(p, j, carry).children[j]) + [RotateRight(p, j, carry).keys[j]]
            + Flatten(RotateRight(p, j, carry).children[j + 1])
         == Flatten(p.children[j]) + [p.keys[j]] + Flatten(p.children[j + 1])
    ensures Flatten(RotateRight(p, j, carry).children[j + 1])
         == (if carry then Flatten(Last(p.children[j].children)) else []) + [p.keys[j]] + Flatten(p.children[j + 1])
  {
    var r := RotateRight(p, j, carry);
    var d, c := p.children[j], p.children[j + 1];
    var d', c' := r.children[j], r.children[j + 1];
    assert WF(d) && WF(c);
    if carry {
      var m := d.children[|d.keys|];
      DropLastFlatten(d, d');
      assert WF(m);
      PushFrontFlatten(c, m, p.keys[j], c');
      assert Flatten(d') + [r.keys[j]] + Flatten(c') == (Flatten(d') + [r.keys[j]] + Flatten(m)) + [p.keys[j]] + Flatten(c);
    }
  }

  lemma RotateRightInOrder(p: Node, j: nat, carry: bool)
    requires Rotatable(p, j, carry) && |p.children[j].keys| >= 1
    ensures WF(RotateRight(p, j, carry)) && Flatten(RotateRight(p, j, carry)) == Flatten(p)
  {
    var r := RotateRight(p, j, carry);
    RotateRightLocal(p, j, carry);
    assert WF(r) by {
      forall t | 0 <= t < |r.children| ensures WF(r.children[t]) {
        if t != j && t != j + 1 {
          assert r.children[t] == p.children[t];
        }
      }
    }
    ReplacePair(p, r, j);
  }

  /** The two rebuilt children of a left rotation, with their local in-order sequence. */
  lemma RotateLeftLocal(p: Node, j: nat, carry: bool)
    requires Rotatable(p, j, carry) && |p.children[j + 1].keys| >= 1
    ensures WF(RotateLeft(p, j, carry).children[j]) && WF(RotateLeft(p, j, carry).children[j + 1])
    ensures Flatten(RotateLeft(p, j, carry).children[j]) + [RotateLeft(p, j, carry).keys[j]]
            + Flatten(RotateLeft(p, j, carry).children[j + 1])
         == Flatten(p.children[j]) + [p.keys[j]] + Flatten(p.children[j + 1])
    ensures Flatten(RotateLeft(p, j, carry).children[j])
         == Flatten(p.children[j]) + [p.keys[j]] + (if carry then Flatten(p.children[j + 1].children[0]) else [])
  {
    var r := RotateLeft(p, j, carry);
    var c, d := p.children[j], p.children[j + 1];
    var c', d' := r.children[j], r.children[j + 1];
    assert WF(d) && WF(c);
    if carry {
      var m := d.children[0];
      DropFirstFlatten(d, d');
      assert WF(m);
      PushBackFlatten(c, m, p.keys[j], c');
      assert Flatten(c') + [r.keys[j]] + Flatten(d') == Flatten(c) + [p.keys[j]] + (Flatten(m) + [r.keys[j]] + Flatten(d'));
    }
  }

  lemma RotateLeftInOrder(p: Node, j: nat, carry: bool)
    requires Rotatable(p, j, carry) && |p.children[j + 1].keys| >= 1
    ensures WF(RotateLeft(p, j, carry)) && Flatten(RotateLeft(p, j, carry)) == Flatten(p)
  {
    var r := RotateLeft(p, j, carry);
    RotateLeftLocal(p, j, carry);
    assert WF(r) by {
      forall t | 0 <= t < |r.children| ensures WF(r.children[t]) {
        if t != j && t != j + 1 {
          assert r.children[t] == p.children[t];
        }
      }
    }
    ReplacePair(p, r, j);
  }

  lemma RotateRightBalanced(p: Node, j: nat, carry: bool)
    requires Rotatable(p, j, carry) && Balanced(p) && |p.children[j].keys| >= 1
    ensures Balanced(RotateRight(p, j, carry)) && Height(RotateRight(p, j, carry)) == Height(p)
  {
    var r := RotateRight(p, j, carry);
    LevelOfChildren(p);
    var h := Height(p) - 1;
    RotateRightHalves(p, j, carry);
    LevelUpdatePair(p.children, j, r.children[j], r.children[j + 1], h);
    assert r.children == p.children[j := r.children[j]][j + 1 := r.children[j + 1]];
    BalancedOverLevel(r, h);
  }

  /** The two children a right rotation rebuilds stay balanced at their height. */
  lemma RotateRightHalves(p: Node, j: nat, carry: bool)
    requires Rotatable(p, j, carry) && Balanced(p) && |p.children[j].keys| >= 1
    ensures Height(p) >= 1
    ensures Balanced(RotateRight(p, j, carry).children[j]) && Height(RotateRight(p, j, carry).children[j]) == Height(p) - 1
    ensures Balanced(RotateRight(p, j, carry).children[j + 1]) && Height(RotateRight(p, j, carry).children[j + 1]) == Height(p) - 1
  {
    var r := RotateRight(p, j, carry);
    var d, c := p.children[j], p.children[j + 1];
    var d', c' := r.children[j], r.children[j + 1];
    LevelOfChildren(p);
    var h := Height(p) - 1;
    if carry {
      LevelOfChildren(d);
      LevelOfChildren(c);
      LevelSlice(d.children, 0, |d.keys|, h - 1);
      assert Level([d.children[|d.keys|]], h - 1);
      LevelConcat([d.children[|d.keys|]], c.children, h - 1);
      BalancedOverLevel(d', h - 1);
      BalancedOverLevel(c', h - 1);
    }
  }

  lemma RotateLeftBalanced(p: Node, j: nat, carry: bool)
    requires Rotatable(p, j, carry) && Balanced(p) && |p.children[j + 1].keys| >= 1
    ensures Balanced(RotateLeft(p, j, carry)) && Height(RotateLeft(p, j, carry)) == Height(p)
  {
    var r := RotateLeft(p, j, carry);
    LevelOfChildren(p);
    var h := Height(p) - 1;
    RotateLeftHalves(p, j, carry);
    LevelUpdatePair(p.children, j, r.children[j], r.children[j + 1], h);
    assert r.children == p.children[j := r.children[j]][j + 1 := r.children[j + 1]];
    BalancedOverLevel(r, h);
  }

  /** The two children a left rotation rebuilds stay balanced at their height. */
  lemma RotateLeftHalves(p: Node, j: nat, carry: bool)
    requires Rotatable(p, j, carry) && Balanced(p) && |p.children[j + 1].keys| >= 1
    ensures Height(p) >= 1
    ensures Balanced(RotateLeft(p, j, carry).children[j]) && Height(RotateLeft(p, j, carry).children[j]) == Height(p) - 1
    ensures Balanced(RotateLeft(p, j, carry).children[j + 1]) && Height(RotateLeft(p, j, carry).children[j + 1]) == Height(p) - 1
  {
    var r := RotateLeft(p, j, carry);
    var c, d := p.children[j], p.children[j + 1];
    var c', d' := r.children[j], r.children[j + 1];
    LevelOfChildren(p);
    var h := Height(p) - 1;
    if carry {
      LevelOfChildren(d);
      LevelOfChildren(c);
      LevelSlice(d.children, 1, |d.children|, h - 1);
      assert Level([d.children[0]], h - 1);
      LevelConcat(c.children, [d.children[0]], h - 1);
      BalancedOverLevel(d', h - 1);
      BalancedOverLevel(c', h - 1);
    }
  }

  /** Two neighbours of a level replaced by two nodes of that level leave a level. */
  lemma LevelUpdatePair(cs: seq<Node>, j: nat, a: Node, b: Node, h: nat)
    requires j + 1 < |cs| && Level(cs, h)
    requires Balanced(a) && Height(a) == h && Balanced(b) && Height(b) == h
    ensures Level(cs[j := a][j + 1 := b], h)
  {
    LevelUpdate(cs, j, a, h);
    LevelUpdate(cs[j := a], j + 1, b, h);
  }

  /** A donor of at least two keys leaves every child keyed. */
  lemma RotateRightKeyed(p: Node, j: nat, carry: bool)
    requires Rotatable(p, j, carry) && |p.children[j].keys| >= 2
    requires forall t :: 0 <= t < |p.children| ==> AllKeyed(p.children[t])
    ensures forall t :: 0 <= t < |p.children| ==> AllKeyed(RotateRight(p, j, carry).children[t])
  {
    var r := RotateRight(p, j, carry);
    var d, c := p.children[j], p.children[j + 1];
    assert AllKeyed(d) && AllKeyed(c);
    forall t | 0 <= t < |r.children| ensures AllKeyed(r.children[t]) {
      if t == j {
        var d' := r.children[j];
        forall u | 0 <= u < |d'.children| ensures AllKeyed(d'.children[u]) {
          assert d'.children[u] == d.children[u];
        }
      } else if t == j + 1 {
        var c' := r.children[j + 1];
        forall u | 0 <= u < |c'.children| ensures AllKeyed(c'.children[u]) {
          if carry && u == 0 {
            assert c'.children[0] == d.children[|d.children| - 1];
          } else if carry {
            assert c'.children[u] == c.children[u - 1];
          } else {
            assert c'.children[u] == c.children[u];
          }
        }
      } else {
        assert r.children[t] == p.children[t];
      }
    }
  }

  lemma RotateLeftKeyed(p: Node, j: nat, carry: bool)
    requires Rotatable(p, j, carry) && |p.children[j + 1].keys| >= 2
    requires forall t :: 0 <= t < |p.children| ==> AllKeyed(p.children[t])
    ensures forall t :: 0 <= t < |p.children| ==> AllKeyed(RotateLeft(p, j, carry).children[t])
  {
    var r := RotateLeft(p, j, carry);
    var c, d := p.children[j], p.children[j + 1];
    assert AllKeyed(d) && AllKeyed(c);
    forall t | 0 <= t < |r.children| ensures AllKeyed(r.children[t]) {
      if t == j {
        var c' := r.children[j];
        forall u | 0 <= u < |c'.children| ensures AllKeyed(c'.children[u]) {
          if u < |c.children| {
            assert c'.children[u] == c.children[u];
          } else {
            assert c'.children[u] == d.children[0];
          }
        }
      } else if t == j + 1 {
        var d' := r.children[j + 1];
        forall u | 0 <= u < |d'.children| ensures AllKeyed(d'.children[u]) {
          if carry {
            assert d'.children[u] == d.children[u + 1];
          } else {
            assert d'.children[u] == d.children[u];
          }
        }
      } else {
        assert r.children[t] == p.children[t];
      }
    }
  }

  // ---- shared by the insertions and deletions of both engines ----

  /** Inserting into child i of a sorted node lands at the matching place of the node's sequence. */
  lemma InsertPosition(n: Node, key: int, i: nat)
    requires WF(n) && !n.leaf && Sorted(Flatten(n)) && i == LowerBound(n.keys, key)
    ensures Flatten(n) == Before(n.keys, Parts(n), i) + Flatten(n.children[i]) + After(n.keys, Parts(n), i)
    ensures LowerBound(Flatten(n), key)
         == |Before(n.keys, Parts(n), i)| + LowerBound(Flatten(n.children[i]), key)
  {
    var B, A := Before(n.keys, Parts(n), i), After(n.keys, Parts(n), i);
    var c0 := n.children[i];
    PartAt(n, i);
    WeaveAround(n.keys, Parts(n), i);
    Descend(n, key, i);
    if i < |n.keys| {
      AfterStep(n.keys, Parts(n), i);
    } else {
      assert A == Weave([], [[]]) == [];
    }
    LowerBoundSplit(B, Flatten(c0), A, key);
  }

  /** A child whose sequence gained the key at its place gives a node whose sequence gained it at its place. */
  lemma InsertedChildFlatten(n: Node, key: int, i: nat, c: Node)
    requires WF(n) && !n.leaf && i < |n.children|
    requires LowerBound(Flatten(n), key) == |Before(n.keys, Parts(n), i)| + LowerBound(Flatten(n.children[i]), key)
    requires Flatten(n) == Before(n.keys, Parts(n), i) + Flatten(n.children[i]) + After(n.keys, Parts(n), i)
    requires Flatten(c) == InsertAt(Flatten(n.children[i]), LowerBound(Flatten(n.children[i]), key), key)
    ensures Flatten(n.(children := n.children[i := c])) == InsertAt(Flatten(n), LowerBound(Flatten(n), key), key)
  {
    var c0 := n.children[i];
    var B, A := Before(n.keys, Parts(n), i), After(n.keys, Parts(n), i);
    FlattenReplace(n, i, c);
    InsertThrough(Flatten(n), B, Flatten(c0), A, Flatten(c), LowerBound(Flatten(n), key),
                  LowerBound(Flatten(c0), key), key);
  }

  /** The separators beside position idx, once separator idx is overwritten. */
  lemma RekeyAround(n: Node, idx: nat, x: int)
    requires WF(n) && !n.leaf && idx < |n.keys|
    ensures Before(n.keys[idx := x], Parts(n.(keys := n.keys[idx := x])), idx) == Before(n.keys, Parts(n), idx)
    ensures After(n.keys[idx := x], Parts(n.(keys := n.keys[idx := x])), idx + 1) == After(n.keys, Parts(n), idx + 1)
  {
    var m := n.(keys := n.keys[idx := x]);
    PartsRekey(n, m.keys);
    BeforeCongruent(m.keys, Parts(m), n.keys, Parts(n), idx);
    assert m.keys[idx + 1..] == n.keys[idx + 1..];
    AfterCongruent(m.keys, Parts(m), idx + 1, n.keys, Parts(n), idx + 1);
  }

  /** The in-order sequence of a node read around separator idx. */
  lemma AroundSeparator(n: Node, idx: nat)
    requires WF(n) && !n.leaf && idx < |n.keys|
    ensures Flatten(n) == Before(n.keys, Parts(n), idx) + Flatten(n.children[idx])
                          + ([n.keys[idx]] + Flatten(n.children[idx + 1]) + After(n.keys, Parts(n), idx + 1))
  {
    FlattenAround(n, idx);
    AfterStep(n.keys, Parts(n), idx);
    PartAt(n, idx + 1);
  }

  /**
   * The predecessor walk of both engines (`_get_predecessor` in TP2/b_arbre.py,
   * the inline loop of `_delete_internal` in b_arbre_star.py): the last key of
   * the rightmost leaf below n; indexing
   * an empty child list or an empty leaf raises IndexError.
   */
  function Rightmost(n: Node): Outcome<int>
    decreases n
  {
    if !n.leaf then
      if n.children == [] then Raised(IndexError) else Rightmost(n.children[|n.children| - 1])
    else if n.keys == [] then Raised(IndexError)
    else Ok(n.keys[|n.keys| - 1])
  }

  /** In a keyed subtree the predecessor walk finds the last key of the in-order sequence. */
  lemma {:induction false} RightmostLast(n: Node)
    requires WF(n) && AllKeyed(n)
    ensures |Flatten(n)| >= 1 && Rightmost(n) == Ok(Flatten(n)[|Flatten(n)| - 1])
    decreases n
  {
    if !n.leaf {
      var j := |n.keys|;
      var c := n.children[j];
      RightmostLast(c);
      FlattenAround(n, j);
      assert After(n.keys, Parts(n), j) == Weave([], [[]]) == [];
    }
  }
}
