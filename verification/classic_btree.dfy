/**
 * The classic B-tree of TP2/b_arbre.py (class `bTree`): order-derived sizes,
 * recursive search, insertion that splits after the insert and propagates
 * the split upwards, and deletion that substitutes the predecessor or the
 * successor and, before descending, borrows from a sibling or merges.
 *
 * The parent back-links b_arbre.py uses to propagate a split upwards are
 * replaced by the recursion: a call reports to its caller whether the node it
 * returns overflowed, and the caller splits it (`_handle_split_up`).
 */
module ClassicBTree {
  import opened Common
  import opened Multiway
  import opened Surgery

  // ---- sizes ----

  /** The sizes `bTree.__init__` derives from the order. */
  datatype Sizes = Sizes(order: int, d: nat, minKeys: nat, maxKeys: nat)

  /** `bTree.__init__`: orders below 3 are refused; otherwise d = (order - 1) // 2. */
  function MakeSizes(order: int): (r: Outcome<Sizes>)
    ensures r.Raised? <==> order < 3
    ensures r.Raised? ==> r.fault == ValueError
    ensures r.Ok? ==> r.value.order == order && r.value.d >= 1 &&
                      r.value.minKeys == r.value.d && r.value.maxKeys == 2 * r.value.d &&
                      r.value.maxKeys <= order - 1 <= r.value.maxKeys + 1
  {
    if order < 3 then Raised(ValueError)
    else
      var d := (order - 1) / 2;
      Ok(Sizes(order, d, d, 2 * d))
  }

  // ---- search ----

  /**
   * The scan `while i < len(keys) and k > keys[i]: i += 1` of `search`,
   * `_insert_non_full` and `_find_key_index`.
   */
  method FindKeyIndex(keys: seq<int>, k: int) returns (idx: nat)
    ensures idx <= |keys|
    ensures forall j :: 0 <= j < idx ==> keys[j] < k
    ensures idx < |keys| ==> k <= keys[idx]
    ensures idx == LowerBound(keys, k)
  {
    idx := 0;
    while idx < |keys| && keys[idx] < k
      invariant idx <= |keys|
      invariant forall j :: 0 <= j < idx ==> keys[j] < k
    {
      idx := idx + 1;
    }
    LowerBoundUnique(keys, k, idx);
  }

  /**
   * `search(k, node)`: the node and position holding k, found by descending
   * at the first key not below k.
   */
  function SearchNode(n: Node, k: int): (r: Option<(Node, nat)>)
    requires WF(n)
    decreases n
    ensures r.Some? ==> r.value.1 < |r.value.0.keys| && r.value.0.keys[r.value.1] == k
  {
    var i := LowerBound(n.keys, k);
    if i < |n.keys| && n.keys[i] == k then Some((n, i))
    else if n.leaf then None
    else SearchNode(n.children[i], k)
  }

  /** On a tree whose keys are in order, search finds k exactly when the tree holds it. */
  lemma {:induction false} SearchNodeComplete(n: Node, k: int)
    requires WF(n) && Sorted(Flatten(n))
    ensures SearchNode(n, k).Some? <==> k in Flatten(n)
    decreases n
  {
    var i := LowerBound(n.keys, k);
    if i < |n.keys| && n.keys[i] == k {
      KeysInFlatten(n);
    } else if n.leaf {
      assert k !in n.keys by {
        forall j | 0 <= j < |n.keys| ensures n.keys[j] != k {
          if j >= i {
            assert n.keys[i] <= n.keys[j];
          }
        }
      }
    } else {
      ChildSorted(n, i);
      Descend(n, k, i);
      SearchNodeComplete(n.children[i], k);
    }
  }

  // ---- insertion ----

  /**
   * `_insert_non_full(node, key)` with the split propagation of
   * `_handle_split_up`: the key goes into the leaf before the first key not
   * below it; the flag tells the caller that the returned node holds more
   * than maxKeys keys and is to be split by its parent (or by a new root).
   */
  function InsertRec(n: Node, key: int, maxKeys: nat): (r: (Node, bool))
    requires WF(n)
    decreases n
    ensures r.1 ==> |r.0.keys| > maxKeys
    ensures r.0.leaf == n.leaf
  {
    var i := LowerBound(n.keys, key);
    if n.leaf then
      var keys := InsertAt(n.keys, i, key);
      (n.(keys := keys), |keys| > maxKeys)
    else
      var (c, s) := InsertRec(n.children[i], key, maxKeys);
      var n1 := n.(children := n.children[i := c]);
      if s then
        var n2 := SplitChild(n1, i);
        (n2, |n2.keys| > maxKeys)
      else
        (n1, false)
  }

  /**
   * `insert(key)` on a present root: the recursive insert, the root split of
   * `_handle_split_up` when the root itself overflowed, then the check of
   * `insert` that splits a root still holding more than maxKeys keys.
   */
  function InsertTop(root: Node, key: int, maxKeys: nat): (r: Node)
    requires WF(root)
  {
    var (r1, s) := InsertRec(root, key, maxKeys);
    var r2 := if s then Grow(r1) else r1;
    if |r2.keys| > maxKeys then Grow(r2) else r2
  }

  /** What the engines keep true of a root: shape, balance, order and keyed inner nodes. */
  predicate RootShape(n: Node) {
    Balanced(n) && Sorted(Flatten(n)) && (n.leaf || AllKeyed(n))
  }

  /** Every child subtree of n holds a key in each of its nodes. */
  predicate ChildrenKeyed(n: Node) {
    forall j :: 0 <= j < |n.children| ==> AllKeyed(n.children[j])
  }

  lemma KeyedChildren(n: Node)
    requires AllKeyed(n)
    ensures ChildrenKeyed(n)
  {
  }

  /** Child i replaced by its insert result, before any split. */
  lemma {:induction false} ChildInserted(n: Node, key: int, maxKeys: nat, i: nat, c: Node)
    requires Balanced(n) && !n.leaf && Sorted(Flatten(n)) && maxKeys >= 2 && ChildrenKeyed(n)
    requires i == LowerBound(n.keys, key) && c == InsertRec(n.children[i], key, maxKeys).0
    ensures Balanced(n.(children := n.children[i := c]))
    ensures Height(n.(children := n.children[i := c])) == Height(n)
    ensures Flatten(n.(children := n.children[i := c])) == InsertAt(Flatten(n), LowerBound(Flatten(n), key), key)
    ensures ChildrenKeyed(n.(children := n.children[i := c]))
    decreases n, 0
  {
    var c0 := n.children[i];
    ChildSorted(n, i);
    assert AllKeyed(c0);
    KeyedChildren(c0);
    InsertRecCorrect(c0, key, maxKeys);
    ReplaceBalanced(n, i, c);
    InsertPosition(n, key, i);
    InsertedChildFlatten(n, key, i, c);
  }

  /** Inserting below an internal node, at child i, then splitting it if it overflowed. */
  lemma {:induction false} InsertRecInner(n: Node, key: int, maxKeys: nat)
    requires Balanced(n) && !n.leaf && Sorted(Flatten(n)) && maxKeys >= 2 && ChildrenKeyed(n)
    ensures Balanced(InsertRec(n, key, maxKeys).0)
    ensures Height(InsertRec(n, key, maxKeys).0) == Height(n)
    ensures Flatten(InsertRec(n, key, maxKeys).0) == InsertAt(Flatten(n), LowerBound(Flatten(n), key), key)
    ensures |InsertRec(n, key, maxKeys).0.keys| >= |n.keys|
    ensures ChildrenKeyed(InsertRec(n, key, maxKeys).0)
    decreases n, 1
  {
    var i := LowerBound(n.keys, key);
    var (c, s) := InsertRec(n.children[i], key, maxKeys);
    var n1 := n.(children := n.children[i := c]);
    ChildInserted(n, key, maxKeys, i, c);
    if s {
      SplitChildInOrder(n1, i);
      SplitChildBalanced(n1, i);
      SplitChildKeyed(n1, i);
    }
  }

  /** The recursive insert puts the key at its sorted place and keeps the tree balanced. */
  lemma {:induction false} InsertRecCorrect(n: Node, key: int, maxKeys: nat)
    requires Balanced(n) && Sorted(Flatten(n)) && maxKeys >= 2 && ChildrenKeyed(n)
    ensures Balanced(InsertRec(n, key, maxKeys).0)
    ensures Height(InsertRec(n, key, maxKeys).0) == Height(n)
    ensures Flatten(InsertRec(n, key, maxKeys).0) == InsertAt(Flatten(n), LowerBound(Flatten(n), key), key)
    ensures |InsertRec(n, key, maxKeys).0.keys| >= |n.keys|
    ensures ChildrenKeyed(InsertRec(n, key, maxKeys).0)
    decreases n, 2
  {
    if !n.leaf {
      InsertRecInner(n, key, maxKeys);
    }
  }

  /**
   * Insertion into a present root puts the key before the first key not
   * below it in the in-order sequence, keeps the root shape, and grows the
   * height by at most one, always through a fresh one-key root.
   */
  lemma InsertTopCorrect(root: Node, key: int, maxKeys: nat)
    requires RootShape(root) && maxKeys >= 2
    ensures RootShape(InsertTop(root, key, maxKeys))
    ensures Flatten(InsertTop(root, key, maxKeys))
         == InsertAt(Flatten(root), LowerBound(Flatten(root), key), key)
    ensures Height(InsertTop(root, key, maxKeys)) == Height(root) ||
            (Height(InsertTop(root, key, maxKeys)) == Height(root) + 1 && |InsertTop(root, key, maxKeys).keys| == 1)
  {
    var (r1, s) := InsertRec(root, key, maxKeys);
    if !root.leaf {
      KeyedChildren(root);
    }
    InsertRecCorrect(root, key, maxKeys);
    InsertSorted(Flatten(root), key);
    assert r1.leaf || AllKeyed(r1);
    var r2 := if s then Grow(r1) else r1;
    if s {
      GrowProps(r1);
      GrowKeyed(r1);
    }
    assert RootShape(r2);
    if |r2.keys| > maxKeys {
      assert !s;
      GrowProps(r2);
      if !r2.leaf {
        KeyedChildren(r2);
      }
      GrowKeyed(r2);
    }
  }

  // ---- deletion ----

  /** `_get_successor`: the first key of the leftmost leaf below n. */
  function Leftmost(n: Node): Outcome<int>
    decreases n
  {
    if !n.leaf then
      if n.children == [] then Raised(IndexError) else Leftmost(n.children[0])
    else if n.keys == [] then Raised(IndexError)
    else Ok(n.keys[0])
  }

  /** The walk of `_get_predecessor` down the last children. */
  method GetPredecessor(n: Node) returns (r: Outcome<int>)
    ensures r == Rightmost(n)
  {
    var cur := n;
    while !cur.leaf
      invariant Rightmost(cur) == Rightmost(n)
      decreases cur
    {
      if cur.children == [] {
        return Raised(IndexError);
      }
      cur := cur.children[|cur.children| - 1];
    }
    if cur.keys == [] {
      return Raised(IndexError);
    }
    return Ok(cur.keys[|cur.keys| - 1]);
  }

  /** The walk of `_get_successor` down the first children. */
  method GetSuccessor(n: Node) returns (r: Outcome<int>)
    ensures r == Leftmost(n)
  {
    var cur := n;
    while !cur.leaf
      invariant Leftmost(cur) == Leftmost(n)
      decreases cur
    {
      if cur.children == [] {
        return Raised(IndexError);
      }
      cur := cur.children[0];
    }
    if cur.keys == [] {
      return Raised(IndexError);
    }
    return Ok(cur.keys[0]);
  }

  /** In a keyed subtree the successor walk finds the first key of the in-order sequence. */
  lemma {:induction false} LeftmostFirst(n: Node)
    requires WF(n) && AllKeyed(n)
    ensures |Flatten(n)| >= 1 && Leftmost(n) == Ok(Flatten(n)[0])
    decreases n
  {
    if !n.leaf {
      var c := n.children[0];
      LeftmostFirst(c);
      FlattenAround(n, 0);
      assert Before(n.keys, Parts(n), 0) == Weave([], [[]]) == [];
    }
  }

  /** `_borrow_from_prev(parent, idx)`: child idx takes a key through separator idx-1 from its left sibling. */
  function BorrowFromPrev(p: Node, idx: nat): (r: Node)
    requires Balanced(p) && !p.leaf && 0 < idx < |p.children| && |p.children[idx - 1].keys| >= 1
    ensures |r.keys| == |p.keys| && |r.children| == |p.children|
    ensures |r.children[idx].keys| == |p.children[idx].keys| + 1
    ensures |r.children[idx - 1].keys| == |p.children[idx - 1].keys| - 1
    ensures r.children[idx - 1].keys + [r.keys[idx - 1]] + r.children[idx].keys
         == p.children[idx - 1].keys + [p.keys[idx - 1]] + p.children[idx].keys
    ensures r.children[idx].keys[0] == p.keys[idx - 1]
  {
    assert WF(p.children[idx - 1]);
    RotateRight(p, idx - 1, !p.children[idx - 1].leaf)
  }

  /** `_borrow_from_next(parent, idx)`: child idx takes a key through separator idx from its right sibling. */
  function BorrowFromNext(p: Node, idx: nat): (r: Node)
    requires Balanced(p) && !p.leaf && idx + 1 < |p.children| && |p.children[idx + 1].keys| >= 1
    ensures |r.keys| == |p.keys| && |r.children| == |p.children|
    ensures |r.children[idx].keys| == |p.children[idx].keys| + 1
    ensures |r.children[idx + 1].keys| == |p.children[idx + 1].keys| - 1
    ensures r.children[idx].keys + [r.keys[idx]] + r.children[idx + 1].keys
         == p.children[idx].keys + [p.keys[idx]] + p.children[idx + 1].keys
    ensures Last(r.children[idx].keys) == p.keys[idx]
  {
    assert WF(p.children[idx + 1]);
    RotateLeft(p, idx, !p.children[idx + 1].leaf)
  }

  /** In a balanced parent, two neighbouring children can exchange a key and, when internal, a child. */
  lemma RotatableOf(p: Node, j: nat)
    requires Balanced(p) && !p.leaf && j < |p.keys|
    ensures Rotatable(p, j, !p.children[j].leaf)
  {
    LevelOfChildren(p);
    var c, s := p.children[j], p.children[j + 1];
    LeafIffLow(c);
    LeafIffLow(s);
  }

  /** Replacing the keys of a node by as many others keeps its balance. */
  lemma RekeyBalanced(n: Node, keys: seq<int>)
    requires Balanced(n) && |keys| == |n.keys|
    ensures Balanced(n.(keys := keys)) && Height(n.(keys := keys)) == Height(n)
  {
  }

  /**
   * `_delete_internal(node, k)`: a leaf holding k drops it, a leaf without k
   * is left alone, and an internal node goes on as below.
   */
  function DeleteFrom(n: Node, k: int, d: nat): (r: Outcome<Node>)
    requires Balanced(n)
    decreases Height(n), 3
  {
    var idx := LowerBound(n.keys, k);
    if idx < |n.keys| && n.keys[idx] == k then
      if n.leaf then Ok(n.(keys := RemoveAt(n.keys, idx))) else DeleteFound(n, idx, k, d)
    else if n.leaf then Ok(n)
    else DeleteMissing(n, idx, k, d)
  }

  /**
   * k is separator idx of an internal node: it is replaced by its predecessor
   * or successor taken from a child holding more than d keys, which is then
   * deleted below; otherwise the two children around k are merged and k is
   * deleted from the merged child.
   */
  function DeleteFound(n: Node, idx: nat, k: int, d: nat): (r: Outcome<Node>)
    requires Balanced(n) && !n.leaf && idx < |n.keys|
    decreases Height(n), 2
  {
    LevelOfChildren(n);
    var left, right := n.children[idx], n.children[idx + 1];
    if |left.keys| > d then
      match Rightmost(left)
      case Raised(f) => Raised(f)
      case Ok(pred) =>
        RekeyBalanced(n, n.keys[idx := pred]);
        DescendInto(n.(keys := n.keys[idx := pred]), idx, pred, d)
    else if |right.keys| > d then
      match Leftmost(right)
      case Raised(f) => Raised(f)
      case Ok(succ) =>
        RekeyBalanced(n, n.keys[idx := succ]);
        DescendInto(n.(keys := n.keys[idx := succ]), idx + 1, succ, d)
    else
      MergeBalanced(n, idx);
      DescendInto(MergeChildren(n, idx), idx, k, d)
  }

  /**
   * k is not in the internal node n and idx is the child to descend into:
   * a child holding at most d keys first borrows from its left sibling, else
   * from its right sibling, when that sibling holds more than d keys;
   * otherwise it is merged with its right sibling, or with its left one when
   * it is the last child.
   */
  function DeleteMissing(n: Node, idx: nat, k: int, d: nat): (r: Outcome<Node>)
    requires Balanced(n) && !n.leaf && idx < |n.children|
    decreases Height(n), 2
  {
    LevelOfChildren(n);
    match RefillOf(n, idx, d)
    case Enough => DescendInto(n, idx, k, d)
    case FromPrev =>
      RotatableOf(n, idx - 1);
      RotateRightBalanced(n, idx - 1, !n.children[idx - 1].leaf);
      LevelOfChildren(BorrowFromPrev(n, idx));
      DescendInto(BorrowFromPrev(n, idx), idx, k, d)
    case FromNext =>
      RotatableOf(n, idx);
      RotateLeftBalanced(n, idx, !n.children[idx].leaf);
      LevelOfChildren(BorrowFromNext(n, idx));
      DescendInto(BorrowFromNext(n, idx), idx, k, d)
    case MergeWith(t) =>
      MergeBalanced(n, t);
      DescendInto(MergeChildren(n, t), t, k, d)
    case NoSeparator =>
      // `_merge(node, -1)` reads the separator `keys[-1]` of a node without keys
      Raised(IndexError)
  }

  /** How the child about to receive the descent is refilled first. */
  datatype Refill = Enough | FromPrev | FromNext | MergeWith(t: nat) | NoSeparator

  /**
   * The choice of `_delete_internal` for the child at idx, made from the
   * sizes of the child and its siblings alone: a child holding more than d
   * keys is left alone; otherwise a sibling holding more than d keys lends
   * one, and failing that the child is merged with a neighbour, which only
   * a lone child lacks.
   */
  function RefillOf(n: Node, idx: nat, d: nat): (r: Refill)
    requires idx < |n.children|
    ensures r.Enough? <==> |n.children[idx].keys| > d
    ensures r.FromPrev? ==> idx > 0 && |n.children[idx - 1].keys| > d
    ensures r.FromNext? ==> idx + 1 < |n.children| && |n.children[idx + 1].keys| > d
    ensures r.MergeWith? ==> r.t + 1 < |n.children| && (r.t == idx || r.t + 1 == idx)
    ensures r.NoSeparator? <==> |n.children| == 1 && |n.children[idx].keys| <= d
  {
    if |n.children[idx].keys| > d then Enough
    else if idx > 0 && |n.children[idx - 1].keys| > d then FromPrev
    else if idx < |n.children| - 1 && |n.children[idx + 1].keys| > d then FromNext
    else if idx < |n.children| - 1 then MergeWith(idx)
    else if idx == 0 then NoSeparator
    else MergeWith(idx - 1)
  }

  /** The recursive call `_delete_internal(m.children[j], k)`, with the rebuilt child put back. */
  function DescendInto(m: Node, j: nat, k: int, d: nat): (r: Outcome<Node>)
    requires Balanced(m) && !m.leaf && j < |m.children|
    decreases Height(m.children[j]), 4
  {
    match DeleteFrom(m.children[j], k, d)
    case Raised(f) => Raised(f)
    case Ok(c) => Ok(m.(children := m.children[j := c]))
  }

  // ---- deletion: correctness ----

  /** What a deletion below the root may assume of the subtree it starts from. */
  predicate Ready(n: Node, d: nat) {
    Balanced(n) && StrictlySorted(Flatten(n)) && d >= 1 && ChildrenKeyed(n)
  }

  /**
   * What a deletion below n achieves: no exception, the shape, height and
   * kind of node kept, exactly the occurrences of k gone from the in-order
   * sequence, at most one key fewer in the node, and every child still keyed.
   */
  predicate Deleted(n: Node, k: int, r: Outcome<Node>) {
    r.Ok? && Balanced(r.value) && Height(r.value) == Height(n) && r.value.leaf == n.leaf &&
    Flatten(r.value) == Without(Flatten(n), k) && |r.value.keys| + 1 >= |n.keys| && ChildrenKeyed(r.value)
  }

  /** The recursive call deletes k from child j and leaves the rest of m as it was. */
  lemma {:induction false} DescendIntoCorrect(m: Node, j: nat, k: int, d: nat)
    requires Balanced(m) && !m.leaf && j < |m.children| && d >= 1 && ChildrenKeyed(m)
    requires StrictlySorted(Flatten(m.children[j])) && |m.children[j].keys| >= 2
    ensures DescendInto(m, j, k, d).Ok?
    ensures Balanced(DescendInto(m, j, k, d).value)
    ensures Height(DescendInto(m, j, k, d).value) == Height(m)
    ensures DescendInto(m, j, k, d).value.keys == m.keys && !DescendInto(m, j, k, d).value.leaf
    ensures ChildrenKeyed(DescendInto(m, j, k, d).value)
    ensures Flatten(DescendInto(m, j, k, d).value)
         == Before(m.keys, Parts(m), j) + Without(Flatten(m.children[j]), k) + After(m.keys, Parts(m), j)
    decreases Height(m.children[j]), 4
  {
    var c0 := m.children[j];
    assert AllKeyed(c0) && Balanced(c0);
    KeyedChildren(c0);
    DeleteFromCorrect(c0, k, d);
    var c := DeleteFrom(c0, k, d).value;
    assert AllKeyed(c);
    ReplaceBalanced(m, j, c);
    FlattenReplace(m, j, c);
  }

  /**
   * Descending into a child m.children[j] of a rebuilt node m that keeps n's
   * in-order sequence, when that child holds every occurrence of k.
   */
  lemma {:induction false} DescendThrough(n: Node, m: Node, j: nat, k: int, d: nat)
    requires Ready(n, d) && !n.leaf
    requires Balanced(m) && !m.leaf && j < |m.children| && Height(m) == Height(n) && Flatten(m) == Flatten(n)
    requires ChildrenKeyed(m) && |m.children[j].keys| >= 2 && |m.keys| + 1 >= |n.keys|
    requires k in Flatten(m) ==> k in Flatten(m.children[j])
    ensures Deleted(n, k, DescendInto(m, j, k, d))
    decreases Height(n), 0
  {
    LevelOfChildren(m);
    ChildStrictlySorted(m, j);
    DescendIntoCorrect(m, j, k, d);
    FlattenAround(m, j);
    WithoutInside(Before(m.keys, Parts(m), j), Flatten(m.children[j]), After(m.keys, Parts(m), j), k);
  }

  /** Found case with a rich left child: k is overwritten by its predecessor, which is deleted below. */
  lemma {:induction false} PredecessorCase(n: Node, idx: nat, k: int, d: nat, pred: int)
    requires Ready(n, d) && !n.leaf && idx < |n.keys| && n.keys[idx] == k
    requires |n.children[idx].keys| >= 2 && Rightmost(n.children[idx]) == Ok(pred)
    ensures Balanced(n.(keys := n.keys[idx := pred]))
    ensures Deleted(n, k, DescendInto(n.(keys := n.keys[idx := pred]), idx, pred, d))
    decreases Height(n), 1
  {
    var left, right := n.children[idx], n.children[idx + 1];
    var m := n.(keys := n.keys[idx := pred]);
    LevelOfChildren(n);
    assert AllKeyed(left);
    RightmostLast(left);
    var L := Flatten(left);
    var l := L[..|L| - 1];
    assert L == l + [pred];
    ChildStrictlySorted(n, idx);
    RekeyBalanced(n, m.keys);
    DescendIntoCorrect(m, idx, pred, d);
    var B, A := Before(n.keys, Parts(n), idx), After(n.keys, Parts(n), idx + 1);
    AroundSeparator(n, idx);
    RekeyAround(n, idx, pred);
    AfterStep(m.keys, Parts(m), idx);
    PartAt(m, idx + 1);
    PredecessorSwap(B, l, pred, k, Flatten(right), A);
  }

  /** Found case with a rich right child: k is overwritten by its successor, which is deleted below. */
  lemma {:induction false} SuccessorCase(n: Node, idx: nat, k: int, d: nat, succ: int)
    requires Ready(n, d) && !n.leaf && idx < |n.keys| && n.keys[idx] == k
    requires |n.children[idx + 1].keys| >= 2 && Leftmost(n.children[idx + 1]) == Ok(succ)
    ensures Balanced(n.(keys := n.keys[idx := succ]))
    ensures Deleted(n, k, DescendInto(n.(keys := n.keys[idx := succ]), idx + 1, succ, d))
    decreases Height(n), 1
  {
    var left, right := n.children[idx], n.children[idx + 1];
    var m := n.(keys := n.keys[idx := succ]);
    LevelOfChildren(n);
    assert AllKeyed(right);
    LeftmostFirst(right);
    var R := Flatten(right);
    var rr := R[1..];
    assert R == [succ] + rr;
    ChildStrictlySorted(n, idx + 1);
    RekeyBalanced(n, m.keys);
    DescendIntoCorrect(m, idx + 1, succ, d);
    var B, A := Before(n.keys, Parts(n), idx), After(n.keys, Parts(n), idx + 1);
    AroundSeparator(n, idx);
    RekeyAround(n, idx, succ);
    BeforeStep(m.keys, Parts(m), idx);
    PartAt(m, idx);
    SuccessorSwap(B, Flatten(left), k, succ, rr, A);
  }

  /**
   * Merging children t and t+1 and descending into the merged child, when
   * every occurrence of k lies in the two children or their separator.
   */
  lemma {:induction false} MergeCase(n: Node, t: nat, k: int, d: nat)
    requires Ready(n, d) && !n.leaf && t < |n.keys|
    requires k in Flatten(n) ==> k in Flatten(n.children[t]) + [n.keys[t]] + Flatten(n.children[t + 1])
    ensures Balanced(MergeChildren(n, t))
    ensures Deleted(n, k, DescendInto(MergeChildren(n, t), t, k, d))
    decreases Height(n), 1
  {
    var m := MergeChildren(n, t);
    MergeBalanced(n, t);
    MergeInOrder(n, t);
    MergeKeyed(n, t);
    MergedChildFlatten(n, t);
    DescendThrough(n, m, t, k, d);
  }

  /** A child holding every occurrence of k, refilled from its left sibling. */
  lemma {:induction false} BorrowPrevCase(n: Node, idx: nat, k: int, d: nat)
    requires Ready(n, d) && !n.leaf && 0 < idx < |n.children| && |n.children[idx - 1].keys| > d
    requires k in Flatten(n) ==> k in Flatten(n.children[idx])
    ensures Balanced(BorrowFromPrev(n, idx))
    ensures Deleted(n, k, DescendInto(BorrowFromPrev(n, idx), idx, k, d))
    decreases Height(n), 1
  {
    var carry := !n.children[idx - 1].leaf;
    RotatableOf(n, idx - 1);
    var m := BorrowFromPrev(n, idx);
    assert m == RotateRight(n, idx - 1, carry);
    RotateRightBalanced(n, idx - 1, carry);
    RotateRightInOrder(n, idx - 1, carry);
    RotateRightKeyed(n, idx - 1, carry);
    RotateRightLocal(n, idx - 1, carry);
    assert AllKeyed(n.children[idx]);
    DescendThrough(n, m, idx, k, d);
  }

  /** A child holding every occurrence of k, refilled from its right sibling. */
  lemma {:induction false} BorrowNextCase(n: Node, idx: nat, k: int, d: nat)
    requires Ready(n, d) && !n.leaf && idx + 1 < |n.children| && |n.children[idx + 1].keys| > d
    requires k in Flatten(n) ==> k in Flatten(n.children[idx])
    ensures Balanced(BorrowFromNext(n, idx))
    ensures Deleted(n, k, DescendInto(BorrowFromNext(n, idx), idx, k, d))
    decreases Height(n), 1
  {
    var carry := !n.children[idx].leaf;
    RotatableOf(n, idx);
    var m := BorrowFromNext(n, idx);
    assert m == RotateLeft(n, idx, carry);
    RotateLeftBalanced(n, idx, carry);
    RotateLeftInOrder(n, idx, carry);
    RotateLeftKeyed(n, idx, carry);
    RotateLeftLocal(n, idx, carry);
    assert AllKeyed(n.children[idx]);
    DescendThrough(n, m, idx, k, d);
  }

  lemma {:induction false} DeleteFoundCorrect(n: Node, idx: nat, k: int, d: nat)
    requires Ready(n, d) && !n.leaf && idx < |n.keys| && n.keys[idx] == k
    ensures Deleted(n, k, DeleteFound(n, idx, k, d))
    decreases Height(n), 2
  {
    LevelOfChildren(n);
    var left, right := n.children[idx], n.children[idx + 1];
    if |left.keys| > d {
      assert AllKeyed(left);
      RightmostLast(left);
      PredecessorCase(n, idx, k, d, Flatten(left)[|Flatten(left)| - 1]);
    } else if |right.keys| > d {
      assert AllKeyed(right);
      LeftmostFirst(right);
      SuccessorCase(n, idx, k, d, Flatten(right)[0]);
    } else {
      MergeCase(n, idx, k, d);
    }
  }

  lemma {:induction false} DeleteMissingCorrect(n: Node, idx: nat, k: int, d: nat)
    requires Ready(n, d) && !n.leaf && |n.keys| >= 1
    requires idx == LowerBound(n.keys, k) && !(idx < |n.keys| && n.keys[idx] == k)
    ensures Deleted(n, k, DeleteMissing(n, idx, k, d))
    decreases Height(n), 2, 1
  {
    LevelOfChildren(n);
    StrictlySortedIsSorted(Flatten(n));
    Descend(n, k, idx);
    assert k in Flatten(n) ==> k in Flatten(n.children[idx]);
    if |n.children[idx].keys| <= d {
      ShortChildCase(n, idx, k, d);
    } else {
      assert AllKeyed(n.children[idx]);
      DescendThrough(n, n, idx, k, d);
    }
  }

  /** The child that would receive the descent holds only d keys: it borrows or merges first. */
  lemma {:induction false} ShortChildCase(n: Node, idx: nat, k: int, d: nat)
    requires Ready(n, d) && !n.leaf && |n.keys| >= 1 && idx < |n.children| && |n.children[idx].keys| <= d
    requires k in Flatten(n) ==> k in Flatten(n.children[idx])
    ensures Deleted(n, k, DeleteMissing(n, idx, k, d))
    decreases Height(n), 2, 0
  {
    var r := RefillOf(n, idx, d);
    if r.FromPrev? {
      BorrowPrevCase(n, idx, k, d);
    } else if r.FromNext? {
      BorrowNextCase(n, idx, k, d);
    } else {
      assert r.MergeWith?;
      MergeCase(n, r.t, k, d);
    }
  }

  /**
   * On a subtree whose in-order sequence is strictly increasing and whose
   * nodes below hold keys, deletion succeeds, keeps the balance and the
   * height, and removes exactly k from the in-order sequence.
   */
  lemma {:induction false} DeleteFromCorrect(n: Node, k: int, d: nat)
    requires Ready(n, d) && (n.leaf || |n.keys| >= 1)
    ensures Deleted(n, k, DeleteFrom(n, k, d))
    decreases Height(n), 3
  {
    var idx := LowerBound(n.keys, k);
    if idx < |n.keys| && n.keys[idx] == k {
      if n.leaf {
        WithoutAt(n.keys, idx);
      } else {
        DeleteFoundCorrect(n, idx, k, d);
      }
    } else if n.leaf {
      StrictlySortedIsSorted(n.keys);
      LowerBoundAbsent(n.keys, k);
      WithoutAbsent(n.keys, k);
    } else {
      DeleteMissingCorrect(n, idx, k, d);
    }
  }

  // ---- the tree ----

  /** The keys of a tree whose root may be missing. */
  function Keys(t: Option<Node>): seq<int> {
    match t
    case None => []
    case Some(n) => Flatten(n)
  }

  /** A missing root, or a root of the shape the engine keeps. */
  predicate Shaped(t: Option<Node>) {
    t.Some? ==> RootShape(t.value)
  }

  /**
   * `delete(k)`: nothing on a missing root; otherwise the recursive delete,
   * after which a root left without keys is dropped if it is a leaf and
   * replaced by its first child otherwise.
   */
  function DeleteTop(root: Option<Node>, k: int, d: nat): (r: Outcome<Option<Node>>)
    requires root.Some? ==> Balanced(root.value)
  {
    match root
    case None => Ok(None)
    case Some(n) =>
      match DeleteFrom(n, k, d)
      case Raised(f) => Raised(f)
      case Ok(n') =>
        if |n'.keys| != 0 then Ok(Some(n'))
        else if n'.leaf then Ok(None)
        else if n'.children == [] then Raised(IndexError)
        else Ok(Some(n'.children[0]))
  }

  /**
   * On a tree whose keys are strictly increasing, deletion succeeds, keeps
   * the root shape and removes exactly k; the tree becomes empty only when
   * its last key goes.
   */
  lemma DeleteTopCorrect(root: Option<Node>, k: int, d: nat)
    requires Shaped(root) && StrictlySorted(Keys(root)) && d >= 1
    ensures DeleteTop(root, k, d).Ok?
    ensures Shaped(DeleteTop(root, k, d).value)
    ensures Keys(DeleteTop(root, k, d).value) == Without(Keys(root), k)
    ensures StrictlySorted(Keys(DeleteTop(root, k, d).value))
    ensures DeleteTop(root, k, d).value.None? ==> root.None? || Without(Keys(root), k) == []
  {
    WithoutSorted(Keys(root), k);
    if root.Some? {
      var n := root.value;
      if !n.leaf {
        KeyedChildren(n);
      }
      DeleteFromCorrect(n, k, d);
      var n' := DeleteFrom(n, k, d).value;
      StrictlySortedIsSorted(Flatten(n'));
      if |n'.keys| == 0 && !n'.leaf {
        var c := n'.children[0];
        LevelOfChildren(n');
        FlattenAround(n', 0);
        assert Before(n'.keys, Parts(n'), 0) == Weave([], [[]]) == [];
        assert After(n'.keys, Parts(n'), 0) == Weave([], [[]]) == [];
        assert AllKeyed(c);
        if !c.leaf {
          KeyedChildren(c);
        }
      }
    }
  }

  /** `bTree`: the sizes fixed at construction and a root that `delete` may clear. */
  class BTree {
    const sizes: Sizes
    var root: Option<Node>

    /** Sizes derived from the order, and a root of the engine's shape when present. */
    ghost predicate Valid()
      reads this
    {
      MakeSizes(sizes.order) == Ok(sizes) && Shaped(root)
    }

    /** The keys held, in order. */
    function Contents(): seq<int>
      reads this
    {
      Keys(root)
    }

    constructor Init(s: Sizes)
      requires MakeSizes(s.order) == Ok(s)
      ensures sizes == s && root.Some? && root.value.leaf && root.value.keys == [] && Valid()
    {
      sizes := s;
      root := Some(EmptyLeaf);
    }

    /** `bTree(order)`: ValueError below order 3, otherwise an empty leaf root. */
    static method Create(order: int) returns (r: Outcome<BTree>)
      ensures r.Raised? <==> order < 3
      ensures r.Raised? ==> r.fault == ValueError
      ensures r.Ok? ==> fresh(r.value) && r.value.Valid() && MakeSizes(order) == Ok(r.value.sizes)
      ensures r.Ok? ==> r.value.root.Some? && r.value.root.value.leaf && r.value.root.value.keys == []
    {
      var s := MakeSizes(order);
      if s.Raised? {
        return Raised(s.fault);
      }
      var t := new BTree.Init(s.value);
      return Ok(t);
    }

    /**
     * `search(k)`: descend from the root, stopping at the first node holding
     * k or at a leaf; a missing root raises AttributeError.
     */
    method Search(k: int) returns (r: Outcome<Option<(Node, nat)>>)
      requires Valid()
      ensures r.Raised? <==> root.None?
      ensures r.Raised? ==> r.fault == AttributeError
      ensures r.Ok? ==> r.value == SearchNode(root.value, k)
      ensures r.Ok? ==> (r.value.Some? <==> k in Contents())
    {
      if root.None? {
        return Raised(AttributeError);
      }
      var node := root.value;
      SearchNodeComplete(node, k);
      while true
        invariant WF(node) && SearchNode(node, k) == SearchNode(root.value, k)
        decreases node
      {
        var i := FindKeyIndex(node.keys, k);
        if i < |node.keys| && node.keys[i] == k {
          return Ok(Some((node, i)));
        }
        if node.leaf {
          return Ok(None);
        }
        node := node.children[i];
      }
    }

    /**
     * `insert(key)`: the key goes to its sorted place and the tree keeps its
     * shape; a missing root raises AttributeError.
     */
    method Insert(key: int) returns (r: Outcome<()>)
      requires Valid()
      modifies this
      ensures Valid()
      ensures r.Raised? <==> old(root).None?
      ensures r.Raised? ==> r.fault == AttributeError && root == old(root)
      ensures r.Ok? ==> root == Some(InsertTop(old(root).value, key, sizes.maxKeys))
      ensures r.Ok? ==> Contents() == InsertAt(old(Contents()), LowerBound(old(Contents()), key), key)
      ensures StrictlySorted(old(Contents())) && key !in old(Contents()) ==> StrictlySorted(Contents())
    {
      if root.None? {
        return Raised(AttributeError);
      }
      InsertTopCorrect(root.value, key, sizes.maxKeys);
      if StrictlySorted(Contents()) && key !in Contents() {
        InsertStrictlySorted(Contents(), key);
      }
      root := Some(InsertTop(root.value, key, sizes.maxKeys));
      return Ok(());
    }

    /**
     * `delete(k)`: on a tree whose keys are strictly increasing, removes
     * exactly k and keeps the tree's shape.
     */
    method Delete(k: int) returns (r: Outcome<()>)
      requires Valid()
      modifies this
      ensures DeleteTop(old(root), k, sizes.d).Ok? ==> r.Ok? && root == DeleteTop(old(root), k, sizes.d).value
      ensures DeleteTop(old(root), k, sizes.d).Raised? ==>
                r == Raised(DeleteTop(old(root), k, sizes.d).fault)
      ensures old(StrictlySorted(Contents())) ==>
                r.Ok? && Valid() && Contents() == Without(old(Contents()), k) && StrictlySorted(Contents())
    {
      var o := DeleteTop(root, k, sizes.d);
      if StrictlySorted(Contents()) {
        DeleteTopCorrect(root, k, sizes.d);
      }
      if o.Raised? {
        return Raised(o.fault);
      }
      root := o.value;
      return Ok(());
    }
  }

  /**
   * One `b.insert(x)` of the demonstration, on a tree whose keys `s` are
   * strictly increasing, with the place `i` where x lands named by the caller.
   */
  method InsertKnown(t: BTree, x: int, s: seq<int>, i: nat, r: seq<int>)
    requires t.Valid() && t.root.Some? && t.Contents() == s && StrictlySorted(s)
    requires i <= |s| && (0 < i ==> s[i - 1] < x) && (i < |s| ==> x < s[i])
    requires r == s[..i] + [x] + s[i..]
    modifies t
    ensures t.Valid() && t.root.Some? && t.Contents() == r && StrictlySorted(r)
  {
    var _ := t.Insert(x);
    assert forall j :: 0 <= j < i ==> s[j] < x by {
      forall j | 0 <= j < i ensures s[j] < x {
        assert j == i - 1 || s[j] < s[i - 1];
      }
    }
    LowerBoundUnique(s, x, i);
    InsertStrictStep(s, x, i);
  }

  /** One `b.delete(k)` of the demonstration, on strictly increasing keys `s` holding k at `i`. */
  method DeleteKnown(t: BTree, s: seq<int>, i: nat, r: seq<int>)
    requires t.Valid() && t.Contents() == s && StrictlySorted(s)
    requires i < |s| && r == s[..i] + s[i + 1..]
    modifies t
    ensures t.Valid() && t.Contents() == r && StrictlySorted(r)
  {
    var _ := t.Delete(s[i]);
    WithoutAt(s, i);
  }

  /** The first four insertions of the demonstration, into an empty tree. */
  method DemoFirstInserts(t: BTree)
    requires t.Valid() && t.root.Some? && t.Contents() == []
    modifies t
    ensures t.Valid() && t.root.Some? && t.Contents() == [5, 6, 10, 20]
    ensures StrictlySorted(t.Contents())
  {
    InsertKnown(t, 10, [], 0, [10]);
    InsertKnown(t, 20, [10], 1, [10, 20]);
    InsertKnown(t, 5, [10, 20], 0, [5, 10, 20]);
    InsertKnown(t, 6, [5, 10, 20], 1, [5, 6, 10, 20]);
  }

  /** The last four insertions of the demonstration. */
  method DemoLastInserts(t: BTree)
    requires t.Valid() && t.root.Some? && t.Contents() == [5, 6, 10, 20]
    requires StrictlySorted(t.Contents())
    modifies t
    ensures t.Valid() && t.root.Some? && t.Contents() == [5, 6, 7, 10, 12, 17, 20, 30]
    ensures StrictlySorted(t.Contents())
  {
    InsertKnown(t, 12, [5, 6, 10, 20], 3, [5, 6, 10, 12, 20]);
    InsertKnown(t, 30, [5, 6, 10, 12, 20], 5, [5, 6, 10, 12, 20, 30]);
    InsertKnown(t, 7, [5, 6, 10, 12, 20, 30], 2, [5, 6, 7, 10, 12, 20, 30]);
    InsertKnown(t, 17, [5, 6, 7, 10, 12, 20, 30], 5, [5, 6, 7, 10, 12, 17, 20, 30]);
  }

  /** The three deletions of the demonstration. */
  method DemoDeletes(t: BTree)
    requires t.Valid() && t.Contents() == [5, 6, 7, 10, 12, 17, 20, 30]
    requires StrictlySorted(t.Contents())
    modifies t
    ensures t.Valid() && t.Contents() == [5, 10, 17, 20, 30]
  {
    DeleteKnown(t, [5, 6, 7, 10, 12, 17, 20, 30], 1, [5, 7, 10, 12, 17, 20, 30]);
    DeleteKnown(t, [5, 7, 10, 12, 17, 20, 30], 1, [5, 10, 12, 17, 20, 30]);
    DeleteKnown(t, [5, 10, 12, 17, 20, 30], 2, [5, 10, 17, 20, 30]);
  }

  /**
   * The demonstration closing TP2/b_arbre.py: an order-5 tree receives
   * 10, 20, 5, 6, 12, 30, 7, 17, then loses 6, 7 and 12.
   */
  method Demo() returns (t: BTree)
    ensures t.Valid() && t.Contents() == [5, 10, 17, 20, 30]
  {
    var o := BTree.Create(5);
    t := o.value;
    DemoFirstInserts(t);
    DemoLastInserts(t);
    DemoDeletes(t);
  }
}
