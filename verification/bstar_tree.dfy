/**
 * The B*-tree of b_arbre_star.py (class `BStarTree`): kmin/kmax sizes
 * derived from the order m, search by `bisect_left`, insertion that makes
 * room by redistributing through a separator or by a three-way split, and
 * deletion that fixes an underflowing child by redistributing or merging
 * (and re-splitting a merged node that came out too large).
 *
 * The engine is modelled exactly as written, on any node value, including
 * the ill-formed ones it produces itself (the three-way split gives its
 * three new nodes no children). An access outside a list is IndexError, an
 * unbound `merged_node` is UnboundLocalError. The object identities the
 * source relies on become explicit: `parent is self.root` is the flag
 * `isRoot`, and a root replaced deep inside the recursion is reported
 * upwards as a `RootEvent` that the top level applies.
 */
module BStar {
  import opened Common
  import opened Multiway
  import opened Surgery

  // ---- sizes ----

  /** The order m and the bounds that `BStarTree.__init__` derives from it. */
  datatype BSizes = BSizes(m: int, kmin: nat, kmax: nat)

  /**
   * `BStarTree.__init__`: orders below 3 are refused with ValueError;
   * otherwise kmax = m - 1 and kmin = round(2 * (m - 1) / 3), which is the
   * integer nearest to 2(m-1)/3: that fraction is never halfway between two
   * integers, so Python's rounding of ties plays no part.
   */
  function MakeBSizes(order: int): (r: Outcome<BSizes>)
    ensures r.Raised? <==> order < 3
    ensures r.Raised? ==> r.fault == ValueError
    ensures r.Ok? ==> r.value.m == order && r.value.kmax == order - 1
    ensures r.Ok? ==> -1 <= 3 * r.value.kmin - 2 * (order - 1) <= 1
    ensures r.Ok? ==> 1 <= r.value.kmin <= r.value.kmax
  {
    if order < 3 then Raised(ValueError)
    else Ok(BSizes(order, (2 * (order - 1) + 1) / 3, order - 1))
  }

  /** `BStarNode.is_full(m)`. */
  predicate IsFull(n: Node, m: int) {
    |n.keys| >= m
  }

  // ---- search ----

  /**
   * `search(key)`: at each node the position `bisect_left(keys, key)`; the
   * node and position when the key sits there, nothing (b_arbre_star.py's
   * `(None, -1)`) at a leaf that lacks it, otherwise the child at that
   * position, which an ill-formed node may lack (IndexError).
   */
  function Find(n: Node, key: int): (r: Outcome<Option<(Node, nat)>>)
    decreases n
    ensures r.Raised? ==> r.fault == IndexError
    ensures r.Ok? && r.value.Some? ==>
              r.value.value.1 < |r.value.value.0.keys| && r.value.value.0.keys[r.value.value.1] == key
  {
    var i := BisectLeft(n.keys, key);
    if i < |n.keys| && n.keys[i] == key then Ok(Some((n, i)))
    else if n.leaf then Ok(None)
    else if i < |n.children| then Find(n.children[i], key)
    else Raised(IndexError)
  }

  // ---- root replacement ----

  /**
   * What happened to `self.root` while a node that was the root was being
   * worked on: nothing; a fresh root grown above it (`new_root` with the
   * node, split at once, as its children); or the root set to another node.
   */
  datatype RootEvent = Kept | Regrown(sep: int, right: Node) | Replaced(newRoot: Node)

  /** The root after the event, given the final value of the node that was the root. */
  function Reroot(n: Node, e: RootEvent): Node {
    match e
    case Kept => n
    case Regrown(sep, right) => Node(false, [sep], [n, right])
    case Replaced(t) => t
  }

  /**
   * The root growth of `insert`, `_insert_nonfull` and
   * `_three_way_split_strict`: a fresh internal root gets n as its only child
   * and `_split_child` splits it, so n itself keeps the left half.
   */
  function Regrow(n: Node): (r: (Node, RootEvent))
    requires |n.keys| >= 1
    ensures r.1.Regrown? && Reroot(r.0, r.1) == Grow(n)
  {
    var g := Grow(n);
    (g.children[0], Regrown(g.keys[0], g.children[1]))
  }

  /** A node-only result with the root untouched. */
  function Unmoved(o: Outcome<Node>): (r: Outcome<(Node, RootEvent)>)
    ensures o.Raised? <==> r.Raised?
    ensures o.Raised? ==> r.fault == o.fault
    ensures o.Ok? ==> r.value == (o.value, Kept)
  {
    match o
    case Raised(f) => Raised(f)
    case Ok(n) => Ok((n, Kept))
  }

  // ---- _redistribute ----

  /**
   * The test of `_redistribute(parent, idx)` that sends a key from the right
   * child R to the left child L: L below kmin, or smaller than R.
   */
  predicate TowardsLeft(p: Node, idx: nat, kmin: nat)
    requires idx + 1 < |p.children|
  {
    |p.children[idx].keys| < kmin || |p.children[idx].keys| < |p.children[idx + 1].keys|
  }

  /**
   * `_redistribute(parent, idx)`: one key moves through separator idx, from
   * the first keys of R to the end of L or from the last keys of L to the
   * front of R; the donor's outermost child follows when the donor has
   * children.
   */
  function Redistribute(p: Node, idx: nat, kmin: nat): (r: Outcome<Node>)
    ensures r.Raised? ==> r.fault == IndexError
    ensures r.Ok? <==> idx < |p.keys| && idx + 1 < |p.children| &&
                       (if TowardsLeft(p, idx, kmin) then |p.children[idx + 1].keys| >= 1
                        else |p.children[idx].keys| >= 1)
    ensures r.Ok? ==> r.value.leaf == p.leaf && |r.value.keys| == |p.keys| && |r.value.children| == |p.children|
    ensures r.Ok? ==> r.value.children[..idx] == p.children[..idx] && r.value.children[idx + 2..] == p.children[idx + 2..]
    ensures r.Ok? ==> r.value.keys[..idx] == p.keys[..idx] && r.value.keys[idx + 1..] == p.keys[idx + 1..]
    ensures r.Ok? ==> (r.value.children[idx].keys + [r.value.keys[idx]] + r.value.children[idx + 1].keys
                       == p.children[idx].keys + [p.keys[idx]] + p.children[idx + 1].keys)
    ensures r.Ok? ==>
              if TowardsLeft(p, idx, kmin) then
                |r.value.children[idx].keys| == |p.children[idx].keys| + 1 &&
                |r.value.children[idx].children| == |p.children[idx].children| + (if p.children[idx + 1].children == [] then 0 else 1)
              else
                |r.value.children[idx + 1].keys| == |p.children[idx + 1].keys| + 1 &&
                |r.value.children[idx + 1].children| == |p.children[idx + 1].children| + (if p.children[idx].children == [] then 0 else 1)
  {
    if idx + 1 >= |p.children| || idx >= |p.keys| then Raised(IndexError)
    else if TowardsLeft(p, idx, kmin) then
      if p.children[idx + 1].keys == [] then Raised(IndexError)
      else Ok(RotateLeft(p, idx, p.children[idx + 1].children != []))
    else
      if p.children[idx].keys == [] then Raised(IndexError)
      else Ok(RotateRight(p, idx, p.children[idx].children != []))
  }

  // ---- _three_way_split_strict ----

  /** The keys pooled by a three-way split: L, the separator, R and the optional extra key. */
  function Pool(l: Node, sep: int, r: Node, newKey: Option<int>): seq<int> {
    l.keys + [sep] + r.keys + (if newKey.Some? then [newKey.value] else [])
  }

  /** The pool sorted, as `merged.sort()` leaves it. */
  function Merged(l: Node, sep: int, r: Node, newKey: Option<int>): (s: seq<int>)
    ensures Sorted(s) && multiset(s) == multiset(Pool(l, sep, r, newKey))
  {
    SortInts(Pool(l, sep, r, newKey))
  }

  /** The positions n//3 and 2n//3 of the two keys a three-way split of n keys moves up. */
  function Thirds(n: nat): (r: (nat, nat))
    requires n >= 3
    ensures 1 <= r.0 < r.1 < n
  {
    (n / 3, 2 * n / 3)
  }

  /**
   * The parent after a three-way split of children j and j+1 (Python
   * indices, so j may be -1): merged[n//3] and merged[2n//3] replace
   * separator j, and three new childless nodes take the runs between them.
   */
  function SplitThree(p: Node, j: int, merged: seq<int>, leftLeaf: bool, rightLeaf: bool): (q: Node)
    requires |merged| >= 3 && PyInRange(|p.children|, j) && PyInRange(|p.children|, j + 1)
    ensures q.leaf == p.leaf && |q.children| == |p.children| + 1
    ensures -1 <= j ==> |q.keys| == |p.keys| + (if 0 <= j < |p.keys| then 1 else 2)
  {
    var (a, b) := Thirds(|merged|);
    var c1 := PySet(p.children, j, Node(leftLeaf, merged[..a], []));
    var c2 := PySet(c1, j + 1, Node(leftLeaf, merged[a + 1..b], []));
    Node(p.leaf, PySplice(p.keys, j, j + 1, [merged[a], merged[b]]),
         PyInsert(c2, j + 2, Node(rightLeaf, merged[b + 1..], [])))
  }

  /**
   * `_three_way_split_strict(parent, j, new_key)`: nothing happens when the
   * pool holds fewer than 3 keys; otherwise the parent gets the two new
   * separators and the three new nodes, and a root left with more than kmax
   * keys is grown.
   */
  function ThreeWaySplit(p: Node, j: int, newKey: Option<int>, kmax: nat, isRoot: bool): (r: Outcome<(Node, RootEvent)>)
    ensures r.Raised? <==> !(PyInRange(|p.children|, j) && PyInRange(|p.children|, j + 1) && PyInRange(|p.keys|, j))
    ensures r.Raised? ==> r.fault == IndexError
    ensures r.Ok? && r.value.1 != Kept ==> isRoot && r.value.1.Regrown?
  {
    if !(PyInRange(|p.children|, j) && PyInRange(|p.children|, j + 1) && PyInRange(|p.keys|, j)) then Raised(IndexError)
    else
      var l, rt := p.children[PyIndex(|p.children|, j)], p.children[PyIndex(|p.children|, j + 1)];
      var merged := Merged(l, p.keys[PyIndex(|p.keys|, j)], rt, newKey);
      if |merged| < 3 then Ok((p, Kept))
      else
        var q := SplitThree(p, j, merged, l.leaf, rt.leaf);
        if |q.keys| > kmax && isRoot then Ok(Regrow(q)) else Ok((q, Kept))
  }

  // ---- insertion ----

  /**
   * The node an insertion call leaves behind, whether it is a leaf that now
   * holds more than kmax keys and still has its overflow handled by the
   * caller's frame (the `parent` branch of `_insert_nonfull`), and what
   * happened to the root.
   */
  datatype Inserted = Inserted(node: Node, overflow: bool, event: RootEvent)

  /** The depth of nested `_insert_nonfull` calls the interpreter allows. */
  const RecursionLimit: nat := 1000

  /**
   * The overflow handling of `_insert_nonfull` for the leaf at idx: prefer a
   * sibling below kmin, then one below kmax (left before right), and
   * otherwise split three ways with a sibling; a leaf without siblings is
   * left as it is.
   */
  function LeafOverflow(p: Node, idx: nat, isRoot: bool, s: BSizes): (r: Outcome<(Node, RootEvent)>)
    requires idx < |p.children|
  {
    match OverflowRepair(p, idx, s)
    case Shift(at) => Unmoved(Redistribute(p, at, s.kmin))
    case SplitThreeWays(j) => ThreeWaySplit(p, j, None, s.kmax, isRoot)
    case Leave => Ok((p, Kept))
  }

  /** What the overflow handling does: redistribute through a separator, split three ways from one, or nothing. */
  datatype Repair = Shift(at: nat) | SplitThreeWays(j: nat) | Leave

  /**
   * The choice of the overflow handling, made from the sizes of the
   * siblings of the leaf at idx alone. It always works with a neighbour,
   * shifts whenever a sibling holds fewer than kmax keys, and does nothing
   * only when there is no sibling.
   */
  function OverflowRepair(p: Node, idx: nat, s: BSizes): (r: Repair)
    requires idx < |p.children|
    ensures r.Shift? ==> r.at + 1 < |p.children| && (r.at + 1 == idx || r.at == idx)
    ensures r.SplitThreeWays? ==> r.j + 1 < |p.children| && r.j == (if idx >= 1 then idx - 1 else idx)
    ensures s.kmin <= s.kmax ==>
              (r.Shift? <==> (idx >= 1 && |p.children[idx - 1].keys| < s.kmax) || (idx + 1 < |p.children| && |p.children[idx + 1].keys| < s.kmax))
    ensures r.Leave? <==> |p.children| == 1
  {
    var hasLeft, hasRight := idx >= 1, idx + 1 < |p.children|;
    if hasLeft && |p.children[idx - 1].keys| < s.kmin then Shift(idx - 1)
    else if hasRight && |p.children[idx + 1].keys| < s.kmin then Shift(idx)
    else if hasLeft && |p.children[idx - 1].keys| < s.kmax then Shift(idx - 1)
    else if hasRight && |p.children[idx + 1].keys| < s.kmax then Shift(idx)
    else if hasLeft then SplitThreeWays(idx - 1)
    else if hasRight then SplitThreeWays(idx)
    else Leave
  }

  /**
   * The room-making of `_insert_nonfull` before it retries, when the child i
   * it would descend into is full: redistribute with a sibling below kmax,
   * otherwise split three ways with the right sibling, or with the left one
   * when there is none (index i - 1, which is -1 for an only child).
   */
  function MakeRoom(n: Node, i: nat, isRoot: bool, s: BSizes): (r: Outcome<(Node, RootEvent)>)
    requires i < |n.children|
  {
    var hasLeft, hasRight := i >= 1, i + 1 < |n.children|;
    if hasLeft && |n.children[i - 1].keys| < s.kmax then Unmoved(Redistribute(n, i - 1, s.kmin))
    else if hasRight && |n.children[i + 1].keys| < s.kmax then Unmoved(Redistribute(n, i, s.kmin))
    else ThreeWaySplit(n, if hasRight then i else i - 1, None, s.kmax, isRoot)
  }

  /**
   * `_insert_nonfull(node, key, parent, idx)`. A leaf takes the key by
   * `insort`; a leaf root that overflows is grown, any other overflowing
   * leaf is reported to the caller. An internal node descends at
   * `bisect_left` into a child that is not full and handles that child's
   * overflow; a full child makes it make room and retry on itself. A node
   * without a parent that is a leaf is the root, so `isRoot` also stands for
   * `parent is None` there. `fuel` bounds the depth of nested calls.
   */
  function InsertNonfull(n: Node, key: int, isRoot: bool, s: BSizes, fuel: nat): (r: Outcome<Inserted>)
    decreases fuel
  {
    if fuel == 0 then Raised(RecursionError)
    else if n.leaf then
      var n1 := n.(keys := Insort(n.keys, key));
      if |n1.keys| <= s.kmax then Ok(Inserted(n1, false, Kept))
      else if isRoot then Ok(Inserted(Regrow(n1).0, false, Regrow(n1).1))
      else Ok(Inserted(n1, true, Kept))
    else
      var i := BisectLeft(n.keys, key);
      if i >= |n.children| then Raised(IndexError)
      else if !IsFull(n.children[i], s.m) then
        match InsertNonfull(n.children[i], key, false, s, fuel - 1)
        case Raised(f) => Raised(f)
        case Ok(c) =>
          var n1 := n.(children := n.children[i := c.node]);
          if c.overflow then
            match LeafOverflow(n1, i, isRoot, s)
            case Raised(f) => Raised(f)
            case Ok((n2, e)) => Ok(Inserted(n2, false, e))
          else Ok(Inserted(n1, false, Kept))
      else
        match MakeRoom(n, i, isRoot, s)
        case Raised(f) => Raised(f)
        case Ok((n1, e)) =>
          match InsertNonfull(n1, key, isRoot && e.Kept?, s, fuel - 1)
          case Raised(f) => Raised(f)
          case Ok(c) => if e.Kept? then Ok(c) else Ok(Inserted(c.node, c.overflow, e))
  }

  /**
   * The room-making of `insert` for a full internal root: redistribute
   * between its first two children when either is below kmax, otherwise
   * split them three ways.
   */
  function RootRoom(root: Node, s: BSizes): (r: Outcome<(Node, RootEvent)>) {
    if root.children == [] then Raised(IndexError)
    else if |root.children[0].keys| < s.kmax then Unmoved(Redistribute(root, 0, s.kmin))
    else if |root.children| > 1 && |root.children[1].keys| < s.kmax then Unmoved(Redistribute(root, 0, s.kmin))
    else ThreeWaySplit(root, 0, None, s.kmax, true)
  }

  /**
   * `insert(key)`: a root without keys just takes the key; a full leaf root
   * is grown and the key is not inserted; a full internal root makes room
   * first; then `_insert_nonfull` runs on the (possibly new) root.
   */
  function InsertTop(root: Node, key: int, s: BSizes): (r: Outcome<Node>)
    ensures root.keys == [] ==> r == Ok(root.(keys := [key]))
    ensures root.keys != [] && root.leaf && IsFull(root, s.m) ==> r == Ok(Grow(root))
  {
    if root.keys == [] then
      var ks := Insort(root.keys, key);
      assert ks == [ks[0]] && ks[0] in multiset(ks);
      Ok(root.(keys := ks))
    else if IsFull(root, s.m) && root.leaf then Ok(Grow(root))
    else
      match (if IsFull(root, s.m) then RootRoom(root, s) else Ok((root, Kept)))
      case Raised(f) => Raised(f)
      case Ok((n1, e)) =>
        match InsertNonfull(Reroot(n1, e), key, true, s, RecursionLimit)
        case Raised(f) => Raised(f)
        case Ok(c) => Ok(Reroot(c.node, c.event))
  }

  // ---- deletion ----

  /**
   * Which neighbour the re-split after a merge pairs the merged node with:
   * `WithNext` is b_arbre_star.py's `_three_way_split_strict(parent,
   * parent.children.index(merged_node))`, always the right neighbour;
   * `WithNeighbour` is the corrected reading described with `ResplitMerged`.
   */
  datatype Pairing = WithNext | WithNeighbour

  /**
   * The node a deletion call leaves behind, whether the call ended with the
   * node below kmin (so that the caller's frame runs `_fix_underflow` on
   * it), and what happened to the root.
   */
  datatype Deleted = Deleted(node: Node, underflow: bool, event: RootEvent)

  /**
   * `_delete_internal(node, key, parent, idx)`: a leaf pops the key at
   * `bisect_left` when it is there and otherwise returns at once; an
   * internal node holding the key overwrites it with the last key of the
   * rightmost leaf of child i and deletes that key below; otherwise it
   * deletes below child i.
   */
  function DeleteInternal(n: Node, key: int, isRoot: bool, s: BSizes, mode: Pairing): (r: Outcome<Deleted>)
    decreases n, 0
  {
    var i := BisectLeft(n.keys, key);
    var found := i < |n.keys| && n.keys[i] == key;
    if n.leaf then
      if found then
        var n1 := n.(keys := RemoveAt(n.keys, i));
        Ok(Deleted(n1, |n1.keys| < s.kmin, Kept))
      else Ok(Deleted(n, false, Kept))
    else if i >= |n.children| then Raised(IndexError)
    else if found then
      match Rightmost(n.children[i])
      case Raised(f) => Raised(f)
      case Ok(pred) => DescendAndFix(n.(keys := n.keys[i := pred]), i, pred, isRoot, s, mode)
    else DescendAndFix(n, i, key, isRoot, s, mode)
  }

  /**
   * The recursive call of `_delete_internal` on child i, followed by the
   * `_fix_underflow(parent, idx)` that the child's frame runs on this node
   * when the child ended below kmin, and by this frame's own check.
   */
  function DescendAndFix(m: Node, i: nat, key: int, isRoot: bool, s: BSizes, mode: Pairing): (r: Outcome<Deleted>)
    requires i < |m.children|
    decreases m.children[i], 1
  {
    match DeleteInternal(m.children[i], key, false, s, mode)
    case Raised(f) => Raised(f)
    case Ok(c) =>
      var m1 := m.(children := m.children[i := c.node]);
      if c.underflow then
        match FixUnderflow(m1, i, isRoot, s, mode)
        case Raised(f) => Raised(f)
        case Ok((m2, e)) => Ok(Deleted(m2, |m2.keys| < s.kmin, e))
      else Ok(Deleted(m1, |m1.keys| < s.kmin, Kept))
  }

  /**
   * `_fix_underflow(parent, idx)`: borrow from a sibling above kmin (left
   * first); otherwise merge with the left sibling, or the right one, and
   * split a merged node holding more than kmax keys three ways with its
   * right neighbour (`parent.children.index(merged_node)` is its own
   * position, nodes being distinct objects). With no sibling at all,
   * `merged_node` is never bound.
   */
  function FixUnderflow(p: Node, idx: nat, isRoot: bool, s: BSizes, mode: Pairing): (r: Outcome<(Node, RootEvent)>)
    requires idx < |p.children|
    decreases |p.keys|, 1
  {
    var hasLeft, hasRight := idx >= 1, idx + 1 < |p.children|;
    if hasLeft && |p.children[idx - 1].keys| > s.kmin then Unmoved(Redistribute(p, idx - 1, s.kmin))
    else if hasRight && |p.children[idx + 1].keys| > s.kmin then Unmoved(Redistribute(p, idx, s.kmin))
    else if !hasLeft && !hasRight then Raised(UnboundLocalError)
    else
      var at := if hasLeft then idx - 1 else idx;
      match MergeNodes(p, at, isRoot, s, mode)
      case Raised(f) => Raised(f)
      case Ok((p1, e)) =>
        if at >= |p1.children| then Raised(IndexError)
        else if |p1.children[at].keys| > s.kmax then ResplitMerged(p1, at, e, isRoot, s, mode)
        else Ok((p1, e))
  }

  /**
   * The three-way split `_fix_underflow` runs on a merged node at `at` that
   * holds more than kmax keys. As written it always pairs the node with its
   * right neighbour; with `WithNeighbour` a merged node that became the root
   * is grown as `insert` grows an overflowing root, and a last child is
   * paired with its left neighbour.
   */
  function ResplitMerged(p1: Node, at: nat, e: RootEvent, isRoot: bool, s: BSizes, mode: Pairing): (r: Outcome<(Node, RootEvent)>)
    requires at < |p1.children| && |p1.children[at].keys| > s.kmax
  {
    if mode.WithNeighbour? && e.Replaced? then Ok((p1, Replaced(Grow(p1.children[at]))))
    else if mode.WithNeighbour? && at + 1 >= |p1.children| && at == 0 then Ok((p1, e))
    else
      var j := if mode.WithNext? || at + 1 < |p1.children| then at else at - 1;
      match ThreeWaySplit(p1, j, None, s.kmax, isRoot && e.Kept?)
      case Raised(f) => Raised(f)
      case Ok((p2, e2)) => Ok((p2, if e.Kept? then e2 else e))
  }

  /**
   * `_merge_nodes(parent, idx)`: the concatenation of `MergeChildren`; a root
   * parent left without keys is replaced by the merged node, and a non-root
   * parent left below kmin has `_fix_underflow` run again on the merged node.
   */
  function MergeNodes(p: Node, idx: nat, isRoot: bool, s: BSizes, mode: Pairing): (r: Outcome<(Node, RootEvent)>)
    decreases |p.keys|, 0
  {
    if idx + 1 >= |p.children| || idx >= |p.keys| then Raised(IndexError)
    else
      var p1 := MergeChildren(p, idx);
      if isRoot && p1.keys == [] then Ok((p1, Replaced(p1.children[idx])))
      else if !isRoot && |p1.keys| < s.kmin then FixUnderflow(p1, idx, false, s, mode)
      else Ok((p1, Kept))
  }

  /**
   * `delete(key)`: nothing to do on a root without keys; otherwise the
   * recursive delete, then a keyless internal root gives way to its first
   * child.
   */
  function DeleteTop(root: Node, key: int, s: BSizes, mode: Pairing): (r: Outcome<Node>)
    ensures root.keys == [] ==> r == Ok(root)
  {
    if root.keys == [] then Ok(root)
    else
      match DeleteInternal(root, key, true, s, mode)
      case Raised(f) => Raised(f)
      case Ok(d) =>
        var t := Reroot(d.node, d.event);
        if t.keys == [] && !t.leaf then
          if t.children == [] then Raised(IndexError) else Ok(t.children[0])
        else Ok(t)
  }
}
