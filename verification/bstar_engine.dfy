/**
 * The `BStarTree` object of b_arbre_star.py: the order-derived sizes fixed at
 * construction and a root that `insert` and `delete` replace. The node
 * surgeries are the functions of module BStar. `Delete` runs the re-split
 * after a merge as written (`WithNext`); `DeleteCorrected` runs the
 * corrected one (`WithNeighbour`).
 */
module BStarEngine {
  import opened Common
  import opened Multiway
  import opened BStar
  import opened BStarFacts
  import opened BStarDelete

  class BStarTree {
    const sizes: BSizes
    var root: Node

    /** Sizes derived from the order. */
    ghost predicate Valid()
      reads this
    {
      MakeBSizes(sizes.m) == Ok(sizes)
    }

    /** The keys held, in order. */
    function Contents(): seq<int>
      reads this
    {
      Flatten(root)
    }

    constructor Init(s: BSizes)
      requires MakeBSizes(s.m) == Ok(s)
      ensures sizes == s && root == Node(true, [], []) && Valid()
    {
      sizes := s;
      root := Node(true, [], []);
    }

    /** `BStarTree(order)`: ValueError below order 3, otherwise an empty leaf root. */
    static method Create(order: int) returns (r: Outcome<BStarTree>)
      ensures r.Raised? <==> order < 3
      ensures r.Raised? ==> r.fault == ValueError
      ensures r.Ok? ==> fresh(r.value) && r.value.Valid() && r.value.sizes.m == order
      ensures r.Ok? ==> r.value.root == Node(true, [], [])
    {
      var s := MakeBSizes(order);
      if s.Raised? {
        return Raised(s.fault);
      }
      var t := new BStarTree.Init(s.value);
      return Ok(t);
    }

    /**
     * `search(key)`: the loop from the root by `bisect_left`; on a tree in
     * order it never raises and finds the key exactly when the tree holds it.
     */
    method Search(key: int) returns (r: Outcome<Option<(Node, nat)>>)
      ensures r == Find(root, key)
      ensures r.Ok? && r.value.Some? ==> r.value.value.0.keys[r.value.value.1] == key
      ensures WF(root) && Sorted(Contents()) ==> r.Ok? && (r.value.Some? <==> key in Contents())
    {
      if WF(root) && Sorted(Contents()) {
        FindComplete(root, key);
      }
      var node := root;
      while true
        invariant Find(node, key) == Find(root, key)
        decreases node
      {
        var i := BisectLeft(node.keys, key);
        if i < |node.keys| && node.keys[i] == key {
          return Ok(Some((node, i)));
        }
        if node.leaf {
          return Ok(None);
        }
        if i >= |node.children| {
          return Raised(IndexError);
        }
        node := node.children[i];
      }
    }

    /**
     * `insert(key)`: the root becomes the result of the top-level insertion.
     * On a tree of at most two levels the key lands before its equals in the
     * in-order sequence.
     */
    method Insert(key: int) returns (r: Outcome<()>)
      requires Valid()
      modifies this
      ensures Valid()
      ensures r.Ok? <==> InsertTop(old(root), key, sizes).Ok?
      ensures r.Ok? ==> root == InsertTop(old(root), key, sizes).value
      ensures r.Raised? ==> r.fault == InsertTop(old(root), key, sizes).fault
      ensures old(Shallow(root, sizes) && Sorted(Contents())) ==>
                r.Ok? && Contents() == InsertAt(old(Contents()), LowerBound(old(Contents()), key), key) && Balanced(root)
    {
      if Shallow(root, sizes) && Sorted(Contents()) {
        InsertShallow(root, key, sizes);
      }
      var o := InsertTop(root, key, sizes);
      if o.Raised? {
        return Raised(o.fault);
      }
      root := o.value;
      return Ok(());
    }

    /**
     * `delete(key)`: the root becomes the result of the top-level deletion,
     * with the re-split as written. On a tree of at most two levels whose
     * leaves hold keys it raises IndexError, or removes exactly the key
     * (`BStarDelete.ResplitRaisesAtLastChild` shows such a tree where it
     * raises).
     */
    method Delete(key: int) returns (r: Outcome<()>)
      requires Valid()
      modifies this
      ensures Valid()
      ensures r.Ok? <==> DeleteTop(old(root), key, sizes, WithNext).Ok?
      ensures r.Ok? ==> root == DeleteTop(old(root), key, sizes, WithNext).value
      ensures r.Raised? ==> r.fault == DeleteTop(old(root), key, sizes, WithNext).fault
      ensures old(Shallow(root, sizes) && StrictlySorted(Contents()) && LeavesKeyed(root)) ==>
                r == Raised(IndexError)
                || (r.Ok? && Contents() == Without(old(Contents()), key) && StrictlySorted(Contents()) && Balanced(root))
    {
      if Shallow(root, sizes) && StrictlySorted(Contents()) && LeavesKeyed(root) {
        DeleteShallowAsWritten(root, key, sizes);
      }
      var o := DeleteTop(root, key, sizes, WithNext);
      if o.Raised? {
        return Raised(o.fault);
      }
      root := o.value;
      return Ok(());
    }

    /**
     * `delete(key)` with the corrected re-split: on a tree of at most two
     * levels whose leaves hold keys it never raises and removes exactly the
     * key.
     */
    method DeleteCorrected(key: int) returns (r: Outcome<()>)
      requires Valid()
      modifies this
      ensures Valid()
      ensures r.Ok? <==> DeleteTop(old(root), key, sizes, WithNeighbour).Ok?
      ensures r.Ok? ==> root == DeleteTop(old(root), key, sizes, WithNeighbour).value
      ensures r.Raised? ==> r.fault == DeleteTop(old(root), key, sizes, WithNeighbour).fault
      ensures old(Shallow(root, sizes) && StrictlySorted(Contents()) && LeavesKeyed(root)) ==>
                r.Ok? && Contents() == Without(old(Contents()), key) && StrictlySorted(Contents()) && Balanced(root)
    {
      if Shallow(root, sizes) && StrictlySorted(Contents()) && LeavesKeyed(root) {
        DeleteShallow(root, key, sizes);
      }
      var o := DeleteTop(root, key, sizes, WithNeighbour);
      if o.Raised? {
        return Raised(o.fault);
      }
      root := o.value;
      return Ok(());
    }
  }
}
