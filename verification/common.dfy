/**
 * Shared vocabulary of the model: optional values, the Python exceptions the
 * modelled code can raise, sortedness, and the list edits (insert at a
 * position, remove at a position, clamped slicing, `bisect`, `insort`,
 * `list.sort`) that the tree engines perform on their key lists.
 */
module Common {

  datatype Option<T> = None | Some(value: T)

  /** The Python exceptions that the modelled code raises on some inputs. */
  datatype Fault = IndexError | AttributeError | UnboundLocalError | ValueError | RecursionError | KeyError | TypeError

  /** The result of a Python call that either returns a value or raises. */
  datatype Outcome<T> = Ok(value: T) | Raised(fault: Fault)

  /** A call's outcome with its value replaced by v: a raise passes through. */
  function Returning<T, U>(o: Outcome<T>, v: U): (r: Outcome<U>)
    ensures r.Ok? <==> o.Ok?
    ensures r.Raised? ==> r == Raised(o.fault)
  {
    match o
    case Ok(_) => Ok(v)
    case Raised(f) => Raised(f)
  }

  predicate Sorted(s: seq<int>) {
    forall i, j :: 0 <= i < j < |s| ==> s[i] <= s[j]
  }

  predicate StrictlySorted(s: seq<int>) {
    forall i, j :: 0 <= i < j < |s| ==> s[i] < s[j]
  }

  /** `list.insert(i, x)` for an index inside the list. */
  function InsertAt<T>(s: seq<T>, i: nat, x: T): (r: seq<T>)
    requires i <= |s|
    ensures |r| == |s| + 1 && r[i] == x
    ensures r[..i] == s[..i] && r[i + 1..] == s[i..]
    ensures multiset(r) == multiset(s) + multiset{x}
  {
    assert s == s[..i] + s[i..];
    s[..i] + [x] + s[i..]
  }

  /** `list.pop(i)` for an index inside the list, as the list left behind. */
  function RemoveAt<T>(s: seq<T>, i: nat): (r: seq<T>)
    requires i < |s|
    ensures |r| == |s| - 1
    ensures r[..i] == s[..i] && r[i..] == s[i + 1..]
    ensures multiset(r) == multiset(s) - multiset{s[i]}
  {
    assert s == s[..i] + [s[i]] + s[i + 1..];
    s[..i] + s[i + 1..]
  }

  // ---- Python's reading of list indices and slice bounds ----

  /** A list index as Python reads it: a negative index counts from the end. */
  function PyIndex(len: nat, i: int): int {
    if i < 0 then i + len else i
  }

  /** Whether `s[i]` exists for a list of length len (otherwise IndexError). */
  predicate PyInRange(len: nat, i: int) {
    0 <= PyIndex(len, i) < len
  }

  /** A slice bound, or the position of `list.insert`, as Python clamps it into 0..len. */
  function PyClamp(len: nat, i: int): (k: int)
    ensures 0 <= k
    ensures k <= len
    ensures 0 <= i <= len ==> k == i
    ensures 0 <= i + len && i < 0 ==> k == i + len
  {
    if i < 0 then (if i + len < 0 then 0 else i + len) else if i > len then len else i
  }

  /** `s[i] = x` for an index that exists. */
  function PySet<T>(s: seq<T>, i: int, x: T): (r: seq<T>)
    requires PyInRange(|s|, i)
    ensures |r| == |s| && r[PyIndex(|s|, i)] == x
    ensures forall k :: 0 <= k < |s| && k != PyIndex(|s|, i) ==> r[k] == s[k]
  {
    s[PyIndex(|s|, i) := x]
  }

  /** `s.insert(i, x)` for any integer i. */
  function PyInsert<T>(s: seq<T>, i: int, x: T): (r: seq<T>)
    ensures |r| == |s| + 1
    ensures 0 <= i <= |s| ==> r == InsertAt(s, i, x)
  {
    InsertAt(s, PyClamp(|s|, i), x)
  }

  /** `s[lo:hi] = t`: the slice is replaced by t (an empty slice sits at lo). */
  function PySplice<T>(s: seq<T>, lo: int, hi: int, t: seq<T>): (r: seq<T>)
    ensures 0 <= lo <= hi <= |s| ==> r == s[..lo] + t + s[hi..]
    ensures |r| == |s| + |t| - (if PyClamp(|s|, hi) < PyClamp(|s|, lo) then 0 else PyClamp(|s|, hi) - PyClamp(|s|, lo))
  {
    var l := PyClamp(|s|, lo);
    var h := PyClamp(|s|, hi);
    s[..l] + t + s[if h < l then l else h..]
  }

  function Last<T>(s: seq<T>): T
    requires |s| > 0
  {
    s[|s| - 1]
  }

  /** Python's `s[:n]` for n >= 0: never fails, keeps at most n elements. */
  function Take<T>(s: seq<T>, n: nat): (r: seq<T>)
    ensures |r| == if n <= |s| then n else |s|
    ensures forall i :: 0 <= i < |r| ==> r[i] == s[i]
  {
    if n <= |s| then s[..n] else s
  }

  /** Python's `s[n:]` for n >= 0: never fails, empty past the end. */
  function Drop<T>(s: seq<T>, n: nat): (r: seq<T>)
    ensures |r| == if n <= |s| then |s| - n else 0
    ensures forall i :: 0 <= i < |r| ==> r[i] == s[n + i]
  {
    if n <= |s| then s[n..] else []
  }

  /**
   * The first index whose element is not below x, or |s| when there is none:
   * the scans `while i < len(keys) and k > keys[i]` of the classic engine.
   */
  function LowerBound(s: seq<int>, x: int): (i: nat)
    ensures i <= |s|
    ensures forall j :: 0 <= j < i ==> s[j] < x
    ensures i < |s| ==> x <= s[i]
  {
    if s == [] || x <= s[0] then 0 else 1 + LowerBound(s[1..], x)
  }

  /** The first index whose element is above x, or |s| when there is none. */
  function UpperBound(s: seq<int>, x: int): (i: nat)
    ensures i <= |s|
    ensures forall j :: 0 <= j < i ==> s[j] <= x
    ensures i < |s| ==> x < s[i]
  {
    if s == [] || x < s[0] then 0 else 1 + UpperBound(s[1..], x)
  }

  /** The two properties of LowerBound pin it down. */
  lemma LowerBoundUnique(s: seq<int>, x: int, i: nat)
    requires i <= |s|
    requires forall j :: 0 <= j < i ==> s[j] < x
    requires i < |s| ==> x <= s[i]
    ensures i == LowerBound(s, x)
  {
  }

  lemma UpperBoundUnique(s: seq<int>, x: int, i: nat)
    requires i <= |s|
    requires forall j :: 0 <= j < i ==> s[j] <= x
    requires i < |s| ==> x < s[i]
    ensures i == UpperBound(s, x)
  {
  }

  /** The halving loop of Python's `bisect.bisect_left` on `s[lo:hi]`. */
  function BisectLeftIn(s: seq<int>, x: int, lo: nat, hi: nat): (i: nat)
    requires lo <= hi <= |s|
    ensures lo <= i <= hi
    ensures (Sorted(s) && (lo > 0 ==> s[lo - 1] < x) && (hi < |s| ==> x <= s[hi]))
            ==> i == LowerBound(s, x)
    decreases hi - lo
  {
    if lo < hi then
      var mid := (lo + hi) / 2;
      if s[mid] < x then BisectLeftIn(s, x, mid + 1, hi) else BisectLeftIn(s, x, lo, mid)
    else
      if Sorted(s) && (lo > 0 ==> s[lo - 1] < x) && (hi < |s| ==> x <= s[hi]) then
        LowerBoundUnique(s, x, lo);
        lo
      else
        lo
  }

  /** `bisect.bisect_left(s, x)`: on a sorted list, the first index not below x. */
  function BisectLeft(s: seq<int>, x: int): (i: nat)
    ensures i <= |s|
    ensures Sorted(s) ==> i == LowerBound(s, x)
  {
    BisectLeftIn(s, x, 0, |s|)
  }

  /** The halving loop of Python's `bisect.bisect_right` on `s[lo:hi]`. */
  function BisectRightIn(s: seq<int>, x: int, lo: nat, hi: nat): (i: nat)
    requires lo <= hi <= |s|
    ensures lo <= i <= hi
    ensures (Sorted(s) && (lo > 0 ==> s[lo - 1] <= x) && (hi < |s| ==> x < s[hi]))
            ==> i == UpperBound(s, x)
    decreases hi - lo
  {
    if lo < hi then
      var mid := (lo + hi) / 2;
      if x < s[mid] then BisectRightIn(s, x, lo, mid) else BisectRightIn(s, x, mid + 1, hi)
    else
      if Sorted(s) && (lo > 0 ==> s[lo - 1] <= x) && (hi < |s| ==> x < s[hi]) then
        UpperBoundUnique(s, x, lo);
        lo
      else
        lo
  }

  /** `bisect.insort(s, x)`: insert x after every element not above it. */
  function Insort(s: seq<int>, x: int): (r: seq<int>)
    ensures |r| == |s| + 1
    ensures multiset(r) == multiset(s) + multiset{x}
    ensures Sorted(s) ==> Sorted(r) && r == InsertAt(s, UpperBound(s, x), x)
  {
    var i := BisectRightIn(s, x, 0, |s|);
    var r := InsertAt(s, i, x);
    if Sorted(s) then
      assert i == UpperBound(s, x);
      assert Sorted(r) by {
        forall a, b | 0 <= a < b < |r| ensures r[a] <= r[b] {
          if b < i {
            assert r[a] == s[a] && r[b] == s[b];
          } else if b == i {
            assert r[a] == s[a];
          } else if a < i {
            assert r[a] == s[a] && r[b] == s[b - 1];
          } else if a == i {
            assert r[b] == s[b - 1];
          } else {
            assert r[a] == s[a - 1] && r[b] == s[b - 1];
          }
        }
      }
      r
    else
      r
  }

  /** `list.sort()` on integers: the sorted permutation (insertion sort). */
  function SortInts(s: seq<int>): (r: seq<int>)
    ensures Sorted(r) && multiset(r) == multiset(s) && |r| == |s|
  {
    if s == [] then []
    else
      var front := SortInts(s[..|s| - 1]);
      assert s == s[..|s| - 1] + [s[|s| - 1]];
      assert multiset(s) == multiset(s[..|s| - 1]) + multiset{s[|s| - 1]};
      Insort(front, s[|s| - 1])
  }

  /** An element not below any element of a sorted list is inserted at its end. */
  lemma InsortAtEnd(front: seq<int>, x: int)
    requires Sorted(front)
    requires forall j :: 0 <= j < |front| ==> front[j] <= x
    ensures Insort(front, x) == front + [x]
  {
    UpperBoundUnique(front, x, |front|);
  }

  /** Sorting a list that is already sorted leaves it as it is. */
  lemma {:induction false} SortSortedIdentity(s: seq<int>)
    requires Sorted(s)
    ensures SortInts(s) == s
    decreases |s|
  {
    if s != [] {
      var n := |s|;
      var front := s[..n - 1];
      assert s == front + [s[n - 1]];
      SortSortedIdentity(front);
      InsortAtEnd(front, s[n - 1]);
    }
  }

  /** The sequence with every occurrence of x removed. */
  function Without(s: seq<int>, x: int): (r: seq<int>)
    ensures x !in r
    ensures |r| <= |s|
  {
    if s == [] then [] else (if s[0] == x then [] else [s[0]]) + Without(s[1..], x)
  }

  /** Removing x keeps every other element. */
  lemma {:induction false} WithoutMembers(s: seq<int>, x: int, y: int)
    requires y != x
    ensures y in Without(s, x) <==> y in s
    decreases |s|
  {
    if s != [] {
      WithoutMembers(s[1..], x, y);
      assert s == [s[0]] + s[1..];
    }
  }

  lemma {:induction false} WithoutConcat(a: seq<int>, b: seq<int>, x: int)
    ensures Without(a + b, x) == Without(a, x) + Without(b, x)
    decreases |a|
  {
    if a == [] {
      assert a + b == b;
    } else {
      assert (a + b)[0] == a[0];
      assert (a + b)[1..] == a[1..] + b;
      WithoutConcat(a[1..], b, x);
      if a[0] != x {
        var u, v := Without(a[1..], x), Without(b, x);
        assert [a[0]] + (u + v) == ([a[0]] + u) + v;
      }
    }
  }

  lemma {:induction false} WithoutAbsent(s: seq<int>, x: int)
    requires x !in s
    ensures Without(s, x) == s
    decreases |s|
  {
    if s != [] {
      WithoutAbsent(s[1..], x);
    }
  }

  /** Removing the one occurrence of x from a strictly sorted sequence that holds it at the pivot. */
  lemma WithoutPivot(a: seq<int>, x: int, b: seq<int>)
    requires StrictlySorted(a + [x] + b)
    ensures Without(a + [x] + b, x) == a + b
  {
    var s := a + [x] + b;
    assert x !in a by {
      forall i | 0 <= i < |a| ensures a[i] != x { assert s[i] == a[i] && s[|a|] == x; }
    }
    assert x !in b by {
      forall i | 0 <= i < |b| ensures b[i] != x { assert s[|a| + 1 + i] == b[i] && s[|a|] == x; }
    }
    WithoutMiddle(a, x, b);
  }

  lemma WithoutMiddle(a: seq<int>, x: int, b: seq<int>)
    requires x !in a && x !in b
    ensures Without(a + [x] + b, x) == a + b
  {
    assert Without([x], x) == [] by { assert [x][1..] == []; }
    WithoutConcat(a, [x], x);
    WithoutAbsent(a, x);
    assert Without(a + [x], x) == a;
    WithoutConcat(a + [x], b, x);
    WithoutAbsent(b, x);
  }

  /** A value absent at its lower bound is absent from a sorted sequence. */
  lemma LowerBoundAbsent(s: seq<int>, x: int)
    requires Sorted(s) && !(LowerBound(s, x) < |s| && s[LowerBound(s, x)] == x)
    ensures x !in s
  {
    var i := LowerBound(s, x);
    forall j | 0 <= j < |s| ensures s[j] != x {
      if j > i {
        assert s[i] <= s[j];
      }
    }
  }

  /** Removing x from b + c + a touches only c when the outer parts lack x. */
  lemma WithoutAround(b: seq<int>, c: seq<int>, a: seq<int>, x: int)
    requires x !in b && x !in a
    ensures Without(b + c + a, x) == b + Without(c, x) + a
  {
    WithoutConcat(b + c, a, x);
    WithoutConcat(b, c, x);
    WithoutAbsent(b, x);
    WithoutAbsent(a, x);
  }

  /** In a strictly sorted b + c + a where every occurrence of x lies in c, removal happens in c. */
  lemma WithoutInside(b: seq<int>, c: seq<int>, a: seq<int>, x: int)
    requires StrictlySorted(b + c + a)
    requires x in b + c + a ==> x in c
    ensures Without(b + c + a, x) == b + Without(c, x) + a
  {
    var s := b + c + a;
    if x in c {
      var t :| 0 <= t < |c| && c[t] == x;
      assert s[|b| + t] == x;
      assert x !in b by {
        forall i | 0 <= i < |b| ensures b[i] != x { assert s[i] == b[i]; }
      }
      assert x !in a by {
        forall i | 0 <= i < |a| ensures a[i] != x { assert s[|b| + |c| + i] == a[i]; }
      }
    }
    WithoutAround(b, c, a, x);
  }

  /** In a strictly sorted sequence, removing the element at i is removing that value. */
  lemma WithoutAt(s: seq<int>, i: nat)
    requires StrictlySorted(s) && i < |s|
    ensures Without(s, s[i]) == RemoveAt(s, i)
  {
    PivotSplit(s, i);
    WithoutPivot(s[..i], s[i], s[i + 1..]);
  }

  lemma PivotSplit<T>(s: seq<T>, i: nat)
    requires i < |s|
    ensures s == s[..i] + [s[i]] + s[i + 1..]
  {
  }

  /** In a strictly sorted sequence an element occurs nowhere else. */
  lemma PivotAbsent(s: seq<int>, front: seq<int>, x: int, back: seq<int>)
    requires StrictlySorted(s) && s == front + [x] + back
    ensures x !in front && x !in back
  {
    assert s[|front|] == x;
    forall i | 0 <= i < |front| ensures front[i] != x { assert s[i] == front[i]; }
    forall i | 0 <= i < |back| ensures back[i] != x { assert s[|front| + 1 + i] == back[i]; }
  }

  /**
   * The predecessor swap: k, preceded by its predecessor p, is removed by
   * writing p over k and removing p from the part that ended with it.
   */
  lemma PredecessorSwap(b: seq<int>, l: seq<int>, p: int, k: int, c: seq<int>, a: seq<int>)
    requires StrictlySorted(b + (l + [p]) + ([k] + c + a))
    ensures Without(b + (l + [p]) + ([k] + c + a), k) == b + Without(l + [p], p) + ([p] + c + a)
  {
    var s := b + (l + [p]) + ([k] + c + a);
    assert s == (b + l + [p]) + [k] + (c + a);
    assert s == (b + l) + [p] + ([k] + c + a);
    PivotAbsent(s, b + l + [p], k, c + a);
    PivotAbsent(s, b + l, p, [k] + c + a);
    WithoutMiddle(b + l + [p], k, c + a);
    assert l + [p] == l + [p] + [];
    WithoutMiddle(l, p, []);
    assert b + l + [p] + (c + a) == b + l + ([p] + c + a);
  }

  /**
   * The successor swap: k, followed by its successor q, is removed by writing
   * q over k and removing q from the part that began with it.
   */
  lemma SuccessorSwap(b: seq<int>, l: seq<int>, k: int, q: int, r: seq<int>, a: seq<int>)
    requires StrictlySorted(b + l + ([k] + ([q] + r) + a))
    ensures Without(b + l + ([k] + ([q] + r) + a), k) == (b + l + [q]) + Without([q] + r, q) + a
  {
    var s := b + l + ([k] + ([q] + r) + a);
    SuccessorShape(b, l, k, q, r, a);
    PivotAbsent(s, b + l, k, [q] + r + a);
    PivotAbsent(s, b + l + [k], q, r + a);
    WithoutMiddle(b + l, k, [q] + r + a);
    WithoutMiddle([], q, r);
  }

  lemma SuccessorShape(b: seq<int>, l: seq<int>, k: int, q: int, r: seq<int>, a: seq<int>)
    ensures b + l + ([k] + ([q] + r) + a) == (b + l) + [k] + ([q] + r + a)
    ensures b + l + ([k] + ([q] + r) + a) == (b + l + [k]) + [q] + (r + a)
    ensures [q] + r == [] + [q] + r
    ensures (b + l) + ([q] + r + a) == (b + l + [q]) + r + a
  {
  }

  lemma StrictlySortedSuffix(s: seq<int>, n: nat)
    requires StrictlySorted(s) && n <= |s|
    ensures StrictlySorted(s[n..])
  {
    var t := s[n..];
    forall i, j | 0 <= i < j < |t| ensures t[i] < t[j] {
      assert t[i] == s[n + i] && t[j] == s[n + j];
    }
  }

  /** Removing a value keeps a sorted sequence sorted, and a strictly sorted one strictly sorted. */
  lemma {:induction false} WithoutSorted(s: seq<int>, x: int)
    ensures Sorted(s) ==> Sorted(Without(s, x))
    ensures StrictlySorted(s) ==> StrictlySorted(Without(s, x))
    decreases |s|
  {
    if s != [] {
      var t := s[1..];
      var w := Without(t, x);
      WithoutSorted(t, x);
      assert Sorted(s) ==> Sorted(t) by {
        if Sorted(s) {
          forall i, j | 0 <= i < j < |t| ensures t[i] <= t[j] { assert t[i] == s[i + 1] && t[j] == s[j + 1]; }
        }
      }
      StrictlySortedSuffix2(s);
      if s[0] != x {
        assert Without(s, x) == [s[0]] + w;
        forall y | y in w ensures y in t {
          WithoutMembers(t, x, y);
        }
        HeadJoin(s[0], t, w);
      }
    }
  }

  lemma StrictlySortedSuffix2(s: seq<int>)
    requires |s| >= 1
    ensures StrictlySorted(s) ==> StrictlySorted(s[1..])
  {
    if StrictlySorted(s) {
      StrictlySortedSuffix(s, 1);
    }
  }

  /** Putting a sequence's head in front of a part of its tail. */
  lemma HeadJoin(h: int, t: seq<int>, w: seq<int>)
    requires forall y :: y in w ==> y in t
    ensures Sorted([h] + t) && Sorted(w) ==> Sorted([h] + w)
    ensures StrictlySorted([h] + t) && StrictlySorted(w) ==> StrictlySorted([h] + w)
  {
    var s, r := [h] + t, [h] + w;
    forall i | 0 <= i < |w| ensures Sorted(s) ==> h <= w[i] ensures StrictlySorted(s) ==> h < w[i] {
      assert w[i] in w;
      var j :| 0 <= j < |t| && t[j] == w[i];
      assert s[j + 1] == w[i] && s[0] == h;
    }
    forall i, j | 0 <= i < j < |r| ensures Sorted(s) && Sorted(w) ==> r[i] <= r[j]
                                 ensures StrictlySorted(s) && StrictlySorted(w) ==> r[i] < r[j] {
      assert r[j] == w[j - 1];
      if i > 0 {
        assert r[i] == w[i - 1];
      }
    }
  }

  /** Where x lands when it is inserted into a concatenation whose front is all below x. */
  lemma LowerBoundSplit(b: seq<int>, c: seq<int>, a: seq<int>, x: int)
    requires forall y :: y in b ==> y < x
    requires LowerBound(c, x) == |c| ==> a == [] || x <= a[0]
    ensures LowerBound(b + c + a, x) == |b| + LowerBound(c, x)
  {
    var s := b + c + a;
    var i := |b| + LowerBound(c, x);
    forall j | 0 <= j < i ensures s[j] < x {
      if j < |b| {
        assert s[j] == b[j] && b[j] in b;
      } else {
        assert s[j] == c[j - |b|];
      }
    }
    if i < |s| {
      if LowerBound(c, x) < |c| {
        assert s[i] == c[LowerBound(c, x)];
      } else {
        assert s[i] == a[0];
      }
    }
    LowerBoundUnique(s, x, i);
  }

  /** An insertion into the middle part of b + c + a is an insertion into the whole at the shifted index. */
  lemma InsertThrough(s: seq<int>, b: seq<int>, c: seq<int>, a: seq<int>, c': seq<int>, l: nat, i: nat, x: int)
    requires s == b + c + a && i <= |c| && l == |b| + i && c' == InsertAt(c, i, x)
    ensures l <= |s| && b + c' + a == InsertAt(s, l, x)
  {
    InsertAtSplit(b, c, a, i, x);
  }

  lemma InsertAtSplit(b: seq<int>, c: seq<int>, a: seq<int>, i: nat, x: int)
    requires i <= |c|
    ensures InsertAt(b + c + a, |b| + i, x) == b + InsertAt(c, i, x) + a
  {
    var s := b + c + a;
    assert s[..|b| + i] == b + c[..i];
    assert s[|b| + i..] == c[i..] + a;
  }

  /** Inserting before the first element not below x keeps a sorted sequence sorted. */
  lemma InsertSorted(s: seq<int>, x: int)
    requires Sorted(s)
    ensures Sorted(InsertAt(s, LowerBound(s, x), x))
  {
    var i := LowerBound(s, x);
    var r := InsertAt(s, i, x);
    forall a, b | 0 <= a < b < |r| ensures r[a] <= r[b] {
      if b < i {
        assert r[a] == s[a] && r[b] == s[b];
      } else if b == i {
        assert r[a] == s[a];
      } else if a < i {
        assert r[a] == s[a] && r[b] == s[b - 1];
      } else if a == i {
        assert r[b] == s[b - 1];
      } else {
        assert r[a] == s[a - 1] && r[b] == s[b - 1];
      }
    }
  }

  /**
   * In a sorted sequence, inserting x after its equals (as `insort` does) or
   * before them (at `bisect_left`) gives the same sequence.
   */
  lemma InsortLowerBound(s: seq<int>, x: int)
    requires Sorted(s)
    ensures Insort(s, x) == InsertAt(s, LowerBound(s, x), x)
  {
    var l, u := LowerBound(s, x), UpperBound(s, x);
    assert l <= u;
    forall j | l <= j < u ensures s[j] == x {
      assert s[l] <= s[j];
    }
    InsertInRun(s, x, l, u);
  }

  /** Inserting x anywhere in a run of elements equal to x gives the same sequence. */
  lemma InsertInRun(s: seq<int>, x: int, l: nat, u: nat)
    requires l <= u <= |s| && forall j :: l <= j < u ==> s[j] == x
    ensures InsertAt(s, u, x) == InsertAt(s, l, x)
  {
    var r1, r2 := InsertAt(s, u, x), InsertAt(s, l, x);
    forall k | 0 <= k < |r1| ensures r1[k] == r2[k] {
      if k < l {
        assert r1[k] == s[k] && r2[k] == s[k];
      } else if k > u {
        assert r1[k] == s[k - 1] && r2[k] == s[k - 1];
      } else {
        if k < u {
          assert r1[k] == s[k];
        }
        if k > l {
          assert r2[k] == s[k - 1];
        }
      }
    }
  }

  /** The same, strictly, when x was absent. */
  lemma InsertStrictlySorted(s: seq<int>, x: int)
    requires StrictlySorted(s) && x !in s
    ensures StrictlySorted(InsertAt(s, LowerBound(s, x), x))
  {
    var i := LowerBound(s, x);
    var r := InsertAt(s, i, x);
    assert i < |s| ==> x < s[i] by {
      if i < |s| { assert s[i] in s; }
    }
    InsertStrictStep(s, x, i);
  }

  lemma InsertStrictStep(s: seq<int>, x: int, i: nat)
    requires StrictlySorted(s) && i <= |s|
    requires forall j :: 0 <= j < i ==> s[j] < x
    requires i < |s| ==> x < s[i]
    ensures StrictlySorted(InsertAt(s, i, x))
  {
    var r := InsertAt(s, i, x);
    forall a, b | 0 <= a < b < |r| ensures r[a] < r[b] {
      if b < i {
        assert r[a] == s[a] && r[b] == s[b];
      } else if b == i {
        assert r[a] == s[a];
      } else if a < i {
        assert r[a] == s[a] && r[b] == s[b - 1];
      } else if a == i {
        assert r[b] == s[b - 1];
      } else {
        assert r[a] == s[a - 1] && r[b] == s[b - 1];
      }
    }
  }

  lemma StrictlySortedIsSorted(s: seq<int>)
    requires StrictlySorted(s)
    ensures Sorted(s)
  {
  }

  // ---- `list.remove` ----

  /** `s.remove(x)` for an x the list holds: its first occurrence goes. */
  function PyRemove<T(==)>(s: seq<T>, x: T): (r: seq<T>)
    requires x in s
    ensures |r| == |s| - 1
  {
    if s[0] == x then s[1..] else [s[0]] + PyRemove(s[1..], x)
  }

  /** Removing a value whose first occurrence is at i is removing position i. */
  lemma {:induction false} PyRemoveAt<T>(s: seq<T>, i: nat)
    requires i < |s| && forall t :: 0 <= t < i ==> s[t] != s[i]
    ensures PyRemove(s, s[i]) == s[..i] + s[i + 1..]
    decreases i
  {
    if i == 0 {
      assert s[..0] + s[1..] == s[1..];
    } else {
      var t, x := s[1..], s[i];
      assert t[i - 1] == x;
      assert forall u :: 0 <= u < i - 1 ==> t[u] == s[u + 1];
      PyRemoveAt(t, i - 1);
      assert PyRemove(s, x) == [s[0]] + (t[..i - 1] + t[i..]);
      assert s[..i] == [s[0]] + t[..i - 1] && s[i + 1..] == t[i..];
    }
  }

  /** No value occurs twice. */
  predicate Unique<T(==)>(s: seq<T>) {
    forall i, j :: 0 <= i < j < |s| ==> s[i] != s[j]
  }

  /** A set of integers that is not empty has a member: the step before `var x :| x in s` over a dictionary's keys. */
  lemma NonEmpty(s: set<int>)
    requires s != {}
    ensures exists n :: n in s
  {
    if forall n :: n !in s {
      assert false;
    }
  }

  /**
   * The same for any element type, used for sets of edge keys. For sets of
   * integers the verifier does not pick a witness from this form, hence
   * NonEmpty above.
   */
  lemma Inhabited<T>(s: set<T>)
    requires s != {}
    ensures exists x :: x in s
  {
    if forall x :: x !in s {
      assert false;
    }
  }
}
