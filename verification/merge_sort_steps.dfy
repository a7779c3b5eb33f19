/**
 * The merge-sort stepper of TP3/TP3.py (and its near twin TP3.py): a
 * top-down merge sort over the ranges (l, r) of the array that logs one tagged
 * step per event (a leaf, a split, each comparison of the merge, the end of
 * a merge), and a state per range that the steps update as the user moves
 * forwards and backwards through the log.
 *
 * This module holds the values: the steps, the sort and its log as
 * functions, the ranges the tree of calls visits, and the effect of a step
 * on the per-range state.
 */
module MergeSortLog {
  import opened Common

  /** A node of the tree of calls: the inclusive index range (l, r). */
  type Range = (int, int)

  /**
   * The tuples `generate_steps` appends. Each carries the list that becomes
   * the values of its range when the step is applied.
   */
  datatype Step =
    | Leaf(rng: Range, values: seq<int>)                                       // ('leaf', (l, l), [arr[l]])
    | Split(rng: Range, values: seq<int>)                                      // ('split', (l, r), arr[l:r+1])
    | Compare(rng: Range, lv: Option<int>, rv: Option<int>, values: seq<int>)  // ('compare', (l, r), L[i], R[j], merged)
    | MergeComplete(rng: Range, values: seq<int>)                              // ('merge_complete', (l, r), merged)

  // ---- the merge ----

  /** The two-index merge: the smaller head first, the left head on ties. */
  function Merge(L: seq<int>, R: seq<int>): (m: seq<int>)
    ensures |m| == |L| + |R|
    decreases |L| + |R|
  {
    if L == [] then R
    else if R == [] then L
    else if L[0] <= R[0] then [L[0]] + Merge(L[1..], R)
    else [R[0]] + Merge(L, R[1..])
  }

  /**
   * The `compare` steps the three merge loops log from the point where L and
   * R remain and `merged` has been built: one per element still to place,
   * each carrying a copy of `merged` before that element is appended.
   */
  function MergeLog(rng: Range, L: seq<int>, R: seq<int>, merged: seq<int>): (log: seq<Step>)
    decreases |L| + |R|
  {
    if L != [] && R != [] then
      [Compare(rng, Some(L[0]), Some(R[0]), merged)] +
      (if L[0] <= R[0] then MergeLog(rng, L[1..], R, merged + [L[0]])
       else MergeLog(rng, L, R[1..], merged + [R[0]]))
    else if L != [] then
      [Compare(rng, Some(L[0]), None, merged)] + MergeLog(rng, L[1..], R, merged + [L[0]])
    else if R != [] then
      [Compare(rng, None, Some(R[0]), merged)] + MergeLog(rng, L, R[1..], merged + [R[0]])
    else []
  }

  /** The first element of a merge is one of the two heads. */
  lemma MergeHead(L: seq<int>, R: seq<int>)
    requires L != [] || R != []
    ensures Merge(L, R)[0] == (if L == [] then R[0] else if R == [] then L[0] else if L[0] <= R[0] then L[0] else R[0])
  {
  }

  /** Merging two sorted lists gives a sorted list. */
  lemma {:induction false} MergeSorted(L: seq<int>, R: seq<int>)
    requires Sorted(L) && Sorted(R)
    ensures Sorted(Merge(L, R))
    decreases |L| + |R|
  {
    if L != [] && R != [] {
      if L[0] <= R[0] {
        MergeSorted(L[1..], R);
        if L[1..] != [] || R != [] {
          MergeHead(L[1..], R);
        }
        SortedCons(L[0], Merge(L[1..], R));
      } else {
        MergeSorted(L, R[1..]);
        if R[1..] != [] {
          MergeHead(L, R[1..]);
        } else {
          MergeHead(L, R[1..]);
        }
        SortedCons(R[0], Merge(L, R[1..]));
      }
    }
  }

  /** A sorted list stays sorted with a smaller-or-equal head in front. */
  lemma SortedCons(x: int, s: seq<int>)
    requires Sorted(s) && (s != [] ==> x <= s[0])
    ensures Sorted([x] + s)
  {
  }

  /** The merge is a permutation of its two inputs. */
  lemma {:induction false} MergePermutes(L: seq<int>, R: seq<int>)
    ensures multiset(Merge(L, R)) == multiset(L) + multiset(R)
    decreases |L| + |R|
  {
    if L != [] && R != [] {
      if L[0] <= R[0] {
        MergePermutes(L[1..], R);
        assert Merge(L, R) == [L[0]] + Merge(L[1..], R);
        assert L == [L[0]] + L[1..];
      } else {
        MergePermutes(L, R[1..]);
        assert Merge(L, R) == [R[0]] + Merge(L, R[1..]);
        assert R == [R[0]] + R[1..];
      }
    } else if L == [] {
      assert L + R == R;
    }
  }

  /**
   * The merge log holds one `compare` step per element to place, all on the
   * same range; the t-th carries the first |merged| + t elements of the
   * final merged list.
   */
  ghost predicate MergeLogShaped(rng: Range, L: seq<int>, R: seq<int>, merged: seq<int>) {
    var log := MergeLog(rng, L, R, merged);
    |log| == |L| + |R| &&
    forall t :: 0 <= t < |log| ==>
      log[t].Compare? && log[t].rng == rng && log[t].values == (merged + Merge(L, R))[..|merged| + t]
  }

  /** Every merge log has the shape MergeLogShaped describes. */
  lemma {:induction false} MergeLogShape(rng: Range, L: seq<int>, R: seq<int>, merged: seq<int>)
    ensures MergeLogShaped(rng, L, R, merged)
    decreases |L| + |R|
  {
    if L != [] || R != [] {
      var takeLeft := L != [] && (R == [] || L[0] <= R[0]);
      var x := if takeLeft then L[0] else R[0];
      var L', R' := if takeLeft then L[1..] else L, if takeLeft then R else R[1..];
      var merged' := merged + [x];
      MergeLogShape(rng, L', R', merged');
      ShapedStep(rng, L, R, merged, x, L', R', merged');
    }
  }

  /** One placed element: the log and the merge both continue from the rest. */
  lemma ShapedStep(rng: Range, L: seq<int>, R: seq<int>, merged: seq<int>, x: int, L': seq<int>, R': seq<int>, merged': seq<int>)
    requires L != [] || R != []
    requires L != [] && (R == [] || L[0] <= R[0]) ==> x == L[0] && L' == L[1..] && R' == R
    requires !(L != [] && (R == [] || L[0] <= R[0])) ==> x == R[0] && L' == L && R' == R[1..]
    requires merged' == merged + [x]
    requires MergeLogShaped(rng, L', R', merged')
    ensures MergeLogShaped(rng, L, R, merged)
  {
    var log, rest := MergeLog(rng, L, R, merged), MergeLog(rng, L', R', merged');
    assert log == [log[0]] + rest;
    assert Merge(L, R) == [x] + Merge(L', R');
    var full := merged + Merge(L, R);
    assert full == merged' + Merge(L', R');
    forall t | 0 <= t < |log|
      ensures log[t].Compare? && log[t].rng == rng && log[t].values == full[..|merged| + t]
    {
      if t > 0 {
        assert log[t] == rest[t - 1];
      }
    }
  }

  // ---- the sort and its log ----

  /** Indices `generate_steps(arr, l, r)` may read: an empty range, or one inside the array. */
  predicate InArray(arr: seq<int>, l: int, r: int) {
    l > r || (0 <= l && r < |arr|)
  }

  /** The list `generate_steps(arr, l, r)` returns. */
  function Sort(arr: seq<int>, l: int, r: int): (s: seq<int>)
    requires InArray(arr, l, r)
    ensures |s| == if l > r then 0 else r - l + 1
    decreases r - l
  {
    if l > r then []
    else if l == r then [arr[l]]
    else
      var mid := Mid(l, r);
      Merge(Sort(arr, l, mid), Sort(arr, Hi(l, r), r))
  }

  /** The steps `generate_steps(arr, l, r)` appends, in order. */
  function Log(arr: seq<int>, l: int, r: int): (log: seq<Step>)
    requires InArray(arr, l, r)
    decreases r - l
  {
    if l > r then []
    else if l == r then [Leaf((l, r), [arr[l]])]
    else
      var mid := Mid(l, r);
      [Split((l, r), arr[l..r + 1])] + Log(arr, l, mid) + Log(arr, Hi(l, r), r)
      + MergeLog((l, r), Sort(arr, l, mid), Sort(arr, Hi(l, r), r), [])
      + [MergeComplete((l, r), Sort(arr, l, r))]
  }

  /** A range of two or more elements sorts to the merge of its sorted halves. */
  lemma SortStep(arr: seq<int>, l: int, mid: int, hi: int, r: int)
    requires 0 <= l < r < |arr| && mid == Mid(l, r) && hi == Hi(l, r)
    ensures Sort(arr, l, r) == Merge(Sort(arr, l, mid), Sort(arr, hi, r))
  {
  }

  /** `generate_steps` returns the range in non-decreasing order. */
  lemma {:induction false} SortSorted(arr: seq<int>, l: int, r: int)
    requires InArray(arr, l, r)
    ensures Sorted(Sort(arr, l, r))
    decreases r - l
  {
    if l < r {
      var mid := Mid(l, r);
      var hi := Hi(l, r);
      SortSorted(arr, l, mid);
      SortSorted(arr, hi, r);
      SortedStep(arr, l, mid, hi, r);
    }
  }

  /** The inductive step of SortSorted: sorted halves merge to a sorted range. */
  lemma SortedStep(arr: seq<int>, l: int, mid: int, hi: int, r: int)
    requires 0 <= l < r < |arr| && mid == Mid(l, r) && hi == Hi(l, r)
    requires Sorted(Sort(arr, l, mid)) && Sorted(Sort(arr, hi, r))
    ensures Sorted(Sort(arr, l, r))
  {
    SortStep(arr, l, mid, hi, r);
    MergeSorted(Sort(arr, l, mid), Sort(arr, hi, r));
  }

  /** `generate_steps` returns a permutation of `arr[l:r+1]`. */
  lemma {:induction false} SortPermutes(arr: seq<int>, l: int, r: int)
    requires 0 <= l <= r < |arr|
    ensures Permuted(arr, l, r)
    decreases r - l
  {
    if l == r {
      SortSingle(arr, l);
    } else {
      var mid, hi := Mid(l, r), Hi(l, r);
      SortPermutes(arr, l, mid);
      SortPermutes(arr, hi, r);
      PermutesStep(arr, l, mid, hi, r);
    }
  }

  /** The list `generate_steps(arr, l, r)` returns holds the elements of `arr[l:r+1]`. */
  ghost predicate Permuted(arr: seq<int>, l: int, r: int)
    requires 0 <= l <= r < |arr|
  {
    multiset(Sort(arr, l, r)) == multiset(arr[l..r + 1])
  }

  /** A one-element range sorts to itself. */
  lemma SortSingle(arr: seq<int>, l: int)
    requires 0 <= l < |arr|
    ensures Sort(arr, l, l) == arr[l..l + 1]
  {
  }

  /** The inductive step of SortPermutes: permuted halves merge to a permuted range. */
  lemma PermutesStep(arr: seq<int>, l: int, mid: int, hi: int, r: int)
    requires 0 <= l < r < |arr| && mid == Mid(l, r) && hi == Hi(l, r)
    requires Permuted(arr, l, mid) && Permuted(arr, hi, r)
    ensures Permuted(arr, l, r)
  {
    SortStep(arr, l, mid, hi, r);
    SliceSplit(arr, l, mid, hi, r);
    MergeOfParts(Sort(arr, l, mid), Sort(arr, hi, r), arr[l..mid + 1], arr[hi..r + 1], arr[l..r + 1]);
  }

  /** The inclusive range l..r is its two parts either side of mid and hi = mid + 1. */
  lemma SliceSplit(arr: seq<int>, l: int, mid: int, hi: int, r: int)
    requires 0 <= l <= mid < r < |arr| && hi == mid + 1
    ensures arr[l..r + 1] == arr[l..mid + 1] + arr[hi..r + 1]
  {
  }

  /** Merging permutations of two parts gives a permutation of the whole. */
  lemma MergeOfParts(A: seq<int>, B: seq<int>, a: seq<int>, b: seq<int>, whole: seq<int>)
    requires multiset(A) == multiset(a) && multiset(B) == multiset(b) && whole == a + b
    ensures multiset(Merge(A, B)) == multiset(whole)
  {
    MergePermutes(A, B);
  }

  /**
   * The log of a range of two or more elements: its `split` step with the
   * range's elements, the two halves' logs, the merge's `compare` steps and a
   * `merge_complete` step with the sorted range.
   */
  lemma LogStep(arr: seq<int>, l: int, mid: int, hi: int, r: int)
    requires 0 <= l < r < |arr| && mid == Mid(l, r) && hi == Hi(l, r)
    ensures Log(arr, l, r) ==
              [Split((l, r), arr[l..r + 1])] + Log(arr, l, mid) + Log(arr, hi, r)
              + MergeLog((l, r), Sort(arr, l, mid), Sort(arr, hi, r), [])
              + [MergeComplete((l, r), Sort(arr, l, r))]
  {
  }

  /** The last step of a non-empty range's log labels the whole range with its sorted list. */
  lemma LogLast(arr: seq<int>, l: int, r: int)
    requires 0 <= l <= r < |arr|
    ensures Log(arr, l, r) != []
    ensures Log(arr, l, r)[|Log(arr, l, r)| - 1].rng == (l, r)
    ensures Log(arr, l, r)[|Log(arr, l, r)| - 1].values == Sort(arr, l, r)
  {
  }

  // ---- the tree of calls ----

  /** The split point of a range, `(l + r) // 2`. */
  function Mid(l: int, r: int): (mid: int)
    requires l < r
    ensures l <= mid < r
  {
    (l + r) / 2
  }

  /** The first index of a range's right half, `mid + 1`. */
  function Hi(l: int, r: int): (hi: int)
    requires l < r
    ensures l < hi <= r && hi == Mid(l, r) + 1
  {
    Mid(l, r) + 1
  }

  /**
   * The entries `_collect_nodes(l, r, level)` writes into `node_positions`:
   * the range at its depth, then the two halves one level deeper, until a
   * range of one element.
   */
  function Levels(l: int, r: int, level: nat): (m: map<Range, nat>)
    requires l <= r
    decreases r - l
  {
    var here := map[(l, r) := level];
    if l >= r then here
    else here + Levels(l, Mid(l, r), level + 1) + Levels(Hi(l, r), r, level + 1)
  }

  /** The entries of a range of two or more elements: its own, then its halves'. */
  lemma LevelsStep(l: int, mid: int, hi: int, r: int, level: nat, deeper: nat)
    requires l < r && mid == Mid(l, r) && hi == Hi(l, r) && deeper == level + 1
    ensures Levels(l, r, level) == map[(l, r) := level] + Levels(l, mid, deeper) + Levels(hi, r, deeper)
  {
  }

  /** Every range in m lies inside l..r and sits at `level` or deeper. */
  ghost predicate Inside(m: map<Range, nat>, l: int, r: int, level: nat) {
    forall k :: k in m ==> l <= k.0 <= k.1 <= r && m[k] >= level
  }

  /** The ranges below (l, r) lie inside it; the top is recorded at its level. */
  lemma {:induction false} LevelsInside(l: int, r: int, level: nat)
    requires l <= r
    ensures (l, r) in Levels(l, r, level) && Levels(l, r, level)[(l, r)] == level
    ensures Inside(Levels(l, r, level), l, r, level)
    decreases r - l
  {
    if l < r {
      var mid := Mid(l, r);
      var hi, deeper := Hi(l, r), level + 1;
      LevelsInside(l, mid, deeper);
      LevelsInside(hi, r, deeper);
      InsideStep(l, mid, hi, r, level, deeper);
    }
  }

  /** The inductive step of LevelsInside. */
  lemma InsideStep(l: int, mid: int, hi: int, r: int, level: nat, deeper: nat)
    requires l < r && mid == Mid(l, r) && hi == Hi(l, r) && deeper == level + 1
    requires Inside(Levels(l, mid, deeper), l, mid, deeper)
    requires Inside(Levels(hi, r, deeper), hi, r, deeper)
    ensures (l, r) in Levels(l, r, level) && Levels(l, r, level)[(l, r)] == level
    ensures Inside(Levels(l, r, level), l, r, level)
  {
    LevelsStep(l, mid, hi, r, level, deeper);
    var a, b := Levels(l, mid, deeper), Levels(hi, r, deeper);
    assert (l, r) !in a && (l, r) !in b;
  }

  /** The largest level `_collect_nodes(l, r, level)` records. */
  function Deepest(l: int, r: int, level: nat): (d: nat)
    requires l <= r
    ensures d >= level
    decreases r - l
  {
    if l >= r then level
    else
      var a := Deepest(l, Mid(l, r), level + 1);
      var b := Deepest(Hi(l, r), r, level + 1);
      if a >= b then a else b
  }

  /** The deepest level below a range of two or more elements is the deeper of its halves'. */
  lemma DeepestUnfold(l: int, mid: int, hi: int, r: int, level: nat, deeper: nat)
    requires l < r && mid == Mid(l, r) && hi == Hi(l, r) && deeper == level + 1
    ensures var a, b := Deepest(l, mid, deeper), Deepest(hi, r, deeper);
            Deepest(l, r, level) == if a >= b then a else b
  {
  }

  /** d is the largest level in m, and some range is recorded at it. */
  ghost predicate MaxLevel(m: map<Range, nat>, d: nat) {
    (forall k :: k in m ==> m[k] <= d) && (exists k :: k in m && m[k] == d)
  }

  /** `max_level` is a level some range is recorded at, and no range is deeper. */
  lemma {:induction false} DeepestIsMax(l: int, r: int, level: nat)
    requires l <= r
    ensures MaxLevel(Levels(l, r, level), Deepest(l, r, level))
    decreases r - l
  {
    if l == r {
      assert (l, r) in Levels(l, r, level);
    } else {
      var mid := Mid(l, r);
      var hi, deeper := Hi(l, r), level + 1;
      DeepestIsMax(l, mid, deeper);
      DeepestIsMax(hi, r, deeper);
      LevelsInside(l, mid, deeper);
      LevelsInside(hi, r, deeper);
      DeepestStep(l, mid, hi, r, level, deeper);
    }
  }

  /** The inductive step of DeepestIsMax. */
  lemma DeepestStep(l: int, mid: int, hi: int, r: int, level: nat, deeper: nat)
    requires l < r && mid == Mid(l, r) && hi == Hi(l, r) && deeper == level + 1
    requires MaxLevel(Levels(l, mid, deeper), Deepest(l, mid, deeper))
    requires MaxLevel(Levels(hi, r, deeper), Deepest(hi, r, deeper))
    requires Inside(Levels(l, mid, deeper), l, mid, deeper)
    requires Inside(Levels(hi, r, deeper), hi, r, deeper)
    ensures MaxLevel(Levels(l, r, level), Deepest(l, r, level))
  {
    LevelsStep(l, mid, hi, r, level, deeper);
    var m, a, b := Levels(l, r, level), Levels(l, mid, deeper), Levels(hi, r, deeper);
    var d := Deepest(l, r, level);
    DeepestUnfold(l, mid, hi, r, level, deeper);
    forall k | k in m
      ensures m[k] <= d
    {
      if k in b {
        assert m[k] == b[k];
      } else if k in a {
        assert m[k] == a[k];
      }
    }
    var ka :| ka in a && a[ka] == Deepest(l, mid, deeper);
    var kb :| kb in b && b[kb] == Deepest(hi, r, deeper);
    assert ka !in b;
    assert m[ka] == a[ka] && m[kb] == b[kb];
  }

  /** Every step in `steps` is about a range in `keys`. */
  ghost predicate Covered(steps: seq<Step>, keys: set<Range>) {
    forall t :: 0 <= t < |steps| ==> steps[t].rng in keys
  }

  /** Every step of the log is about a range that `_collect_nodes` recorded. */
  lemma {:induction false} LogCovered(arr: seq<int>, l: int, r: int, level: nat)
    requires 0 <= l <= r < |arr|
    ensures Covered(Log(arr, l, r), Levels(l, r, level).Keys)
    decreases r - l
  {
    if l < r {
      var mid := Mid(l, r);
      var hi, deeper := Hi(l, r), level + 1;
      LogCovered(arr, l, mid, deeper);
      LogCovered(arr, hi, r, deeper);
      CoveredStep(arr, l, mid, hi, r, level, deeper);
    }
  }

  /** The inductive step of LogCovered. */
  lemma CoveredStep(arr: seq<int>, l: int, mid: int, hi: int, r: int, level: nat, deeper: nat)
    requires 0 <= l < r < |arr| && mid == Mid(l, r) && hi == Hi(l, r) && deeper == level + 1
    requires Covered(Log(arr, l, mid), Levels(l, mid, deeper).Keys)
    requires Covered(Log(arr, hi, r), Levels(hi, r, deeper).Keys)
    ensures Covered(Log(arr, l, r), Levels(l, r, level).Keys)
  {
    LogStep(arr, l, mid, hi, r);
    LevelsStep(l, mid, hi, r, level, deeper);
    var keys := Levels(l, r, level).Keys;
    var a, b := Sort(arr, l, mid), Sort(arr, hi, r);
    var merges := MergeLog((l, r), a, b, []);
    MergeLogShape((l, r), a, b, []);
    var top := [Split((l, r), arr[l..r + 1])];
    var left, right := Log(arr, l, mid), Log(arr, hi, r);
    var last := [MergeComplete((l, r), Sort(arr, l, r))];
    CoveredJoin(top, left, keys);
    CoveredJoin(top + left, right, keys);
    CoveredJoin(top + left + right, merges, keys);
    CoveredJoin(top + left + right + merges, last, keys);
  }

  /** Two covered step lists make a covered list. */
  lemma CoveredJoin(s: seq<Step>, u: seq<Step>, keys: set<Range>)
    requires Covered(s, keys) && Covered(u, keys)
    ensures Covered(s + u, keys)
  {
    forall t | 0 <= t < |s + u|
      ensures (s + u)[t].rng in keys
    {
      if t >= |s| {
        assert (s + u)[t] == u[t - |s|];
      }
    }
  }

  // ---- the state of each range ----

  /** The three colours a range is drawn in: COLOR_NODE, COLOR_SPLIT, COLOR_MERGED. */
  datatype Color = Plain | SplitColor | MergedColor

  /** The `values` and `color` entries of `node_state[(l, r)]`. */
  datatype NodeState = NodeState(values: Option<seq<int>>, color: Color)

  /** The state `validate_and_generate` gives, and `prev_step` restores to, every range. */
  function Blank(keys: set<Range>): (st: map<Range, NodeState>)
    ensures st.Keys == keys
    ensures forall k :: k in st ==> st[k] == NodeState(None, Plain)
  {
    map k | k in keys :: NodeState(None, Plain)
  }

  /** The colour `apply_step` gives a step's range. */
  function ColorAfter(step: Step): Color {
    match step
    case Leaf(_, _) => MergedColor
    case Split(_, _) => SplitColor
    case Compare(_, _, _, merged) => if merged != [] then MergedColor else Plain
    case MergeComplete(_, _) => MergedColor
  }

  /**
   * `apply_step` on `node_state`: the step's range takes the step's list as
   * its values; a range missing from the map raises KeyError.
   */
  function Apply(st: map<Range, NodeState>, step: Step): (r: Outcome<map<Range, NodeState>>)
    ensures r.Ok? <==> step.rng in st
    ensures r.Raised? ==> r.fault == KeyError
    ensures r.Ok? ==> r.value.Keys == st.Keys && r.value[step.rng].values == Some(step.values)
    ensures r.Ok? ==> forall k :: k in st && k != step.rng ==> r.value[k] == st[k]
  {
    if step.rng !in st then Raised(KeyError)
    else Ok(st[step.rng := NodeState(Some(step.values), ColorAfter(step))])
  }

  /** The steps applied one after another, stopping at the first raise. */
  function Replay(st: map<Range, NodeState>, steps: seq<Step>): (r: Outcome<map<Range, NodeState>>)
    decreases |steps|
  {
    if steps == [] then Ok(st)
    else
      match Replay(st, steps[..|steps| - 1])
      case Raised(f) => Raised(f)
      case Ok(s) => Apply(s, steps[|steps| - 1])
  }

  /** Steps whose ranges are all in the map replay without raising and keep its ranges. */
  lemma {:induction false} ReplayCovered(st: map<Range, NodeState>, steps: seq<Step>)
    requires Covered(steps, st.Keys)
    ensures Replay(st, steps).Ok? && Replay(st, steps).value.Keys == st.Keys
    decreases |steps|
  {
    if steps != [] {
      ReplayCovered(st, steps[..|steps| - 1]);
    }
  }

  /** Replaying one more step is applying it to the replay so far. */
  lemma ReplayStep(st: map<Range, NodeState>, steps: seq<Step>, n: nat)
    requires n < |steps|
    ensures Replay(st, steps[..n + 1]) ==
              match Replay(st, steps[..n])
              case Raised(f) => Raised(f)
              case Ok(s) => Apply(s, steps[n])
  {
    assert steps[..n + 1][..n] == steps[..n];
  }

  /** Covered steps replay to a state whose range of the last step holds that step's values. */
  lemma ReplayLast(st: map<Range, NodeState>, steps: seq<Step>)
    requires steps != [] && Covered(steps, st.Keys)
    ensures Replay(st, steps).Ok?
    ensures steps[|steps| - 1].rng in Replay(st, steps).value
    ensures Replay(st, steps).value[steps[|steps| - 1].rng].values == Some(steps[|steps| - 1].values)
  {
    var front := steps[..|steps| - 1];
    assert Covered(front, st.Keys) by {
      forall t | 0 <= t < |front|
        ensures front[t].rng in st.Keys
      {
        assert front[t] == steps[t];
      }
    }
    ReplayCovered(st, front);
  }

  /**
   * Replaying the whole log of an array from blank states leaves the top
   * range labelled with the sorted array.
   */
  lemma ReplaySorts(arr: seq<int>)
    requires arr != []
    ensures var log := Log(arr, 0, |arr| - 1);
            var top := Replay(Blank(Levels(0, |arr| - 1, 0).Keys), log);
            top.Ok? && (0, |arr| - 1) in top.value &&
            top.value[(0, |arr| - 1)].values == Some(Sort(arr, 0, |arr| - 1))
  {
    var last := |arr| - 1;
    var log := Log(arr, 0, last);
    var st := Blank(Levels(0, last, 0).Keys);
    LogCovered(arr, 0, last, 0);
    LogLast(arr, 0, last);
    ReplayLast(st, log);
  }
}
