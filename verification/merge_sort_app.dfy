/**
 * The `MergeSortTreeSteps` window of TP3/TP3.py without its drawing: the
 * array read from the entry, the step log `generate_steps` fills, the level
 * of every range of the tree of calls, the state of every range, and the
 * position in the log that "next" and "previous" move.
 */
module MergeSortApp {
  import opened Common
  import opened Text
  import opened MergeSortLog

  // ---- reading the array ----

  /** What `load_array` makes of the entry: a message, or the numbers. */
  datatype ArrayInput =
    | NoValues                // "Entrez des valeurs."
    | NotIntegers             // "Entrez des nombres entiers séparés par espaces ou virgules."
    | Values(arr: seq<int>)

  /** `raw.replace(",", " ").split()` on the stripped entry. */
  function Pieces(raw: string): seq<string> {
    Words(ReplaceChar(Strip(raw), ',', ' '))
  }

  /**
   * `load_array`'s parse: a blank entry is refused, otherwise commas and
   * whitespace separate the pieces and every piece must convert with `int`.
   */
  function ParseArray(raw: string): (r: ArrayInput)
    ensures r == NoValues <==> Strip(raw) == []
    ensures r.Values? ==>
              |r.arr| == |Pieces(raw)| && forall i :: 0 <= i < |r.arr| ==> ParseInt(Pieces(raw)[i]) == Some(r.arr[i])
  {
    if Strip(raw) == [] then NoValues
    else
      match ParseAll(Pieces(raw))
      case None => NotIntegers
      case Some(arr) => Values(arr)
  }

  /** One piece that `int` refuses makes the whole entry refused. */
  lemma ParseArrayRejects(raw: string, i: nat)
    requires Strip(raw) != [] && i < |Pieces(raw)| && ParseInt(Pieces(raw)[i]).None?
    ensures ParseArray(raw) == NotIntegers
  {
  }

  /** Numbers written out and separated by commas load back as those numbers. */
  lemma ParseArrayShown(xs: seq<int>)
    requires xs != []
    ensures ParseArray(Join(ShowAll(xs), ',')) == Values(xs)
  {
    var ps := ShowAll(xs);
    ShownTokens(xs, ps);
    var text := Join(ps, ',');
    JoinedPieces(ps, text);
    ParseShowAll(xs);
  }

  /** Every rendering of a number is a token. */
  lemma ShownTokens(xs: seq<int>, ps: seq<string>)
    requires ps == ShowAll(xs)
    ensures forall i :: 0 <= i < |ps| ==> Token(ps[i])
  {
    forall i | 0 <= i < |ps|
      ensures Token(ps[i])
    {
      ShowToken(xs[i]);
    }
  }

  /** Tokens joined by commas are a non-blank entry whose pieces are those tokens. */
  lemma JoinedPieces(ps: seq<string>, text: string)
    requires |ps| >= 1 && (forall i :: 0 <= i < |ps| ==> Token(ps[i])) && text == Join(ps, ',')
    ensures Strip(text) != [] && Pieces(text) == ps
  {
    JoinCommaTrimmed(ps);
    TrimmedStrip(text);
    assert text[..|ps[0]|] == ps[0];
    ReplaceJoin(ps);
    WordsJoin(ps);
  }

  // ---- the window ----

  class MergeSortTreeSteps {
    /** `self.array` */
    var data: seq<int>
    /** `self.steps` */
    var steps: seq<Step>
    /** `self.current_step`: how many steps are shown. */
    var currentStep: int
    /** `self.node_positions` as `_collect_nodes` fills it: the level of each range. */
    var levels: map<Range, nat>
    /** `self.max_level` */
    var maxLevel: nat
    /** `self.node_state`: the values and colour of each range. */
    var nodeState: map<Range, NodeState>

    /**
     * The window's invariant: the shown state is the replay of the first
     * `current_step` steps from blank states, every step is about a range
     * the state has, and a non-empty log is the log of the whole array.
     */
    ghost predicate Valid()
      reads this
    {
      0 <= currentStep <= |steps| &&
      levels.Keys == nodeState.Keys &&
      Covered(steps, nodeState.Keys) &&
      Replay(Blank(nodeState.Keys), steps[..currentStep]) == Ok(nodeState) &&
      (steps != [] ==> data != [] && Generated(data, steps, levels))
    }

    /** The log and the levels `validate_and_generate` produces for arr. */
    ghost predicate Generated(arr: seq<int>, log: seq<Step>, m: map<Range, nat>)
      requires arr != []
    {
      var last := |arr| - 1;
      log == Log(arr, 0, last) && m == Levels(0, last, 0)
    }

    constructor ()
      ensures Valid()
      ensures data == [] && steps == [] && currentStep == 0
      ensures levels == map[] && maxLevel == 0 && nodeState == map[]
    {
      data := [];
      steps := [];
      currentStep := 0;
      levels := map[];
      maxLevel := 0;
      nodeState := map[];
    }

    /**
     * `load_array`: a blank or unconvertible entry changes nothing; otherwise
     * the numbers become the data and the log, levels and states are cleared.
     */
    method LoadArray(raw: string) returns (r: ArrayInput)
      requires Valid()
      modifies this
      ensures Valid()
      ensures r == ParseArray(raw)
      ensures r.Values? ==> data == r.arr && steps == [] && currentStep == 0 &&
                            levels == map[] && nodeState == map[] && maxLevel == old(maxLevel)
      ensures !r.Values? ==> unchanged(this)
    {
      r := ParseArray(raw);
      if r.Values? {
        Reload(r.arr);
      }
    }

    /** The state `load_array` leaves behind once the entry has converted. */
    method Reload(arr: seq<int>)
      modifies this
      ensures Valid()
      ensures data == arr && steps == [] && currentStep == 0 &&
              levels == map[] && nodeState == map[] && maxLevel == old(maxLevel)
    {
      data := arr;
      levels := map[];
      nodeState := map[];
      steps := [];
      currentStep := 0;
      assert Blank({}) == map[];
    }

    /**
     * `validate_and_generate`: refused without an array; otherwise it records
     * the tree of calls, gives every range a blank state and generates the log.
     */
    method ValidateAndGenerate() returns (ok: bool)
      requires Valid()
      modifies this
      ensures Valid()
      ensures ok <==> old(data) != []
      ensures !ok ==> unchanged(this)
      ensures ok ==> data == old(data) && currentStep == 0 &&
                     levels == Levels(0, |data| - 1, 0) && maxLevel == Deepest(0, |data| - 1, 0) &&
                     nodeState == Blank(levels.Keys) && steps == Log(data, 0, |data| - 1)
    {
      if data == [] {
        return false;
      }
      Generate();
      return true;
    }

    /** The work of `validate_and_generate` once an array is loaded. */
    method Generate()
      requires data != []
      modifies this
      ensures Valid()
      ensures data == old(data) && currentStep == 0 &&
              levels == Levels(0, |data| - 1, 0) && maxLevel == Deepest(0, |data| - 1, 0) &&
              nodeState == Blank(levels.Keys) && steps == Log(data, 0, |data| - 1)
    {
      levels := map[];
      nodeState := map[];
      steps := [];
      currentStep := 0;
      var last := |data| - 1;
      maxLevel := 0;
      CollectNodes(0, last, 0);
      ghost var collected := Levels(0, last, 0);
      EmptyOverlay(collected);
      assert levels == collected;
      BlankRanges();
      var sorted := GenerateSteps(data, 0, last);
      LogCovered(data, 0, last, 0);
      assert steps[..0] == [];
    }

    /** The loop of `validate_and_generate` that gives every recorded range a blank state. */
    method BlankRanges()
      requires nodeState == map[]
      modifies this
      ensures nodeState == Blank(levels.Keys)
      ensures data == old(data) && steps == old(steps) && currentStep == old(currentStep) &&
              levels == old(levels) && maxLevel == old(maxLevel)
    {
      var todo := levels.Keys;
      while todo != {}
        invariant data == old(data) && steps == old(steps) && currentStep == old(currentStep) &&
                  levels == old(levels) && maxLevel == old(maxLevel)
        invariant todo <= levels.Keys
        invariant nodeState == Blank(levels.Keys - todo)
        decreases todo
      {
        var k :| k in todo;
        nodeState := nodeState[k := NodeState(None, Plain)];
        todo := todo - {k};
      }
      assert levels.Keys - {} == levels.Keys;
    }

    /**
     * `_collect_nodes(l, r, level)`: records the range at its level, raises
     * `max_level` to it, and recurses on the two halves.
     */
    method CollectNodes(l: int, r: int, level: nat)
      requires l <= r
      modifies this
      ensures levels == old(levels) + Levels(l, r, level)
      ensures maxLevel == if old(maxLevel) >= Deepest(l, r, level) then old(maxLevel) else Deepest(l, r, level)
      ensures data == old(data) && steps == old(steps) && currentStep == old(currentStep) && nodeState == old(nodeState)
      decreases r - l
    {
      levels := levels[(l, r) := level];
      if level > maxLevel {
        maxLevel := level;
      }
      if l >= r {
        return;
      }
      var mid, hi, deeper := Mid(l, r), Hi(l, r), level + 1;
      ghost var before := levels;
      CollectNodes(l, mid, deeper);
      CollectNodes(hi, r, deeper);
      CollectStep(old(levels), before, levels, l, mid, hi, r, level, deeper);
    }

    /**
     * `generate_steps(arr, left, right)`: appends the range's steps to the
     * log and returns the range sorted.
     */
    method GenerateSteps(arr: seq<int>, left: int, right: int) returns (merged: seq<int>)
      requires InArray(arr, left, right)
      modifies this
      ensures merged == Sort(arr, left, right)
      ensures steps == old(steps) + Log(arr, left, right)
      ensures data == old(data) && currentStep == old(currentStep) && levels == old(levels) &&
              maxLevel == old(maxLevel) && nodeState == old(nodeState)
      decreases right - left
    {
      if left > right {
        return [];
      }
      if left == right {
        steps := steps + [Leaf((left, right), [arr[left]])];
        return [arr[left]];
      }
      var rng := (left, right);
      steps := steps + [Split(rng, arr[left..right + 1])];
      ghost var split := steps;
      var mid, hi := Mid(left, right), Hi(left, right);
      var L := GenerateSteps(arr, left, mid);
      var R := GenerateSteps(arr, hi, right);
      ghost var base := steps;
      var i, j := 0, 0;
      merged := [];
      while i < |L| && j < |R|
        invariant Merging(rng, L, R, i, j, merged, base, steps)
        invariant data == old(data) && currentStep == old(currentStep) && levels == old(levels) &&
                  maxLevel == old(maxLevel) && nodeState == old(nodeState)
        decreases |L| + |R| - i - j
      {
        var c := Compare(rng, Some(L[i]), Some(R[j]), merged);
        if L[i] <= R[j] {
          var i', merged', steps' := i + 1, merged + [L[i]], steps + [c];
          MergingLeft(rng, L, R, i, i', j, merged, merged', base, steps, steps');
          steps, merged, i := steps', merged', i';
        } else {
          var j', merged', steps' := j + 1, merged + [R[j]], steps + [c];
          MergingRight(rng, L, R, i, j, j', merged, merged', base, steps, steps');
          steps, merged, j := steps', merged', j';
        }
      }
      while i < |L|
        invariant Merging(rng, L, R, i, j, merged, base, steps) && (i < |L| ==> j == |R|)
        invariant data == old(data) && currentStep == old(currentStep) && levels == old(levels) &&
                  maxLevel == old(maxLevel) && nodeState == old(nodeState)
        decreases |L| - i
      {
        var c := Compare(rng, Some(L[i]), None, merged);
        var i', merged', steps' := i + 1, merged + [L[i]], steps + [c];
        MergingLeft(rng, L, R, i, i', j, merged, merged', base, steps, steps');
        steps, merged, i := steps', merged', i';
      }
      while j < |R|
        invariant Merging(rng, L, R, i, j, merged, base, steps) && i == |L|
        invariant data == old(data) && currentStep == old(currentStep) && levels == old(levels) &&
                  maxLevel == old(maxLevel) && nodeState == old(nodeState)
        decreases |R| - j
      {
        var c := Compare(rng, None, Some(R[j]), merged);
        var j', merged', steps' := j + 1, merged + [R[j]], steps + [c];
        MergingRight(rng, L, R, i, j, j', merged, merged', base, steps, steps');
        steps, merged, j := steps', merged', j';
      }
      MergingDone(rng, L, R, i, j, merged, base, steps);
      ghost var merges := steps;
      steps := steps + [MergeComplete(rng, merged)];
      GeneratedStep(arr, left, mid, hi, right, old(steps), split, base, merges, steps, L, R, merged);
    }

    /**
     * `apply_step`: the step's range takes the step's list and colour; a
     * range the state does not have raises KeyError and changes nothing.
     */
    method ApplyStep(step: Step) returns (r: Outcome<()>)
      modifies this
      ensures r == Returning(Apply(old(nodeState), step), ())
      ensures r.Ok? ==> nodeState == Apply(old(nodeState), step).value
      ensures r.Raised? ==> nodeState == old(nodeState)
      ensures data == old(data) && steps == old(steps) && currentStep == old(currentStep) &&
              levels == old(levels) && maxLevel == old(maxLevel)
    {
      if step.rng !in nodeState {
        return Raised(KeyError);
      }
      match step {
        case Leaf(rng, val) =>
          nodeState := nodeState[rng := NodeState(Some(val), MergedColor)];
        case Split(rng, part) =>
          nodeState := nodeState[rng := NodeState(Some(part), SplitColor)];
        case Compare(rng, _, _, merged) =>
          nodeState := nodeState[rng := NodeState(Some(merged), if merged != [] then MergedColor else Plain)];
        case MergeComplete(rng, merged) =>
          nodeState := nodeState[rng := NodeState(Some(merged), MergedColor)];
      }
      return Ok(());
    }

    /**
     * `next_step`: at the end of the log nothing changes; otherwise the next
     * step is applied and counted. Once the whole log is shown, the top range
     * holds the sorted data.
     */
    method NextStep() returns (moved: bool)
      requires Valid()
      modifies this
      ensures Valid()
      ensures moved <==> old(currentStep) < |old(steps)|
      ensures data == old(data) && steps == old(steps) && levels == old(levels) && maxLevel == old(maxLevel)
      ensures moved ==> currentStep == old(currentStep) + 1 &&
                        nodeState == Apply(old(nodeState), steps[old(currentStep)]).value
      ensures !moved ==> currentStep == old(currentStep) && nodeState == old(nodeState)
      ensures steps != [] && currentStep == |steps| ==>
                (0, |data| - 1) in nodeState && nodeState[(0, |data| - 1)].values == Some(Sort(data, 0, |data| - 1))
    {
      if currentStep >= |steps| {
        FinishedSorted();
        return false;
      }
      Advance(nodeState.Keys);
      FinishedSorted();
      return true;
    }

    /** `next_step` past its guard: the shown step is applied and counted. */
    method Advance(ghost keys: set<Range>)
      requires 0 <= currentStep < |steps| && Covered(steps, keys) && nodeState.Keys == keys
      requires Replay(Blank(keys), steps[..currentStep]) == Ok(nodeState)
      modifies this
      ensures data == old(data) && steps == old(steps) && levels == old(levels) && maxLevel == old(maxLevel)
      ensures currentStep == old(currentStep) + 1 && nodeState.Keys == keys
      ensures Replay(Blank(keys), steps[..currentStep]) == Ok(nodeState)
      ensures nodeState == Apply(old(nodeState), steps[old(currentStep)]).value
    {
      var n := currentStep;
      ReplayStep(Blank(keys), steps, n);
      var o := ApplyStep(steps[n]);
      assert o.Ok?;
      currentStep := n + 1;
    }

    /**
     * `prev_step`: at the start nothing changes; otherwise one step fewer is
     * shown, rebuilt by blanking every range and replaying the steps before it.
     */
    method PrevStep() returns (moved: bool)
      requires Valid()
      modifies this
      ensures Valid()
      ensures moved <==> old(currentStep) > 0
      ensures data == old(data) && steps == old(steps) && levels == old(levels) && maxLevel == old(maxLevel)
      ensures moved ==> currentStep == old(currentStep) - 1 &&
                        nodeState == Replay(Blank(old(nodeState).Keys), steps[..currentStep]).value
      ensures !moved ==> currentStep == old(currentStep) && nodeState == old(nodeState)
    {
      if currentStep == 0 {
        return false;
      }
      currentStep := currentStep - 1;
      ghost var keys := nodeState.Keys;
      ClearStates();
      ReplayPrefix(keys);
      return true;
    }

    /** The loop of `prev_step` that takes every range back to a blank state. */
    method ClearStates()
      modifies this
      ensures nodeState == Blank(old(nodeState).Keys)
      ensures data == old(data) && steps == old(steps) && currentStep == old(currentStep) &&
              levels == old(levels) && maxLevel == old(maxLevel)
    {
      ghost var keys := nodeState.Keys;
      var todo := nodeState.Keys;
      while todo != {}
        invariant data == old(data) && steps == old(steps) && currentStep == old(currentStep) &&
                  levels == old(levels) && maxLevel == old(maxLevel)
        invariant todo <= keys && nodeState.Keys == keys
        invariant forall k :: k in keys && k !in todo ==> nodeState[k] == NodeState(None, Plain)
        decreases todo
      {
        var k :| k in todo;
        nodeState := nodeState[k := NodeState(None, Plain)];
        todo := todo - {k};
      }
    }

    /** The loop of `prev_step` that replays the first `current_step` steps on blank states. */
    method ReplayPrefix(ghost keys: set<Range>)
      requires 0 <= currentStep <= |steps| && Covered(steps, keys) && nodeState == Blank(keys)
      modifies this
      ensures 0 <= currentStep <= |steps| && nodeState.Keys == keys
      ensures Replay(Blank(keys), steps[..currentStep]) == Ok(nodeState)
      ensures data == old(data) && steps == old(steps) && currentStep == old(currentStep) &&
              levels == old(levels) && maxLevel == old(maxLevel)
    {
      var i := 0;
      while i < currentStep
        invariant data == old(data) && steps == old(steps) && currentStep == old(currentStep) &&
                  levels == old(levels) && maxLevel == old(maxLevel)
        invariant 0 <= i <= currentStep && nodeState.Keys == keys
        invariant Replay(Blank(keys), steps[..i]) == Ok(nodeState)
      {
        ReplayStep(Blank(keys), steps, i);
        var o := ApplyStep(steps[i]);
        assert o.Ok?;
        i := i + 1;
      }
    }

    /** `reset_all`: no data, no log, no ranges. */
    method ResetAll()
      modifies this
      ensures Valid()
      ensures data == [] && steps == [] && currentStep == 0 && levels == map[] && nodeState == map[]
      ensures maxLevel == old(maxLevel)
    {
      data := [];
      steps := [];
      currentStep := 0;
      levels := map[];
      nodeState := map[];
    }

    /** With the whole log shown, the top range holds the sorted data. */
    lemma FinishedSorted()
      requires Valid()
      ensures steps != [] && currentStep == |steps| ==>
                (0, |data| - 1) in nodeState && nodeState[(0, |data| - 1)].values == Some(Sort(data, 0, |data| - 1))
    {
      if steps != [] && currentStep == |steps| {
        assert steps[..currentStep] == steps;
        ReplaySorts(data);
      }
    }
  }

  // ---- the proof steps of the window's methods ----

  /**
   * The merge loops' invariant: `merged` followed by the merge of what is
   * left is the whole merge, and the steps logged so far followed by the
   * log of what is left is the whole merge log.
   */
  ghost predicate Merging(rng: Range, L: seq<int>, R: seq<int>, i: int, j: int, merged: seq<int>, base: seq<Step>, steps: seq<Step>) {
    0 <= i <= |L| && 0 <= j <= |R| &&
    merged + Merge(L[i..], R[j..]) == Merge(L, R) &&
    steps + MergeLog(rng, L[i..], R[j..], merged) == base + MergeLog(rng, L, R, [])
  }

  /** Placing the left head keeps the merge loops' invariant. */
  lemma MergingLeft(rng: Range, L: seq<int>, R: seq<int>, i: int, i': int, j: int, merged: seq<int>, merged': seq<int>,
                    base: seq<Step>, steps: seq<Step>, steps': seq<Step>)
    requires Merging(rng, L, R, i, j, merged, base, steps)
    requires i < |L| && (j == |R| || L[i] <= R[j]) && i' == i + 1 && merged' == merged + [L[i]]
    requires steps' == steps + [Compare(rng, Some(L[i]), if j < |R| then Some(R[j]) else None, merged)]
    ensures Merging(rng, L, R, i', j, merged', base, steps')
  {
    var a, rest, b := L[i..], L[i'..], R[j..];
    assert a[1..] == rest;
    assert Merge(a, b) == [L[i]] + Merge(rest, b);
    assert merged + Merge(a, b) == merged' + Merge(rest, b);
    var c := Compare(rng, Some(L[i]), if j < |R| then Some(R[j]) else None, merged);
    assert MergeLog(rng, a, b, merged) == [c] + MergeLog(rng, rest, b, merged');
    assert steps + MergeLog(rng, a, b, merged) == steps' + MergeLog(rng, rest, b, merged');
  }

  /** Placing the right head keeps the merge loops' invariant. */
  lemma MergingRight(rng: Range, L: seq<int>, R: seq<int>, i: int, j: int, j': int, merged: seq<int>, merged': seq<int>,
                     base: seq<Step>, steps: seq<Step>, steps': seq<Step>)
    requires Merging(rng, L, R, i, j, merged, base, steps)
    requires j < |R| && (i == |L| || L[i] > R[j]) && j' == j + 1 && merged' == merged + [R[j]]
    requires steps' == steps + [Compare(rng, if i < |L| then Some(L[i]) else None, Some(R[j]), merged)]
    ensures Merging(rng, L, R, i, j', merged', base, steps')
  {
    var a, b, rest := L[i..], R[j..], R[j'..];
    assert b[1..] == rest;
    assert Merge(a, b) == [R[j]] + Merge(a, rest);
    assert merged + Merge(a, b) == merged' + Merge(a, rest);
    var c := Compare(rng, if i < |L| then Some(L[i]) else None, Some(R[j]), merged);
    assert MergeLog(rng, a, b, merged) == [c] + MergeLog(rng, a, rest, merged');
    assert steps + MergeLog(rng, a, b, merged) == steps' + MergeLog(rng, a, rest, merged');
  }

  /** With both lists used up, the loops have built the merge and logged its steps. */
  lemma MergingDone(rng: Range, L: seq<int>, R: seq<int>, i: int, j: int, merged: seq<int>, base: seq<Step>, steps: seq<Step>)
    requires Merging(rng, L, R, i, j, merged, base, steps) && i == |L| && j == |R|
    ensures merged == Merge(L, R) && steps == base + MergeLog(rng, L, R, [])
  {
    assert L[i..] == [] && R[j..] == [];
    assert merged + [] == merged && steps + [] == steps;
  }

  /** The log `generate_steps` built for a range of two or more elements is that range's log. */
  lemma GeneratedStep(arr: seq<int>, l: int, mid: int, hi: int, r: int, start: seq<Step>, split: seq<Step>,
                      base: seq<Step>, merges: seq<Step>, steps: seq<Step>, L: seq<int>, R: seq<int>, merged: seq<int>)
    requires 0 <= l < r < |arr| && mid == Mid(l, r) && hi == Hi(l, r)
    requires split == start + [Split((l, r), arr[l..r + 1])]
    requires L == Sort(arr, l, mid) && R == Sort(arr, hi, r)
    requires base == split + Log(arr, l, mid) + Log(arr, hi, r)
    requires merged == Merge(L, R) && merges == base + MergeLog((l, r), L, R, [])
    requires steps == merges + [MergeComplete((l, r), merged)]
    ensures merged == Sort(arr, l, r)
    ensures steps == start + Log(arr, l, r)
  {
    SortStep(arr, l, mid, hi, r);
    LogStep(arr, l, mid, hi, r);
    var head, left, right := [Split((l, r), arr[l..r + 1])], Log(arr, l, mid), Log(arr, hi, r);
    var merging, last := MergeLog((l, r), L, R, []), [MergeComplete((l, r), merged)];
    Chain(start, head, left, right, merging, last);
  }

  /** The levels and deepest level after both recursive calls of `_collect_nodes`. */
  lemma CollectStep(start: map<Range, nat>, before: map<Range, nat>, after: map<Range, nat>,
                    l: int, mid: int, hi: int, r: int, level: nat, deeper: nat)
    requires l < r && mid == Mid(l, r) && hi == Hi(l, r) && deeper == level + 1
    requires before == start[(l, r) := level]
    requires after == before + Levels(l, mid, deeper) + Levels(hi, r, deeper)
    ensures after == start + Levels(l, r, level)
    ensures var a, b := Deepest(l, mid, deeper), Deepest(hi, r, deeper);
            Deepest(l, r, level) == if a >= b then a else b
  {
    LevelsStep(l, mid, hi, r, level, deeper);
    DeepestUnfold(l, mid, hi, r, level, deeper);
    Overlay(start, (l, r), level, Levels(l, mid, deeper), Levels(hi, r, deeper));
  }

  /** Appending six sequences one after another is appending their concatenation. */
  lemma Chain<T>(start: seq<T>, s: seq<T>, a: seq<T>, b: seq<T>, m: seq<T>, c: seq<T>)
    ensures start + s + a + b + m + c == start + (s + a + b + m + c)
  {
  }

  /** Merging a map into the empty map gives that map. */
  lemma EmptyOverlay<K, V>(m: map<K, V>)
    ensures map[] + m == m
  {
  }

  /** Setting one key and then merging two maps is merging the three at once. */
  lemma Overlay<K, V>(start: map<K, V>, k: K, v: V, a: map<K, V>, b: map<K, V>)
    ensures start[k := v] + a + b == start + (map[k := v] + a + b)
  {
  }
}
