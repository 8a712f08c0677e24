/**
 * The backtracking search of `find_results` (src/main.rs): extend the
 * partial combination with every later candidate that shares no letter with
 * it, and emit it once it holds five sets.
 *
 * `Search` and `SearchFrom` are the specification: the combinations emitted,
 * in emission order. `FindResults` is the recursive loop of the source,
 * proved to emit exactly that; the lemmas say what the emitted sequence is.
 */
module CombinationSearch {
  import opened LetterSets
  import opened LetterSetSets

  /** What `find_results(sets, stack, out)` passes to `out`, in order. */
  function Search(sets: seq<LetterSet>, stack: seq<LetterSet>): seq<seq<LetterSet>>
    requires |stack| <= Capacity
    decreases |sets|, 1
  {
    if |stack| == Capacity then [stack] else SearchFrom(sets, 0, stack)
  }

  /** The iterations of the `for` loop from index `i` on. */
  function SearchFrom(sets: seq<LetterSet>, i: nat, stack: seq<LetterSet>): seq<seq<LetterSet>>
    requires i <= |sets| && |stack| < Capacity
    decreases |sets|, 0, |sets| - i
  {
    if i == |sets| then []
    else
      (if !Overlaps(UnionAll(stack), sets[i]) then Search(sets[i + 1..], stack + [sets[i]]) else [])
      + SearchFrom(sets, i + 1, stack)
  }

  /**
   * `find_results`: the sink `out` is the sequence of combinations handed
   * to it so far; the result is that sequence after this call.
   */
  method FindResults(sets: seq<LetterSet>, stack: LetterSetSet, out: seq<seq<LetterSet>>)
    returns (emitted: seq<seq<LetterSet>>)
    requires stack.Valid()
    ensures emitted == out + Search(sets, stack.Contents())
    decreases |sets|
  {
    if stack.Len() == Capacity {
      assert stack.sets[..] == stack.sets[..stack.size];
      emitted := out + [stack.sets[..]];
      return;
    }
    ghost var current := stack.Contents();
    emitted := out;
    for i := 0 to |sets|
      invariant emitted + SearchFrom(sets, i, current) == out + SearchFrom(sets, 0, current)
    {
      var s := sets[i];
      ghost var taken := !Overlaps(UnionAll(current), s);
      ghost var branch := if taken then Search(sets[i + 1..], current + [s]) else [];
      assert SearchFrom(sets, i, current) == branch + SearchFrom(sets, i + 1, current);
      ghost var before := emitted;
      if !stack.Overlaps(s) {
        assert taken;
        var next := new LetterSetSet.Clone(stack);
        var ok := next.Push(s);
        // `push` is never reached on a full buffer: the length test above returned.
        assert ok;
        emitted := FindResults(sets[i + 1..], next, emitted);
      }
      assert emitted == before + branch;
      AppendStep(before, branch, SearchFrom(sets, i + 1, current));
    }
  }

  /**
   * Regrouping of one loop step: emitting `b` before the rest of the scan.
   * Stated apart so that the solver proves it without the loop's heap context.
   */
  lemma AppendStep<T>(a: seq<T>, b: seq<T>, c: seq<T>)
    ensures (a + b) + c == a + (b + c)
  {
  }

  // ---------------------------------------------------------------------
  // What an emitted combination is

  /** No two members share a letter. */
  ghost predicate PairwiseDisjoint(r: seq<LetterSet>)
  {
    forall j, k :: 0 <= j < k < |r| ==> !Overlaps(r[j], r[k])
  }

  /** Strictly increasing positions, each in `lo..n`. */
  ghost predicate IsChoice(idx: seq<nat>, lo: nat, n: nat)
  {
    (forall k :: 0 <= k < |idx| ==> lo <= idx[k] < n) &&
    (forall j, k :: 0 <= j < k < |idx| ==> idx[j] < idx[k])
  }

  /** The members of `sets` at the positions `idx`. */
  ghost function Pick(sets: seq<LetterSet>, idx: seq<nat>): seq<LetterSet>
    requires forall k :: 0 <= k < |idx| ==> idx[k] < |sets|
  {
    seq(|idx|, k requires 0 <= k < |idx| => sets[idx[k]])
  }

  /** Positions moved up by `d`. */
  ghost function Shift(idx: seq<nat>, d: nat): seq<nat>
  {
    seq(|idx|, k requires 0 <= k < |idx| => idx[k] + d)
  }

  /** Positions moved down by `d`. */
  ghost function Unshift(idx: seq<nat>, d: nat): seq<nat>
    requires forall k :: 0 <= k < |idx| ==> d <= idx[k]
  {
    seq(|idx|, k requires 0 <= k < |idx| => idx[k] - d)
  }

  /** The letter sets of a combination, as an unordered set. */
  ghost function Elements(r: seq<LetterSet>): set<LetterSet>
  {
    set x | x in r
  }

  /** No two emitted combinations hold the same sets, in whatever order. */
  ghost predicate DistinctAsSets(out: seq<seq<LetterSet>>)
  {
    forall j, k :: 0 <= j < k < |out| ==> Elements(out[j]) != Elements(out[k])
  }

  /** Appending a set that misses the union keeps the members pairwise disjoint, and only then. */
  lemma ExtendDisjoint(stack: seq<LetterSet>, x: LetterSet)
    requires PairwiseDisjoint(stack)
    ensures PairwiseDisjoint(stack + [x]) <==> !Overlaps(UnionAll(stack), x)
  {
    OverlapsUnionAll(stack, x);
    var r := stack + [x];
    if PairwiseDisjoint(r) {
      forall k | 0 <= k < |stack|
        ensures !Overlaps(stack[k], x)
      {
        assert !Overlaps(r[k], r[|stack|]);
      }
    }
  }

  /** Choosing position `i` first, then positions of `sets[i + 1..]`. */
  lemma PrependChoice(sets: seq<LetterSet>, i: nat, stack: seq<LetterSet>, rest: seq<nat>)
    requires i < |sets|
    requires IsChoice(rest, 0, |sets| - i - 1)
    ensures IsChoice([i] + Shift(rest, i + 1), i, |sets|)
    ensures |[i] + Shift(rest, i + 1)| == |rest| + 1
    ensures (stack + [sets[i]]) + Pick(sets[i + 1..], rest) == stack + Pick(sets, [i] + Shift(rest, i + 1))
  {
    var idx := [i] + Shift(rest, i + 1);
    assert forall k :: 1 <= k < |idx| ==> idx[k] == rest[k - 1] + i + 1;
    assert IsChoice(idx, i, |sets|);
    assert Pick(sets, idx) == [sets[i]] + Pick(sets[i + 1..], rest);
  }

  /** The positions after the first one, as positions of `sets[i + 1..]`. */
  lemma DropChoice(sets: seq<LetterSet>, i: nat, idx: seq<nat>)
    requires IsChoice(idx, i, |sets|) && idx != [] && idx[0] == i
    ensures IsChoice(Unshift(idx[1..], i + 1), 0, |sets| - i - 1)
    ensures Pick(sets[i + 1..], Unshift(idx[1..], i + 1)) == Pick(sets, idx[1..])
  {
  }

  // ---------------------------------------------------------------------
  // Soundness

  /**
   * Whatever `find_results(sets, stack)` emits is `stack` followed by
   * members of `sets` at strictly increasing positions, five sets in all,
   * pairwise disjoint when `stack` is.
   */
  lemma {:induction false} SearchSound(sets: seq<LetterSet>, stack: seq<LetterSet>, r: seq<LetterSet>)
    requires |stack| <= Capacity
    requires r in Search(sets, stack)
    ensures exists idx :: IsChoice(idx, 0, |sets|) && |stack| + |idx| == Capacity && r == stack + Pick(sets, idx)
    ensures PairwiseDisjoint(stack) ==> PairwiseDisjoint(r)
    decreases |sets|, 1
  {
    if |stack| == Capacity {
      var idx: seq<nat> := [];
      assert r == stack + Pick(sets, idx);
    } else {
      SearchFromSound(sets, 0, stack, r);
    }
  }

  lemma {:induction false} SearchFromSound(sets: seq<LetterSet>, i: nat, stack: seq<LetterSet>, r: seq<LetterSet>)
    requires i <= |sets| && |stack| < Capacity
    requires r in SearchFrom(sets, i, stack)
    ensures exists idx :: IsChoice(idx, i, |sets|) && |stack| + |idx| == Capacity && r == stack + Pick(sets, idx)
    ensures PairwiseDisjoint(stack) ==> PairwiseDisjoint(r)
    decreases |sets|, 0, |sets| - i, 1
  {
    assert i < |sets|;
    if !Overlaps(UnionAll(stack), sets[i]) && r in Search(sets[i + 1..], stack + [sets[i]]) {
      TakenSound(sets, i, stack, r);
    } else {
      SearchFromSound(sets, i + 1, stack, r);
      var idx :| IsChoice(idx, i + 1, |sets|) && |stack| + |idx| == Capacity && r == stack + Pick(sets, idx);
      assert IsChoice(idx, i, |sets|);
    }
  }

  /** The branch of the loop that pushes `sets[i]`. */
  lemma {:induction false} TakenSound(sets: seq<LetterSet>, i: nat, stack: seq<LetterSet>, r: seq<LetterSet>)
    requires i < |sets| && |stack| < Capacity
    requires !Overlaps(UnionAll(stack), sets[i])
    requires r in Search(sets[i + 1..], stack + [sets[i]])
    ensures exists idx :: IsChoice(idx, i, |sets|) && |stack| + |idx| == Capacity && r == stack + Pick(sets, idx)
    ensures PairwiseDisjoint(stack) ==> PairwiseDisjoint(r)
    decreases |sets|, 0, |sets| - i, 0
  {
    var tail := sets[i + 1..];
    var grown := stack + [sets[i]];
    SearchSound(tail, grown, r);
    var rest :| IsChoice(rest, 0, |tail|) && |grown| + |rest| == Capacity && r == grown + Pick(tail, rest);
    PrependChoice(sets, i, stack, rest);
    if PairwiseDisjoint(stack) {
      ExtendDisjoint(stack, sets[i]);
    }
  }

  /**
   * Every combination `find_results(sets, new())` emits has exactly five
   * members, no two sharing a letter, taken from `sets` at strictly
   * increasing positions.
   */
  lemma FindResultsSound(sets: seq<LetterSet>, r: seq<LetterSet>)
    requires r in Search(sets, [])
    ensures |r| == Capacity && PairwiseDisjoint(r)
    ensures exists idx :: IsChoice(idx, 0, |sets|) && |idx| == Capacity && r == Pick(sets, idx)
  {
    SearchSound(sets, [], r);
    var idx :| IsChoice(idx, 0, |sets|) && |idx| == Capacity && r == [] + Pick(sets, idx);
    assert [] + Pick(sets, idx) == Pick(sets, idx);
  }

  // ---------------------------------------------------------------------
  // Completeness

  /**
   * Any way to fill `stack` up to five with members of `sets` at strictly
   * increasing positions, all pairwise disjoint, is emitted.
   */
  lemma {:induction false} SearchComplete(sets: seq<LetterSet>, stack: seq<LetterSet>, idx: seq<nat>)
    requires |stack| + |idx| == Capacity
    requires IsChoice(idx, 0, |sets|)
    requires PairwiseDisjoint(stack + Pick(sets, idx))
    ensures stack + Pick(sets, idx) in Search(sets, stack)
    decreases |sets|, 1
  {
    if |stack| == Capacity {
      assert stack + Pick(sets, idx) == stack;
    } else {
      SearchFromComplete(sets, 0, stack, idx);
    }
  }

  lemma {:induction false} SearchFromComplete(sets: seq<LetterSet>, i: nat, stack: seq<LetterSet>, idx: seq<nat>)
    requires i <= |sets| && |stack| < Capacity
    requires |stack| + |idx| == Capacity
    requires IsChoice(idx, i, |sets|)
    requires PairwiseDisjoint(stack + Pick(sets, idx))
    ensures stack + Pick(sets, idx) in SearchFrom(sets, i, stack)
    decreases |sets|, 0, |sets| - i, 1
  {
    assert i <= idx[0] < |sets|;
    if idx[0] == i {
      TakenComplete(sets, i, stack, idx);
    } else {
      SearchFromComplete(sets, i + 1, stack, idx);
    }
  }

  /** The branch of the loop that pushes `sets[i]`, when the choice starts at `i`. */
  lemma {:induction false} TakenComplete(sets: seq<LetterSet>, i: nat, stack: seq<LetterSet>, idx: seq<nat>)
    requires i < |sets| && |stack| < Capacity
    requires |stack| + |idx| == Capacity
    requires IsChoice(idx, i, |sets|) && idx[0] == i
    requires PairwiseDisjoint(stack + Pick(sets, idx))
    ensures !Overlaps(UnionAll(stack), sets[i])
    ensures stack + Pick(sets, idx) in Search(sets[i + 1..], stack + [sets[i]])
    decreases |sets|, 0, |sets| - i, 0
  {
    var r := stack + Pick(sets, idx);
    assert r[|stack|] == sets[i];
    assert PairwiseDisjoint(stack) by {
      assert forall k :: 0 <= k < |stack| ==> r[k] == stack[k];
    }
    assert PairwiseDisjoint(stack + [sets[i]]) by {
      assert forall k :: 0 <= k <= |stack| ==> r[k] == (stack + [sets[i]])[k];
    }
    ExtendDisjoint(stack, sets[i]);
    var tail := sets[i + 1..];
    var rest := Unshift(idx[1..], i + 1);
    DropChoice(sets, i, idx);
    assert (stack + [sets[i]]) + Pick(tail, rest) == r;
    SearchComplete(tail, stack + [sets[i]], rest);
  }

  /**
   * Every choice of five members of `sets` at strictly increasing
   * positions, no two sharing a letter, is emitted by `find_results(sets, new())`.
   */
  lemma FindResultsComplete(sets: seq<LetterSet>, idx: seq<nat>)
    requires |idx| == Capacity && IsChoice(idx, 0, |sets|)
    requires PairwiseDisjoint(Pick(sets, idx))
    ensures Pick(sets, idx) in Search(sets, [])
  {
    assert [] + Pick(sets, idx) == Pick(sets, idx);
    SearchComplete(sets, [], idx);
  }

  // ---------------------------------------------------------------------
  // Degenerate inputs

  /** Increasing positions in `lo..n` number at most `n - lo`. */
  lemma {:induction false} ChoiceBound(idx: seq<nat>, lo: nat, n: nat)
    requires lo <= n && IsChoice(idx, lo, n)
    ensures lo + |idx| <= n
    decreases |idx|
  {
    if idx != [] {
      assert IsChoice(idx[1..], idx[0] + 1, n);
      ChoiceBound(idx[1..], idx[0] + 1, n);
      assert lo <= idx[0];
    }
  }

  /** With fewer than five candidates (none at all, say) nothing is emitted. */
  lemma FindResultsTooFew(sets: seq<LetterSet>)
    requires |sets| < Capacity
    ensures Search(sets, []) == []
  {
    if Search(sets, []) != [] {
      var r := Search(sets, [])[0];
      FindResultsSound(sets, r);
      var idx :| IsChoice(idx, 0, |sets|) && |idx| == Capacity && r == Pick(sets, idx);
      ChoiceBound(idx, 0, |sets|);
      assert false;
    }
  }

  // ---------------------------------------------------------------------
  // No combination twice

  /** Concatenating two duplicate-free runs that one set tells apart. */
  lemma ConcatDistinct(a: seq<seq<LetterSet>>, b: seq<seq<LetterSet>>, x: LetterSet)
    requires DistinctAsSets(a) && DistinctAsSets(b)
    requires forall r :: r in a ==> x in r
    requires forall r :: r in b ==> x !in r
    ensures DistinctAsSets(a + b)
  {
    var out := a + b;
    forall j, k | 0 <= j < k < |out|
      ensures Elements(out[j]) != Elements(out[k])
    {
      if k < |a| {
        assert out[j] == a[j] && out[k] == a[k];
      } else if |a| <= j {
        assert out[j] == b[j - |a|] && out[k] == b[k - |a|];
      } else {
        assert out[j] in a && out[k] in b;
        assert x in Elements(out[j]) && x !in Elements(out[k]);
      }
    }
  }

  /** A combination found after taking `sets[i]` holds it at position `|stack|`. */
  lemma TakenHolds(sets: seq<LetterSet>, i: nat, stack: seq<LetterSet>, r: seq<LetterSet>)
    requires i < |sets| && |stack| < Capacity
    requires r in Search(sets[i + 1..], stack + [sets[i]])
    ensures sets[i] in r
  {
    SearchSound(sets[i + 1..], stack + [sets[i]], r);
    assert r[|stack|] == sets[i];
  }

  /** Positions after `i` never pick `sets[i]` again when `sets` has no repeats. */
  lemma NotPicked(sets: seq<LetterSet>, i: nat, idx: seq<nat>)
    requires i < |sets| && NoRepeats(sets)
    requires IsChoice(idx, i + 1, |sets|)
    ensures sets[i] !in Pick(sets, idx)
  {
    var picked := Pick(sets, idx);
    forall k | 0 <= k < |picked|
      ensures picked[k] != sets[i]
    {
      assert picked[k] == sets[idx[k]] && i < idx[k];
    }
  }

  /** A combination found after skipping `sets[i]` does not hold it. */
  lemma SkippedLacks(sets: seq<LetterSet>, i: nat, stack: seq<LetterSet>, r: seq<LetterSet>)
    requires i < |sets| && |stack| < Capacity
    requires NoRepeats(sets)
    requires forall x :: x in stack ==> x !in sets
    requires r in SearchFrom(sets, i + 1, stack)
    ensures sets[i] !in r
  {
    SearchFromSound(sets, i + 1, stack, r);
    var idx :| IsChoice(idx, i + 1, |sets|) && |stack| + |idx| == Capacity && r == stack + Pick(sets, idx);
    NotPicked(sets, i, idx);
    assert sets[i] !in stack;
  }

  /**
   * With distinct candidates, none of them already on the stack, no two
   * emitted combinations hold the same sets.
   */
  lemma {:induction false} SearchDistinct(sets: seq<LetterSet>, stack: seq<LetterSet>)
    requires |stack| <= Capacity
    requires NoRepeats(sets)
    requires forall x :: x in stack ==> x !in sets
    ensures DistinctAsSets(Search(sets, stack))
    decreases |sets|, 1
  {
    if |stack| < Capacity {
      SearchFromDistinct(sets, 0, stack);
    }
  }

  lemma {:induction false} SearchFromDistinct(sets: seq<LetterSet>, i: nat, stack: seq<LetterSet>)
    requires i <= |sets| && |stack| < Capacity
    requires NoRepeats(sets)
    requires forall x :: x in stack ==> x !in sets
    ensures DistinctAsSets(SearchFrom(sets, i, stack))
    decreases |sets|, 0, |sets| - i
  {
    if i < |sets| {
      var tail, grown := sets[i + 1..], stack + [sets[i]];
      var a := if !Overlaps(UnionAll(stack), sets[i]) then Search(tail, grown) else [];
      var b := SearchFrom(sets, i + 1, stack);
      SearchFromDistinct(sets, i + 1, stack);
      if a != [] {
        assert forall x :: x in grown ==> x !in tail;
        SearchDistinct(tail, grown);
      }
      forall r | r in a
        ensures sets[i] in r
      {
        TakenHolds(sets, i, stack, r);
      }
      forall r | r in b
        ensures sets[i] !in r
      {
        SkippedLacks(sets, i, stack, r);
      }
      ConcatDistinct(a, b, sets[i]);
    }
  }

  /**
   * `find_results(sets, new())` over distinct candidates never emits the
   * same combination twice, not even in another order.
   */
  lemma FindResultsNoDuplicates(sets: seq<LetterSet>)
    requires NoRepeats(sets)
    ensures DistinctAsSets(Search(sets, []))
  {
    SearchDistinct(sets, []);
  }

  // ---------------------------------------------------------------------
  // Letters covered

  /**
   * The union of pairwise disjoint sets of `per` letters each holds
   * `per` letters per set: 25 for five words of five distinct letters.
   */
  lemma {:induction false} DisjointUnionLen(r: seq<LetterSet>, per: nat)
    requires PairwiseDisjoint(r)
    requires forall k :: 0 <= k < |r| ==> Len(r[k]) == per
    ensures Len(UnionAll(r)) == per * |r|
    decreases |r|
  {
    if r != [] {
      var init, last := r[..|r| - 1], r[|r| - 1];
      assert r == init + [last];
      DisjointPrefix(init, last);
      assert forall k :: 0 <= k < |init| ==> Len(init[k]) == per by {
        assert forall k :: 0 <= k < |init| ==> init[k] == r[k];
      }
      DisjointUnionLen(init, per);
      ExtendDisjoint(init, last);
      UnionAllSnocLen(init, last);
      MulStep(per, |r|);
    }
  }

  /** One more set of `a` letters; apart so that nonlinear arithmetic stays out of the induction. */
  lemma MulStep(a: nat, n: nat)
    requires n >= 1
    ensures a * (n - 1) + a == a * n
  {
  }

  lemma DisjointPrefix(init: seq<LetterSet>, last: LetterSet)
    requires PairwiseDisjoint(init + [last])
    ensures PairwiseDisjoint(init)
  {
    assert forall k :: 0 <= k < |init| ==> (init + [last])[k] == init[k];
  }

  lemma UnionAllSnocLen(init: seq<LetterSet>, last: LetterSet)
    requires !Overlaps(UnionAll(init), last)
    ensures Len(UnionAll(init + [last])) == Len(UnionAll(init)) + Len(last)
  {
    assert (init + [last])[..|init|] == init;
    var before, added := Members(UnionAll(init)), Members(last);
    assert |before + added| == |before| + |added|;
  }
}
