/** Detection of runs of consecutive integers in an index set
    (Switchow/Program.cs, GetSequentialNumberSets). */
module Runs {

  /** numbers[a..b] is a maximal run: at least two elements, each one more
      than the one before, and it can be extended neither to the left nor to
      the right. */
  ghost predicate IsMaximalRun(numbers: seq<int>, a: int, b: int) {
    && 0 <= a && b <= |numbers| && b - a >= 2
    && (forall k :: a < k < b ==> numbers[k] == numbers[k - 1] + 1)
    && (a == 0 || numbers[a] != numbers[a - 1] + 1)
    && (b == |numbers| || numbers[b] != numbers[b - 1] + 1)
  }

  /** Bounds in increasing order that do not overlap. */
  ghost predicate Ordered(bounds: seq<(nat, nat)>) {
    forall k, l :: 0 <= k < l < |bounds| ==> bounds[k].1 <= bounds[l].0
  }

  /** The scan's state before position `i`: numbers[start..i] is one block of
      consecutive values that cannot be extended to the left. */
  ghost predicate OpenBlock(numbers: seq<int>, start: nat, i: nat) {
    && start < i <= |numbers|
    && (forall k :: start < k < i ==> numbers[k] == numbers[k - 1] + 1)
    && (start == 0 || numbers[start] != numbers[start - 1] + 1)
  }

  /** The left-to-right scan of the source's loop, from position `i` on, with
      the current block starting at `start`; it reports the bounds
      [start, start + length) of every block it closes that has at least two
      elements. */
  function Scan(numbers: seq<int>, i: nat, start: nat): (bounds: seq<(nat, nat)>)
    requires start < i
    requires i <= |numbers| ==> OpenBlock(numbers, start, i)
    ensures forall k :: 0 <= k < |bounds| ==>
      IsMaximalRun(numbers, bounds[k].0, bounds[k].1) && start <= bounds[k].0
    ensures Ordered(bounds)
    ensures forall a, b :: IsMaximalRun(numbers, a, b) && start <= a && i <= b && i < |numbers| ==> (a, b) in bounds
    decreases |numbers| - i
  {
    if i >= |numbers| then
      []
    else
      var isSequential := numbers[i] == numbers[i - 1] + 1;
      var endIndex := if isSequential then i else i - 1;
      var length := endIndex - start + 1;
      var isLast := i == |numbers| - 1;
      var found: seq<(nat, nat)> :=
        if length > 1 && (!isSequential || isLast) then [(start, start + length)] else [];
      var nextStart := if isSequential then start else i;
      NextBlock(numbers, i, start);
      var rest := Scan(numbers, i + 1, nextStart);
      assert ReportsAt(numbers, i, start, found);
      ScanStep(numbers, i, start, found, rest);
      found + rest
  }

  /** The block the scan carries past position `i`: the current one if the
      value at `i` continues it, otherwise a new one starting at `i`. */
  lemma NextBlock(numbers: seq<int>, i: nat, start: nat)
    requires start < i < |numbers| && OpenBlock(numbers, start, i)
    ensures OpenBlock(numbers, if numbers[i] == numbers[i - 1] + 1 then start else i, i + 1)
  {
  }

  /** What the scan reports at position `i`: the current block, if it has at
      least two elements and ends here (the next value breaks it, or this is
      the last position). */
  ghost predicate ReportsAt(numbers: seq<int>, i: nat, start: nat, found: seq<(nat, nat)>)
    requires start < i < |numbers|
  {
    var isSequential := numbers[i] == numbers[i - 1] + 1;
    var length := (if isSequential then i else i - 1) - start + 1;
    found == if length > 1 && (!isSequential || i == |numbers| - 1) then [(start, start + length)] else []
  }

  /** One step of the scan keeps the three promises of Scan. */
  lemma ScanStep(numbers: seq<int>, i: nat, start: nat, found: seq<(nat, nat)>, rest: seq<(nat, nat)>)
    requires start < i < |numbers|
    requires OpenBlock(numbers, start, i)
    requires ReportsAt(numbers, i, start, found)
    requires i + 1 == |numbers| ==> rest == []
    requires
      var nextStart := if numbers[i] == numbers[i - 1] + 1 then start else i;
      && (forall k :: 0 <= k < |rest| ==> IsMaximalRun(numbers, rest[k].0, rest[k].1) && nextStart <= rest[k].0)
      && Ordered(rest)
      && (forall a, b :: IsMaximalRun(numbers, a, b) && nextStart <= a && i + 1 <= b && i + 1 < |numbers| ==> (a, b) in rest)
    ensures forall k :: 0 <= k < |found + rest| ==>
      IsMaximalRun(numbers, (found + rest)[k].0, (found + rest)[k].1) && start <= (found + rest)[k].0
    ensures Ordered(found + rest)
    ensures forall a, b :: IsMaximalRun(numbers, a, b) && start <= a && i <= b ==> (a, b) in found + rest
  {
    var nextStart := if numbers[i] == numbers[i - 1] + 1 then start else i;
    ReportIsRun(numbers, i, start, found);
    StepSound(numbers, start, nextStart, found, rest);
    StepOrdered(start, nextStart, found, rest);
    forall a, b | IsMaximalRun(numbers, a, b) && start <= a && i <= b
      ensures (a, b) in found + rest
    {
      RunAfterStep(numbers, i, start, found, a, b);
      if found != [(a, b)] {
        assert nextStart <= a && i + 1 <= b && i + 1 < |numbers|;
        assert (a, b) in rest;
      }
    }
  }

  lemma StepSound(numbers: seq<int>, start: nat, nextStart: nat, found: seq<(nat, nat)>, rest: seq<(nat, nat)>)
    requires start <= nextStart && |found| <= 1
    requires found != [] ==> IsMaximalRun(numbers, found[0].0, found[0].1) && found[0].0 == start
    requires forall k :: 0 <= k < |rest| ==> IsMaximalRun(numbers, rest[k].0, rest[k].1) && nextStart <= rest[k].0
    ensures forall k :: 0 <= k < |found + rest| ==>
      IsMaximalRun(numbers, (found + rest)[k].0, (found + rest)[k].1) && start <= (found + rest)[k].0
  {
    var all := found + rest;
    forall k | 0 <= k < |all|
      ensures IsMaximalRun(numbers, all[k].0, all[k].1) && start <= all[k].0
    {
      if k >= |found| {
        assert all[k] == rest[k - |found|];
      }
    }
  }

  lemma StepOrdered(start: nat, nextStart: nat, found: seq<(nat, nat)>, rest: seq<(nat, nat)>)
    requires |found| <= 1 && Ordered(rest)
    requires forall k :: 0 <= k < |rest| ==> nextStart <= rest[k].0
    requires found != [] && rest != [] ==> found[0].1 <= nextStart
    ensures Ordered(found + rest)
  {
    var all := found + rest;
    forall k, l | 0 <= k < l < |all|
      ensures all[k].1 <= all[l].0
    {
      if k < |found| {
        assert all[k] == found[0] && all[l] == rest[l - 1];
      } else {
        assert all[k] == rest[k - |found|] && all[l] == rest[l - |found|];
      }
    }
  }

  /** What the scan reports is a maximal run, and it ends no later than where
      the next block starts. */
  lemma ReportIsRun(numbers: seq<int>, i: nat, start: nat, found: seq<(nat, nat)>)
    requires start < i < |numbers|
    requires OpenBlock(numbers, start, i)
    requires ReportsAt(numbers, i, start, found)
    ensures |found| <= 1
    ensures found != [] ==> IsMaximalRun(numbers, found[0].0, found[0].1) && found[0].0 == start
    ensures found != [] && numbers[i] != numbers[i - 1] + 1 ==> found[0].1 == i
    ensures found != [] && numbers[i] == numbers[i - 1] + 1 ==> found[0].1 == |numbers|
  {
  }

  /** A maximal run starting in the current block and not ending before `i`
      is either reported at `i` or left for the rest of the scan. */
  lemma RunAfterStep(numbers: seq<int>, i: nat, start: nat, found: seq<(nat, nat)>, a: int, b: int)
    requires start < i < |numbers|
    requires OpenBlock(numbers, start, i)
    requires ReportsAt(numbers, i, start, found)
    requires IsMaximalRun(numbers, a, b) && start <= a && i <= b
    ensures
      var nextStart := if numbers[i] == numbers[i - 1] + 1 then start else i;
      found == [(a, b)] || (nextStart <= a && i + 1 <= b && i + 1 < |numbers|)
  {
  }

  /** The bounds of every maximal run of `numbers`, in order. */
  function RunBounds(numbers: seq<int>): (bounds: seq<(nat, nat)>)
    ensures forall k :: 0 <= k < |bounds| ==> IsMaximalRun(numbers, bounds[k].0, bounds[k].1)
    ensures Ordered(bounds)
    ensures forall a, b :: IsMaximalRun(numbers, a, b) ==> (a, b) in bounds
  {
    Scan(numbers, 1, 0)
  }

  /** The runs themselves (GetSequentialNumberSets): every maximal stretch of
      at least two consecutive integers, as slices of the input, in input
      order. */
  function SequentialNumberSets(numbers: seq<int>): (runs: seq<seq<int>>)
    ensures |runs| == |RunBounds(numbers)|
    ensures forall k :: 0 <= k < |runs| ==>
      && |runs[k]| >= 2
      && runs[k] == numbers[RunBounds(numbers)[k].0..RunBounds(numbers)[k].1]
      && forall j :: 0 < j < |runs[k]| ==> runs[k][j] == runs[k][j - 1] + 1
    ensures |numbers| < 2 ==> runs == []
  {
    var bounds := RunBounds(numbers);
    seq(|bounds|, k requires 0 <= k < |bounds| => numbers[bounds[k].0..bounds[k].1])
  }

  /** Total length of the runs. */
  function CoveredLength(runs: seq<seq<int>>): nat {
    if |runs| == 0 then 0 else |runs[0]| + CoveredLength(runs[1..])
  }

  /** Runs never overlap, so together they cover no more than the input. */
  lemma RunsCoverAtMostInput(numbers: seq<int>)
    ensures CoveredLength(SequentialNumberSets(numbers)) <= |numbers|
  {
    var bounds := RunBounds(numbers);
    BoundsCover(numbers, bounds, SequentialNumberSets(numbers), 0);
  }

  lemma {:induction false} BoundsCover(numbers: seq<int>, bounds: seq<(nat, nat)>, runs: seq<seq<int>>, lo: nat)
    requires Ordered(bounds) && |runs| == |bounds|
    requires forall k :: 0 <= k < |bounds| ==>
      lo <= bounds[k].0 <= bounds[k].1 <= |numbers| && |runs[k]| == bounds[k].1 - bounds[k].0
    requires lo <= |numbers|
    ensures CoveredLength(runs) <= |numbers| - lo
    decreases |bounds|
  {
    if |bounds| > 0 {
      forall k | 0 <= k < |bounds[1..]|
        ensures bounds[0].1 <= bounds[1..][k].0
      {
        assert bounds[1..][k] == bounds[k + 1];
      }
      BoundsCover(numbers, bounds[1..], runs[1..], bounds[0].1);
    }
  }

  /** Worked instance: two runs separated by a gap.
      The list is a parameter pinned by `requires` so that the literal is
      not unfolded wherever the lemma's facts are in scope. */
  lemma TwoRunsExample(xs: seq<int>)
    requires xs == [1, 2, 3, 7, 8]
    ensures SequentialNumberSets(xs) == [[1, 2, 3], [7, 8]]
  {
    TwoRunsBounds(xs);
    var runs := SequentialNumberSets(xs);
    assert |runs| == 2;
    assert runs[0] == xs[0..3] == [1, 2, 3];
    assert runs[1] == xs[3..5] == [7, 8];
  }

  /** The bounds of the same instance.
      The list is a parameter pinned by `requires` so that the literal is
      not unfolded wherever the lemma's facts are in scope. */
  lemma TwoRunsBounds(xs: seq<int>)
    requires xs == [1, 2, 3, 7, 8]
    ensures RunBounds(xs) == [(0, 3), (3, 5)]
  {
    assert Scan(xs, 5, 3) == [];
    assert Scan(xs, 4, 3) == [(3, 5)];
    assert Scan(xs, 3, 0) == [(0, 3), (3, 5)];
    assert Scan(xs, 2, 0) == [(0, 3), (3, 5)];
  }

  /** Worked instance: an increasing set without neighbours has no runs.
      The list is a parameter pinned by `requires` so that the literal is
      not unfolded wherever the lemma's facts are in scope. */
  lemma NoRunsExample(xs: seq<int>)
    requires xs == [0, 2, 4]
    ensures SequentialNumberSets(xs) == []
  {
    assert Scan(xs, 3, 2) == [];
    assert Scan(xs, 2, 1) == [];
    assert Scan(xs, 1, 0) == [];
    assert RunBounds(xs) == [];
    assert |SequentialNumberSets(xs)| == 0;
  }
}
