/** Scoring of one alignment and of a whole entry (Switchow/Program.cs,
    ScoreIndexSet and GetScore), and the choice of the alignment that is
    highlighted on screen. */
module Scoring {
  import opened Windows
  import opened Subsequence
  import opened Runs

  /** `(int)(n * 1.5)` for a count n: exact, since truncation of a
      non-negative value is the floor. */
  function OneAndAHalf(n: nat): nat {
    (n * 3) / 2
  }

  /** `(int)(n * 2.5)` for a count n. */
  function TwoAndAHalf(n: nat): nat {
    (n * 5) / 2
  }

  /** How many indices of `indexSet` are at most `limit`. */
  function CountUpTo(indexSet: seq<nat>, limit: int): (c: nat)
    ensures c <= |indexSet|
    ensures c == |indexSet| <==> forall k :: 0 <= k < |indexSet| ==> indexSet[k] <= limit
  {
    if |indexSet| == 0 then 0
    else (if indexSet[0] <= limit then 1 else 0) + CountUpTo(indexSet[1..], limit)
  }

  /** The positions of `indexSet` whose index is at most `limit`. */
  ghost function PositionsUpTo(indexSet: seq<nat>, limit: int): set<nat> {
    set k: nat | k < |indexSet| && indexSet[k] <= limit
  }

  /** Counting distributes over concatenation. */
  lemma {:induction false} CountUpToAppend(a: seq<nat>, b: seq<nat>, limit: int)
    ensures CountUpTo(a + b, limit) == CountUpTo(a, limit) + CountUpTo(b, limit)
  {
    if |a| == 0 {
      assert a + b == b;
    } else {
      assert (a + b)[1..] == a[1..] + b;
      CountUpToAppend(a[1..], b, limit);
    }
  }

  /** The count is the number of positions holding an index at most
      `limit`. */
  lemma {:induction false} CountUpToCountsPositions(indexSet: seq<nat>, limit: int)
    ensures CountUpTo(indexSet, limit) == |PositionsUpTo(indexSet, limit)|
  {
    if |indexSet| > 0 {
      var n := |indexSet| - 1;
      var init := indexSet[..n];
      assert indexSet == init + [indexSet[n]];
      CountUpToAppend(init, [indexSet[n]], limit);
      CountUpToCountsPositions(init, limit);
      var last: set<nat> := if indexSet[n] <= limit then {n} else {};
      assert PositionsUpTo(indexSet, limit) == PositionsUpTo(init, limit) + last;
      assert n !in PositionsUpTo(init, limit);
    }
  }

  /** The bonus for runs: one and a half points per element of each run,
      truncated per run, so each run loses at most half a point. */
  function RunBonus(runs: seq<seq<int>>): (bonus: nat)
    ensures 2 * bonus <= 3 * CoveredLength(runs)
    ensures 2 * bonus >= 3 * CoveredLength(runs) - |runs|
  {
    if |runs| == 0 then 0 else OneAndAHalf(|runs[0]|) + RunBonus(runs[1..])
  }

  /** One run earns one and a half points per element, truncated. */
  lemma OneRunBonus(run: seq<int>)
    ensures RunBonus([run]) == (|run| * 3) / 2
  {
    assert [run][1..] == [];
  }

  /** The bonus of a list of runs is the sum over its parts. */
  lemma {:induction false} RunBonusAppend(a: seq<seq<int>>, b: seq<seq<int>>)
    ensures RunBonus(a + b) == RunBonus(a) + RunBonus(b)
  {
    if |a| == 0 {
      assert a + b == b;
    } else {
      assert (a + b)[1..] == a[1..] + b;
      RunBonusAppend(a[1..], b);
    }
  }

  /** The penalty for query characters the set leaves unmatched. */
  function Penalty(query: string, indexSet: seq<nat>): int {
    (|query| - |indexSet|) * 5
  }

  /** The score of one index set. Positions up to and including
      `fileNameLength` count as file-name matches and weigh two and a half;
      the rest weigh one; runs earn their bonus on top. For a set as long as
      the query the score lies between one and four points per matched
      character. */
  function ScoreIndexSet(query: string, indexSet: seq<nat>, fileNameLength: nat): (score: int)
    ensures |indexSet| == |query| ==> |indexSet| <= score <= 4 * |indexSet|
  {
    var fileNameIndicesCount := CountUpTo(indexSet, fileNameLength);
    var remainingIndicesCount := |indexSet| - fileNameIndicesCount;
    var penalty := Penalty(query, indexSet);
    var runs := SequentialNumberSets(indexSet);
    var sequencesBonus := RunBonus(runs);
    RunsCoverAtMostInput(indexSet);
    sequencesBonus + TwoAndAHalf(fileNameIndicesCount) + remainingIndicesCount * 1 - penalty
  }

  /** The score of each index set, in order. */
  function Scores(query: string, sets: seq<seq<nat>>, fileNameLength: nat): (scores: seq<int>)
    ensures |scores| == |sets|
    ensures forall k :: 0 <= k < |sets| ==> scores[k] == ScoreIndexSet(query, sets[k], fileNameLength)
  {
    seq(|sets|, k requires 0 <= k < |sets| => ScoreIndexSet(query, sets[k], fileNameLength))
  }

  /** The largest element (LINQ Max). */
  function Max(xs: seq<int>): (m: int)
    requires |xs| > 0
    ensures m in xs
    ensures forall k :: 0 <= k < |xs| ==> xs[k] <= m
  {
    if |xs| == 1 then xs[0]
    else
      var rest := Max(xs[1..]);
      if xs[0] >= rest then xs[0] else rest
  }

  /** The position of the first largest element: what a stable descending
      sort puts first. */
  function FirstMaxIndex(xs: seq<int>): (k: nat)
    requires |xs| > 0
    ensures k < |xs|
    ensures forall j :: 0 <= j < |xs| ==> xs[j] <= xs[k]
    ensures forall j :: 0 <= j < k ==> xs[j] < xs[k]
  {
    if |xs| == 1 then 0
    else
      var k := FirstMaxIndex(xs[..|xs| - 1]);
      if xs[|xs| - 1] > xs[k] then |xs| - 1 else k
  }

  /** The score of an entry for a query (GetScore): the best score of any
      alignment of the query in the entry's text, or 0 when there is none. */
  function GetScore(query: string, e: Entry): (score: int)
    ensures (forall r :: !IsAlignment(e.Text(), query, r)) ==> score == 0
    ensures forall r :: IsAlignment(e.Text(), query, r) ==> ScoreIndexSet(query, r, |e.fileName|) <= score
    ensures (exists r :: IsAlignment(e.Text(), query, r)) ==>
      exists r :: IsAlignment(e.Text(), query, r) && ScoreIndexSet(query, r, |e.fileName|) == score
  {
    var sets := EntryIndexSets(query, e);
    var scores := Scores(query, sets, |e.fileName|);
    if |scores| == 0 then
      assert forall r :: !IsAlignment(e.Text(), query, r);
      0
    else
      MaxIsBestAlignment(query, e, sets, scores);
      Max(scores)
  }

  lemma MaxIsBestAlignment(query: string, e: Entry, sets: seq<seq<nat>>, scores: seq<int>)
    requires sets == EntryIndexSets(query, e) && scores == Scores(query, sets, |e.fileName|)
    requires |scores| > 0
    ensures forall r :: IsAlignment(e.Text(), query, r) ==> ScoreIndexSet(query, r, |e.fileName|) <= Max(scores)
    ensures IsAlignment(e.Text(), query, sets[FirstMaxIndex(scores)])
    ensures ScoreIndexSet(query, sets[FirstMaxIndex(scores)], |e.fileName|) == Max(scores)
  {
    MaxAttained(scores);
    var k := FirstMaxIndex(scores);
    assert sets[k] in sets;
    forall r | IsAlignment(e.Text(), query, r)
      ensures ScoreIndexSet(query, r, |e.fileName|) <= Max(scores)
    {
      assert r in sets;
      ListedBelowMax(query, sets, scores, |e.fileName|, r);
    }
  }

  lemma ListedBelowMax(query: string, sets: seq<seq<nat>>, scores: seq<int>, fileNameLength: nat, r: seq<nat>)
    requires |scores| > 0 && scores == Scores(query, sets, fileNameLength) && r in sets
    ensures ScoreIndexSet(query, r, fileNameLength) <= Max(scores)
  {
    var j :| 0 <= j < |sets| && sets[j] == r;
    assert scores[j] <= Max(scores);
  }

  /** The first largest element is the largest element. */
  lemma MaxAttained(xs: seq<int>)
    requires |xs| > 0
    ensures xs[FirstMaxIndex(xs)] == Max(xs)
  {
    var i :| 0 <= i < |xs| && xs[i] == Max(xs);
    assert xs[i] <= xs[FirstMaxIndex(xs)];
  }

  /** The alignment shown highlighted for an entry: among the alignments in
      enumeration order, the first one with the best score (a stable sort by
      descending score, then First). The caller only asks for entries that
      have an alignment. */
  function BestSet(query: string, e: Entry): (best: seq<nat>)
    requires |EntryIndexSets(query, e)| > 0
    ensures IsAlignment(e.Text(), query, best)
    ensures ScoreIndexSet(query, best, |e.fileName|) == GetScore(query, e)
    ensures forall j :: 0 <= j < |EntryIndexSets(query, e)| && EntryIndexSets(query, e)[j] == best ==>
      forall i :: 0 <= i < j ==> ScoreIndexSet(query, EntryIndexSets(query, e)[i], |e.fileName|) < GetScore(query, e)
  {
    var sets := EntryIndexSets(query, e);
    var scores := Scores(query, sets, |e.fileName|);
    MaxIsBestAlignment(query, e, sets, scores);
    MatchIndexSetsOrdered(e.Text(), query);
    sets[FirstMaxIndex(scores)]
  }

  /** No alignment produced by the enumerator leaves a query character
      unmatched, so the penalty never applies. */
  lemma PenaltyIsInert(query: string, e: Entry)
    ensures forall r :: r in EntryIndexSets(query, e) ==> Penalty(query, r) == 0
  {
  }

  /** Every alignment scores at least one point per query character. */
  lemma AlignmentScoreAtLeastQueryLength(query: string, e: Entry, r: seq<nat>)
    requires IsAlignment(e.Text(), query, r)
    ensures GetScore(query, e) >= |query|
  {
    assert ScoreIndexSet(query, r, |e.fileName|) >= |r|;
  }

  /** An entry scores above zero exactly when the query is non-empty and
      occurs in its text as a subsequence; then it scores at least the
      query's length. */
  lemma PositiveScoreIffMatch(query: string, e: Entry)
    ensures GetScore(query, e) > 0 <==> |query| > 0 && exists r :: IsAlignment(e.Text(), query, r)
    ensures (exists r :: IsAlignment(e.Text(), query, r)) ==> GetScore(query, e) >= |query|
  {
    if r :| IsAlignment(e.Text(), query, r) {
      AlignmentScoreAtLeastQueryLength(query, e, r);
      if |query| == 0 {
        EmptyQueryScoresZero(e);
      }
    }
  }

  /** The empty query scores zero for every entry. */
  lemma EmptyQueryScoresZero(e: Entry)
    ensures GetScore("", e) == 0
  {
    EmptyQueryAlignment(e.Text());
    var s := Scores("", [[]], |e.fileName|);
    assert SequentialNumberSets([]) == [];
    assert s == [0];
  }

  /** The run bonus is earned exactly when two matched positions are
      neighbours. */
  lemma RunBonusIffAdjacent(indexSet: seq<nat>)
    ensures RunBonus(SequentialNumberSets(indexSet)) > 0 <==>
      exists k :: 0 < k < |indexSet| && indexSet[k] == indexSet[k - 1] + 1
  {
    if RunBonus(SequentialNumberSets(indexSet)) > 0 {
      BonusMeansNeighbours(indexSet);
    }
    if k :| 0 < k < |indexSet| && indexSet[k] == indexSet[k - 1] + 1 {
      NeighboursEarnBonus(indexSet, k);
    }
  }

  lemma BonusMeansNeighbours(indexSet: seq<nat>)
    requires RunBonus(SequentialNumberSets(indexSet)) > 0
    ensures exists k :: 0 < k < |indexSet| && indexSet[k] == indexSet[k - 1] + 1
  {
    var runs := SequentialNumberSets(indexSet);
    var bounds := RunBounds(indexSet);
    assert |runs| > 0;
    var a := bounds[0].0;
    assert IsMaximalRun(indexSet, a, bounds[0].1);
    assert indexSet[a + 1] == indexSet[a] + 1;
  }

  lemma NeighboursEarnBonus(indexSet: seq<nat>, k: nat)
    requires 0 < k < |indexSet| && indexSet[k] == indexSet[k - 1] + 1
    ensures RunBonus(SequentialNumberSets(indexSet)) > 0
  {
    var a, b := StretchAround(indexSet, k);
    var bounds := RunBounds(indexSet);
    assert (a, b) in bounds;
    var i :| 0 <= i < |bounds| && bounds[i] == (a, b);
    RunBonusAtLeast(SequentialNumberSets(indexSet), i);
  }

  /** The stretch of consecutive values through a pair of neighbours is a
      maximal run. */
  lemma StretchAround(indexSet: seq<nat>, k: nat) returns (a: nat, b: nat)
    requires 0 < k < |indexSet| && indexSet[k] == indexSet[k - 1] + 1
    ensures IsMaximalRun(indexSet, a, b)
  {
    a := RunStart(indexSet, k);
    b := RunEnd(indexSet, k);
  }

  /** The leftmost position of the stretch of consecutive values ending at k. */
  function RunStart(indexSet: seq<nat>, k: nat): (a: nat)
    requires k < |indexSet|
    ensures a <= k
    ensures forall j :: a < j <= k ==> indexSet[j] == indexSet[j - 1] + 1
    ensures a == 0 || indexSet[a] != indexSet[a - 1] + 1
  {
    if k == 0 || indexSet[k] != indexSet[k - 1] + 1 then k else RunStart(indexSet, k - 1)
  }

  /** One past the rightmost position of the stretch of consecutive values
      starting at k. */
  function RunEnd(indexSet: seq<nat>, k: nat): (b: nat)
    requires k < |indexSet|
    ensures k < b <= |indexSet|
    ensures forall j :: k < j < b ==> indexSet[j] == indexSet[j - 1] + 1
    ensures b == |indexSet| || indexSet[b] != indexSet[b - 1] + 1
    decreases |indexSet| - k
  {
    if k + 1 == |indexSet| || indexSet[k + 1] != indexSet[k] + 1 then k + 1 else RunEnd(indexSet, k + 1)
  }

  lemma {:induction false} RunBonusAtLeast(runs: seq<seq<int>>, i: nat)
    requires i < |runs| && |runs[i]| >= 2
    ensures RunBonus(runs) >= 3
  {
    if i > 0 {
      RunBonusAtLeast(runs[1..], i - 1);
    }
  }

  /** The file-name region includes the split point itself: a match on the
      first character of the title weighs as much as a file-name match, and
      only from the second title character on does a match weigh one. */
  lemma SplitPointCountsAsFileName(query: string, fileNameLength: nat, j: nat)
    requires |query| == 1
    ensures ScoreIndexSet(query, [j], fileNameLength) == if j <= fileNameLength then 2 else 1
  {
    assert SequentialNumberSets([j]) == [];
  }

  /** A contiguous alignment beats a scattered one with the same split: two
      matches in the file-name region score 8 when adjacent ("ch" in
      "chrome") and 5 otherwise ("ce" in "chrome"). */
  lemma TwoElementScore(query: string, x: nat, y: nat, fileNameLength: nat)
    requires |query| == 2 && x <= fileNameLength && y <= fileNameLength
    ensures ScoreIndexSet(query, [x, y], fileNameLength) == if y == x + 1 then 8 else 5
  {
    TwoElementRuns(x, y);
    assert CountUpTo([x, y], fileNameLength) == 2 by {
      assert [x, y][1..] == [y];
    }
    assert RunBonus([[x, y]]) == 3;
  }

  lemma TwoElementRuns(x: nat, y: nat)
    ensures SequentialNumberSets([x, y]) == if y == x + 1 then [[x, y]] else []
  {
    var xs: seq<int> := [x, y];
    var next := if y == x + 1 then 0 else 1;
    assert Scan(xs, 2, next) == [];
    if y == x + 1 {
      assert Scan(xs, 1, 0) == [(0, 2)];
      assert xs[0..2] == [x, y];
    } else {
      assert Scan(xs, 1, 0) == [];
    }
  }
}
