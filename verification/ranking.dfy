/** Ranking of the candidate windows for a query, the display slots Enter
    reads, and the Alt-shortcut scan (Switchow/Program.cs, the body of the
    key loop in Main). */
module Ranking {
  import opened Windows
  import opened Wrappers
  import opened Subsequence
  import opened Scoring
  import opened Shortcut

  /** Number of ranked windows shown, and reachable through display slots. */
  const DisplayLineCount: nat := 5

  /** A window with its score for the current query. */
  datatype Scored = Scored(window: WindowInfo, score: int)

  /** Candidate i is ranked before candidate j: a higher score first, equal
      scores in their original order. */
  predicate Before(scores: seq<int>, i: nat, j: nat)
    requires i < |scores| && j < |scores|
  {
    scores[i] > scores[j] || (scores[i] == scores[j] && i < j)
  }

  /** `order` lists candidate positions strictly in ranking order. */
  ghost predicate SortedBy(scores: seq<int>, order: seq<nat>) {
    && (forall k :: 0 <= k < |order| ==> order[k] < |scores|)
    && (forall a, b :: 0 <= a < b < |order| ==> Before(scores, order[a], order[b]))
  }

  /** Inserts candidate x, which comes after every candidate already placed,
      behind all of them that score at least as much. */
  function Insert(scores: seq<int>, order: seq<nat>, x: nat): (r: seq<nat>)
    requires x < |scores| && SortedBy(scores, order)
    requires forall k :: 0 <= k < |order| ==> order[k] < x
    ensures |r| == |order| + 1
    ensures forall i :: i in r <==> i in order || i == x
    ensures SortedBy(scores, r)
  {
    if |order| == 0 then [x]
    else if scores[order[0]] >= scores[x] then
      var rest := Insert(scores, order[1..], x);
      assert forall k :: 0 <= k < |rest| ==> Before(scores, order[0], rest[k]) by {
        forall k | 0 <= k < |rest|
          ensures Before(scores, order[0], rest[k])
        {
          assert rest[k] in rest;
          if rest[k] != x {
            var j :| 0 <= j < |order[1..]| && order[1..][j] == rest[k];
            assert order[j + 1] == rest[k];
          }
        }
      }
      [order[0]] + rest
    else
      assert forall k :: 0 <= k < |order| ==> scores[order[k]] <= scores[order[0]] by {
        forall k | 0 < k < |order|
          ensures scores[order[k]] <= scores[order[0]]
        {
          assert Before(scores, order[0], order[k]);
        }
      }
      [x] + order
  }

  /** The first n candidates in ranking order: a stable sort by descending
      score (LINQ OrderByDescending). */
  function RankOrder(scores: seq<int>, n: nat): (order: seq<nat>)
    requires n <= |scores|
    ensures |order| == n
    ensures forall i :: i in order <==> 0 <= i < n
    ensures SortedBy(scores, order)
  {
    if n == 0 then []
    else
      var prev := RankOrder(scores, n - 1);
      assert forall k :: 0 <= k < |prev| ==> prev[k] < n - 1 by {
        forall k | 0 <= k < |prev|
          ensures prev[k] < n - 1
        {
          assert prev[k] in prev;
        }
      }
      Insert(scores, prev, n - 1)
  }

  /** Window w appears somewhere in the ranking. */
  ghost predicate Lists(ranked: seq<Scored>, w: WindowInfo) {
    exists k :: 0 <= k < |ranked| && ranked[k].window == w
  }

  /** The score of each candidate for the query, in candidate order. */
  function ScoresOf(query: string, windows: seq<WindowInfo>): (scores: seq<int>)
    ensures |scores| == |windows|
    ensures forall i :: 0 <= i < |windows| ==> scores[i] == GetScore(query, windows[i].entry)
  {
    seq(|windows|, i requires 0 <= i < |windows| => GetScore(query, windows[i].entry))
  }

  /** The candidates with the given scores, best first, ties in candidate
      order. */
  function RankBy(scores: seq<int>, windows: seq<WindowInfo>): (ranked: seq<Scored>)
    requires |scores| == |windows|
    ensures |ranked| == |windows|
    ensures forall k :: 0 <= k < |ranked| ==>
      var i := RankOrder(scores, |scores|)[k]; ranked[k] == Scored(windows[i], scores[i])
    ensures forall i :: 0 <= i < |windows| ==> Lists(ranked, windows[i])
    ensures forall a, b :: 0 <= a < b < |ranked| ==> ranked[a].score >= ranked[b].score
  {
    var order := RankOrder(scores, |scores|);
    var ranked := seq(|order|, k requires 0 <= k < |order| => Scored(windows[order[k]], scores[order[k]]));
    assert forall k :: 0 <= k < |order| ==> ranked[k] == Scored(windows[order[k]], scores[order[k]]);
    RankByCovers(scores, windows, order, ranked);
    RankByDescends(scores, windows, order, ranked);
    ranked
  }

  lemma RankByCovers(scores: seq<int>, windows: seq<WindowInfo>, order: seq<nat>, ranked: seq<Scored>)
    requires |scores| == |windows| && |order| == |scores| && |ranked| == |order|
    requires forall i :: i in order <==> 0 <= i < |scores|
    requires forall k :: 0 <= k < |order| ==> order[k] < |windows| && ranked[k].window == windows[order[k]]
    ensures forall i :: 0 <= i < |windows| ==> Lists(ranked, windows[i])
  {
    forall i | 0 <= i < |windows|
      ensures Lists(ranked, windows[i])
    {
      assert i in order;
      var k :| 0 <= k < |order| && order[k] == i;
      assert ranked[k].window == windows[i];
    }
  }

  lemma RankByDescends(scores: seq<int>, windows: seq<WindowInfo>, order: seq<nat>, ranked: seq<Scored>)
    requires |scores| == |windows| && |ranked| == |order|
    requires SortedBy(scores, order)
    requires forall k :: 0 <= k < |order| ==> ranked[k].score == scores[order[k]]
    ensures forall a, b :: 0 <= a < b < |ranked| ==> ranked[a].score >= ranked[b].score
  {
    forall a, b | 0 <= a < b < |ranked|
      ensures ranked[a].score >= ranked[b].score
    {
      assert Before(scores, order[a], order[b]);
    }
  }

  /** All candidates with their scores for the query, best first, ties in
      candidate order. */
  function Rank(query: string, windows: seq<WindowInfo>): (ranked: seq<Scored>)
    ensures |ranked| == |windows|
    ensures forall k :: 0 <= k < |ranked| ==>
      ranked[k].window in windows && ranked[k].score == GetScore(query, ranked[k].window.entry)
    ensures forall i :: 0 <= i < |windows| ==> Lists(ranked, windows[i])
    ensures forall a, b :: 0 <= a < b < |ranked| ==> ranked[a].score >= ranked[b].score
  {
    var scores := ScoresOf(query, windows);
    var ranked := RankBy(scores, windows);
    assert forall k :: 0 <= k < |ranked| ==>
      ranked[k].window in windows && ranked[k].score == GetScore(query, ranked[k].window.entry) by {
      var order := RankOrder(scores, |scores|);
      forall k | 0 <= k < |ranked|
        ensures ranked[k].window in windows && ranked[k].score == GetScore(query, ranked[k].window.entry)
      {
        assert order[k] in order;
        assert ranked[k] == Scored(windows[order[k]], scores[order[k]]);
      }
    }
    ranked
  }

  /** The ranked windows that scored above zero, in ranking order. */
  function Positive(ranked: seq<Scored>): (shown: seq<Scored>)
    ensures |shown| <= |ranked|
    ensures forall k :: 0 <= k < |shown| ==> shown[k] in ranked && shown[k].score > 0
    ensures forall s :: s in ranked && s.score > 0 ==> s in shown
  {
    if |ranked| == 0 then []
    else if ranked[0].score > 0 then [ranked[0]] + Positive(ranked[1..])
    else Positive(ranked[1..])
  }

  /** In a ranking the windows above zero form a prefix. */
  lemma {:induction false} PositiveIsPrefix(ranked: seq<Scored>)
    requires forall a, b :: 0 <= a < b < |ranked| ==> ranked[a].score >= ranked[b].score
    ensures Positive(ranked) == ranked[..|Positive(ranked)|]
    ensures forall k :: |Positive(ranked)| <= k < |ranked| ==> ranked[k].score <= 0
  {
    if |ranked| > 0 {
      var tail := ranked[1..];
      assert forall a, b :: 0 <= a < b < |tail| ==> tail[a].score >= tail[b].score by {
        forall a, b | 0 <= a < b < |tail|
          ensures tail[a].score >= tail[b].score
        {
          assert tail[a] == ranked[a + 1] && tail[b] == ranked[b + 1];
        }
      }
      if ranked[0].score <= 0 {
        NothingPositive(tail);
      } else {
        PositiveIsPrefix(tail);
        ConsPrefix(ranked, |Positive(tail)|);
      }
    }
  }

  lemma {:induction false} NothingPositive(ranked: seq<Scored>)
    requires forall k :: 0 <= k < |ranked| ==> ranked[k].score <= 0
    ensures Positive(ranked) == []
  {
    if |ranked| > 0 {
      NothingPositive(ranked[1..]);
    }
  }

  lemma ConsPrefix(xs: seq<Scored>, m: nat)
    requires m < |xs|
    ensures xs[..m + 1] == [xs[0]] + xs[1..][..m]
  {
  }

  /** The display slots: slot i holds the handle of the i-th window that
      scored above zero, for the first DisplayLineCount of them. */
  function DisplayMap(ranked: seq<Scored>): (slots: map<nat, Handle>)
    ensures forall i: nat :: i in slots <==> i < DisplayLineCount && i < |Positive(ranked)|
    ensures forall i :: i in slots ==> slots[i] == Positive(ranked)[i].window.handle
  {
    var shown := Positive(ranked);
    var count := if |shown| < DisplayLineCount then |shown| else DisplayLineCount;
    var slots := map i: nat | i < count :: shown[i].window.handle;
    assert forall i: nat :: i in slots <==> i < count;
    slots
  }

  /** In a ranking, slot 0 is filled exactly when the first window scored
      above zero, and then it holds that window's handle. */
  lemma TopSlotOfRanking(ranked: seq<Scored>)
    requires forall a, b :: 0 <= a < b < |ranked| ==> ranked[a].score >= ranked[b].score
    ensures 0 in DisplayMap(ranked) <==> |ranked| > 0 && ranked[0].score > 0
    ensures 0 in DisplayMap(ranked) ==> DisplayMap(ranked)[0] == ranked[0].window.handle
  {
    PositiveIsPrefix(ranked);
    if |ranked| > 0 && ranked[0].score > 0 {
      assert ranked[0] in Positive(ranked);
    }
  }

  /** The candidate a ranking puts first is the first one with the largest
      score. */
  lemma RankByHead(scores: seq<int>, windows: seq<WindowInfo>)
    requires |scores| == |windows| > 0
    ensures RankBy(scores, windows)[0] == Scored(windows[FirstMaxIndex(scores)], scores[FirstMaxIndex(scores)])
  {
    var order := RankOrder(scores, |scores|);
    var best := FirstMaxIndex(scores);
    assert best in order;
    var j :| 0 <= j < |order| && order[j] == best;
    assert order[0] == best;
  }

  /** Display slot 0 is filled exactly when some candidate scores above zero,
      and then it holds the handle of the best-scoring candidate, the
      earliest one among equals. */
  lemma TopSlotIsBestWindow(query: string, windows: seq<WindowInfo>)
    ensures 0 in DisplayMap(Rank(query, windows)) <==>
      exists i :: 0 <= i < |windows| && ScoresOf(query, windows)[i] > 0
    ensures 0 in DisplayMap(Rank(query, windows)) ==>
      DisplayMap(Rank(query, windows))[0] == windows[FirstMaxIndex(ScoresOf(query, windows))].handle
  {
    var scores := ScoresOf(query, windows);
    var ranked := Rank(query, windows);
    assert ranked == RankBy(scores, windows);
    TopSlotOfRanking(ranked);
    if |windows| > 0 {
      RankByHead(scores, windows);
    }
  }

  /** Every window the display shows has an alignment of the query, so the
      display's choice of a best index set for it always has a set to pick. */
  lemma ShownWindowsHaveBestSet(query: string, windows: seq<WindowInfo>)
    ensures forall k :: 0 <= k < |Positive(Rank(query, windows))| ==>
      |EntryIndexSets(query, Positive(Rank(query, windows))[k].window.entry)| > 0
  {
    var ranked := Rank(query, windows);
    var shown := Positive(ranked);
    forall k | 0 <= k < |shown|
      ensures |EntryIndexSets(query, shown[k].window.entry)| > 0
    {
      assert shown[k] in ranked;
      var j :| 0 <= j < |ranked| && ranked[j] == shown[k];
      ScoredHasIndexSet(query, shown[k].window.entry);
    }
  }

  lemma ScoredHasIndexSet(query: string, e: Entry)
    requires GetScore(query, e) > 0
    ensures |EntryIndexSets(query, e)| > 0
  {
    PositiveScoreIffMatch(query, e);
    var r :| IsAlignment(e.Text(), query, r);
    assert r in EntryIndexSets(query, e);
  }

  /** What the Alt-shortcut scan does. */
  datatype AltResult = Activate(handle: Handle) | NoMatch | Overflow

  /** Every window before position k has a label, and it is not c. */
  ghost predicate PassedOver(ranked: seq<Scored>, k: nat, c: char)
    requires k <= |ranked|
  {
    forall j :: 0 <= j < k ==>
      ShortcutChar(ranked[j].window.entry).Some? && ShortcutChar(ranked[j].window.entry).value != c
  }

  /** The position where the scan stops: the first window whose label is c or
      whose label lookup overflows, or the end of the list. */
  function ScanStop(ranked: seq<Scored>, c: char, from: nat): (k: nat)
    requires from <= |ranked| && PassedOver(ranked, from, c)
    ensures from <= k <= |ranked| && PassedOver(ranked, k, c)
    ensures k < |ranked| ==> ShortcutChar(ranked[k].window.entry) in {None, Some(c)}
    decreases |ranked| - from
  {
    if from == |ranked| then from
    else if ShortcutChar(ranked[from].window.entry) in {None, Some(c)} then from
    else ScanStop(ranked, c, from + 1)
  }

  /** The scan stops at any position it reaches whose label is c or cannot
      be computed, and runs to the end when every label is computable and
      none is c. */
  lemma ScanStopsAt(ranked: seq<Scored>, c: char, j: nat)
    requires j <= |ranked| && PassedOver(ranked, j, c)
    requires j < |ranked| ==> ShortcutChar(ranked[j].window.entry) in {None, Some(c)}
    ensures ScanStop(ranked, c, 0) == j
  {
    var k := ScanStop(ranked, c, 0);
    assert k <= j by {
      assert j < |ranked| ==> !(ShortcutChar(ranked[j].window.entry).Some? && ShortcutChar(ranked[j].window.entry).value != c);
    }
    assert j <= k by {
      assert k < |ranked| ==> !(ShortcutChar(ranked[k].window.entry).Some? && ShortcutChar(ranked[k].window.entry).value != c);
    }
  }

  /** Alt+c: walks the whole ranked list, including windows that scored zero,
      and activates the first one whose label is exactly c. */
  function AltScan(ranked: seq<Scored>, c: char): (r: AltResult)
    ensures r.Activate? ==>
      exists k ::
        && 0 <= k < |ranked| && PassedOver(ranked, k, c)
        && ShortcutChar(ranked[k].window.entry) == Some(c) && ranked[k].window.handle == r.handle
    ensures r.Overflow? ==>
      exists k ::
        && 0 <= k < |ranked| && PassedOver(ranked, k, c)
        && ShortcutChar(ranked[k].window.entry) == None
    ensures r.NoMatch? <==> PassedOver(ranked, |ranked|, c)
  {
    var k := ScanStop(ranked, c, 0);
    if k == |ranked| then NoMatch
    else if ShortcutChar(ranked[k].window.entry) == None then Overflow
    else Activate(ranked[k].window.handle)
  }

  /** Whether drawing the display faults: every shown window's label is
      looked up, and a lookup overflows for a text hashing to int.MinValue.
      Only a window that scored above zero can be the cause. */
  predicate DisplayOverflows(ranked: seq<Scored>)
    ensures DisplayOverflows(ranked) ==>
      exists s :: s in ranked && s.score > 0 && ShortcutChar(s.window.entry) == None
  {
    var shown := Positive(ranked);
    exists k :: 0 <= k < |shown| && k < DisplayLineCount && ShortcutChar(shown[k].window.entry) == None
  }

  /** On a ranking, drawing faults exactly when one of the first five
      windows scored above zero and has no computable label. */
  lemma DisplayOverflowsOnRanking(ranked: seq<Scored>)
    requires forall a, b :: 0 <= a < b < |ranked| ==> ranked[a].score >= ranked[b].score
    ensures DisplayOverflows(ranked) <==>
      exists k ::
        && 0 <= k < |ranked| && k < DisplayLineCount && ranked[k].score > 0
        && ShortcutChar(ranked[k].window.entry) == None
  {
    var shown := Positive(ranked);
    PositiveIsPrefix(ranked);
    if DisplayOverflows(ranked) {
      var k :| 0 <= k < |shown| && k < DisplayLineCount && ShortcutChar(shown[k].window.entry) == None;
      assert shown[k] == ranked[k];
    }
    if exists k :: 0 <= k < |ranked| && k < DisplayLineCount && ranked[k].score > 0 && ShortcutChar(ranked[k].window.entry) == None {
      var k :| 0 <= k < |ranked| && k < DisplayLineCount && ranked[k].score > 0 && ShortcutChar(ranked[k].window.entry) == None;
      assert k < |shown|;
      assert shown[k] == ranked[k];
    }
  }
}
