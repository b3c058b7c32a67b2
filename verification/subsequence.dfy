/** Enumeration of every way a query can be read, in order and ignoring
    case, out of a window's text (Switchow/Program.cs, GetStringMatchIndexSets). */
module Subsequence {
  import opened Windows

  /** Case folding of one character, restricted to ASCII letters. */
  function Lower(c: char): (l: char)
    ensures 'A' <= c <= 'Z' ==> 'a' <= l <= 'z' && l as int == c as int + 32
    ensures !('A' <= c <= 'Z') ==> l == c
  {
    if 'A' <= c <= 'Z' then (c as int + 32) as char else c
  }

  /** `upper` is an ASCII capital and `lower` its small letter. */
  predicate CasePair(upper: char, lower: char) {
    'A' <= upper <= 'Z' && lower as int == upper as int + 32
  }

  /** The matcher's notion of "the same character": equal, or the two cases
      of one ASCII letter. */
  predicate SameLetter(a: char, b: char)
    ensures SameLetter(a, b) <==> a == b || CasePair(a, b) || CasePair(b, a)
  {
    Lower(a) == Lower(b)
  }

  ghost predicate Increasing(r: seq<nat>) {
    forall i, j :: 0 <= i < j < |r| ==> r[i] < r[j]
  }

  /** `r` names, in increasing order, one position of `s` for each character
      of `q`, and each named character of `s` is that query character up to
      case: one alignment of `q` inside `s`. */
  ghost predicate IsAlignment(s: string, q: string, r: seq<nat>) {
    && |r| == |q|
    && Increasing(r)
    && forall k :: 0 <= k < |r| ==> r[k] < |s| && SameLetter(q[k], s[r[k]])
  }

  /** The first text position a partial alignment may be extended with. */
  function NextStart(r: seq<nat>): nat {
    if |r| > 0 then r[|r| - 1] + 1 else 0
  }

  /** The partial alignment `r` extended by each position from `from` on whose
      character matches `c`, in increasing position order. */
  function ExtendAt(s: string, c: char, r: seq<nat>, from: nat): (es: seq<seq<nat>>)
    ensures forall e :: e in es ==>
      |e| == |r| + 1 && e[..|r|] == r && from <= e[|r|] < |s| && SameLetter(c, s[e[|r|]])
    ensures forall j :: from <= j < |s| && SameLetter(c, s[j]) ==> r + [j] in es
    decreases |s| - from
  {
    if from >= |s| then []
    else
      var rest := ExtendAt(s, c, r, from + 1);
      if SameLetter(c, s[from]) then [r + [from]] + rest else rest
  }

  /** One round of the breadth-first expansion: every partial alignment, in
      order, extended by every viable position for `c`; partial alignments
      with no viable position are dropped. */
  function ExtendAll(s: string, c: char, rs: seq<seq<nat>>): (es: seq<seq<nat>>)
    ensures forall e :: e in es ==>
      && |e| > 0
      && e[..|e| - 1] in rs
      && NextStart(e[..|e| - 1]) <= e[|e| - 1] < |s|
      && SameLetter(c, s[e[|e| - 1]])
    ensures forall r, j :: r in rs && NextStart(r) <= j < |s| && SameLetter(c, s[j]) ==> r + [j] in es
  {
    if |rs| == 0 then []
    else
      var head := ExtendAt(s, c, rs[0], NextStart(rs[0]));
      var tail := ExtendAll(s, c, rs[1..]);
      assert forall e :: e in head ==> e[..|e| - 1] == rs[0];
      head + tail
  }

  /** Every alignment of `q` in `s`, and nothing else (GetStringMatchIndexSets
      with a text and a character array). */
  function MatchIndexSets(s: string, q: string): (rs: seq<seq<nat>>)
    ensures forall r :: r in rs ==> IsAlignment(s, q, r)
    ensures forall r :: IsAlignment(s, q, r) ==> r in rs
    decreases |q|
  {
    if |q| == 0 then
      assert forall r :: IsAlignment(s, q, r) ==> r == [];
      [[]]
    else
      var prev := MatchIndexSets(s, q[..|q| - 1]);
      ExtendAllAlignments(s, q, prev);
      ExtendAll(s, q[|q| - 1], prev)
  }

  /** The overload taking a query and an entry: the entry's combined text. */
  function EntryIndexSets(q: string, e: Entry): (rs: seq<seq<nat>>)
    ensures forall r :: r in rs <==> IsAlignment(e.Text(), q, r)
  {
    MatchIndexSets(e.Text(), q)
  }

  /** Extending every alignment of all of `q` but its last character by every
      viable position for that character yields exactly the alignments of `q`. */
  lemma ExtendAllAlignments(s: string, q: string, prev: seq<seq<nat>>)
    requires |q| > 0
    requires forall r :: r in prev ==> IsAlignment(s, q[..|q| - 1], r)
    requires forall r :: IsAlignment(s, q[..|q| - 1], r) ==> r in prev
    ensures forall r :: r in ExtendAll(s, q[|q| - 1], prev) ==> IsAlignment(s, q, r)
    ensures forall r :: IsAlignment(s, q, r) ==> r in ExtendAll(s, q[|q| - 1], prev)
  {
    forall e | e in ExtendAll(s, q[|q| - 1], prev)
      ensures IsAlignment(s, q, e)
    {
      ExtendedIsAlignment(s, q, prev, e);
    }
    forall r | IsAlignment(s, q, r)
      ensures r in ExtendAll(s, q[|q| - 1], prev)
    {
      AlignmentIsExtended(s, q, prev, r);
    }
  }

  lemma ExtendedIsAlignment(s: string, q: string, prev: seq<seq<nat>>, e: seq<nat>)
    requires |q| > 0
    requires forall r :: r in prev ==> IsAlignment(s, q[..|q| - 1], r)
    requires e in ExtendAll(s, q[|q| - 1], prev)
    ensures IsAlignment(s, q, e)
  {
    var p := ExtendAllShape(s, q[|q| - 1], prev, e);
    AlignmentStep(s, q, p, e[|e| - 1]);
  }

  lemma AlignmentIsExtended(s: string, q: string, prev: seq<seq<nat>>, r: seq<nat>)
    requires |q| > 0
    requires forall r :: IsAlignment(s, q[..|q| - 1], r) ==> r in prev
    requires IsAlignment(s, q, r)
    ensures r in ExtendAll(s, q[|q| - 1], prev)
  {
    var n := |q| - 1;
    var p := r[..n];
    AlignmentPrefix(s, q, r);
    assert r == p + [r[n]];
  }

  lemma AlignmentPrefix(s: string, q: string, r: seq<nat>)
    requires |q| > 0 && IsAlignment(s, q, r)
    ensures IsAlignment(s, q[..|q| - 1], r[..|q| - 1])
    ensures NextStart(r[..|q| - 1]) <= r[|q| - 1]
  {
    var n := |q| - 1;
    if n > 0 {
      assert r[n - 1] < r[n];
    }
  }

  lemma AlignmentStep(s: string, q: string, p: seq<nat>, j: nat)
    requires |q| > 0
    requires IsAlignment(s, q[..|q| - 1], p)
    requires NextStart(p) <= j < |s| && SameLetter(q[|q| - 1], s[j])
    ensures IsAlignment(s, q, p + [j])
  {
    var r := p + [j];
    forall a, b | 0 <= a < b < |r|
      ensures r[a] < r[b]
    {
      if b == |p| && a < |p| {
        assert p[a] <= p[|p| - 1];
      }
    }
  }

  // ----- Order of the enumeration -----

  /** `a` comes strictly before `b` in lexicographic order. */
  ghost predicate LexLess(a: seq<nat>, b: seq<nat>) {
    exists p :: 0 <= p < |a| && p < |b| && a[..p] == b[..p] && a[p] < b[p]
  }

  ghost predicate LexSorted(rs: seq<seq<nat>>) {
    forall i, j :: 0 <= i < j < |rs| ==> LexLess(rs[i], rs[j])
  }

  lemma LexLessAppend(a: seq<nat>, b: seq<nat>, x: nat, y: nat)
    requires |a| == |b| && LexLess(a, b)
    ensures LexLess(a + [x], b + [y])
  {
    var p :| 0 <= p < |a| && p < |b| && a[..p] == b[..p] && a[p] < b[p];
    assert (a + [x])[..p] == a[..p];
    assert (b + [y])[..p] == b[..p];
  }

  lemma LexLessLast(r: seq<nat>, x: nat, y: nat)
    requires x < y
    ensures LexLess(r + [x], r + [y])
  {
    var p := |r|;
    assert (r + [x])[..p] == r == (r + [y])[..p];
  }

  lemma LexLessIrreflexive(a: seq<nat>)
    ensures !LexLess(a, a)
  {
  }

  lemma LexSortedConcat(xs: seq<seq<nat>>, ys: seq<seq<nat>>)
    requires LexSorted(xs) && LexSorted(ys)
    requires forall x, y :: x in xs && y in ys ==> LexLess(x, y)
    ensures LexSorted(xs + ys)
  {
    var zs := xs + ys;
    forall i, j | 0 <= i < j < |zs|
      ensures LexLess(zs[i], zs[j])
    {
      if j < |xs| {
        assert zs[i] == xs[i] && zs[j] == xs[j];
      } else if i >= |xs| {
        assert zs[i] == ys[i - |xs|] && zs[j] == ys[j - |xs|];
      } else {
        assert zs[i] in xs && zs[j] in ys;
      }
    }
  }

  lemma {:induction false} ExtendAtSorted(s: string, c: char, r: seq<nat>, from: nat)
    ensures LexSorted(ExtendAt(s, c, r, from))
    decreases |s| - from
  {
    if from < |s| {
      var rest := ExtendAt(s, c, r, from + 1);
      ExtendAtSorted(s, c, r, from + 1);
      if SameLetter(c, s[from]) {
        forall y | y in rest
          ensures LexLess(r + [from], y)
        {
          assert y == r + [y[|r|]];
          LexLessLast(r, from, y[|r|]);
        }
        LexSortedConcat([r + [from]], rest);
      }
    }
  }

  lemma {:induction false} ExtendAllSorted(s: string, c: char, rs: seq<seq<nat>>, k: nat)
    requires LexSorted(rs)
    requires forall r :: r in rs ==> |r| == k
    ensures LexSorted(ExtendAll(s, c, rs))
  {
    if |rs| > 0 {
      var head := ExtendAt(s, c, rs[0], NextStart(rs[0]));
      var tail := ExtendAll(s, c, rs[1..]);
      ExtendAtSorted(s, c, rs[0], NextStart(rs[0]));
      LexSortedTail(rs);
      ExtendAllSorted(s, c, rs[1..], k);
      forall x, y | x in head && y in tail
        ensures LexLess(x, y)
      {
        HeadBeforeTail(s, c, rs, k, x, y);
      }
      LexSortedConcat(head, tail);
    }
  }

  lemma LexSortedTail(rs: seq<seq<nat>>)
    requires |rs| > 0 && LexSorted(rs)
    ensures LexSorted(rs[1..])
    ensures forall r :: r in rs[1..] ==> LexLess(rs[0], r)
  {
    forall i, j | 0 <= i < j < |rs[1..]|
      ensures LexLess(rs[1..][i], rs[1..][j])
    {
      assert rs[1..][i] == rs[i + 1] && rs[1..][j] == rs[j + 1];
    }
    forall r | r in rs[1..]
      ensures LexLess(rs[0], r)
    {
      var i :| 0 <= i < |rs[1..]| && rs[1..][i] == r;
      assert rs[i + 1] == r;
    }
  }

  lemma HeadBeforeTail(s: string, c: char, rs: seq<seq<nat>>, k: nat, x: seq<nat>, y: seq<nat>)
    requires |rs| > 0 && LexSorted(rs)
    requires forall r :: r in rs ==> |r| == k
    requires x in ExtendAt(s, c, rs[0], NextStart(rs[0]))
    requires y in ExtendAll(s, c, rs[1..])
    ensures LexLess(x, y)
  {
    var last := ExtendAtShape(s, c, rs[0], NextStart(rs[0]), x);
    var py := ExtendAllShape(s, c, rs[1..], y);
    LexSortedTail(rs);
    LexLessAppend(rs[0], py, last, y[|y| - 1]);
  }

  lemma ExtendAtShape(s: string, c: char, r: seq<nat>, from: nat, x: seq<nat>) returns (last: nat)
    requires x in ExtendAt(s, c, r, from)
    ensures x == r + [last]
  {
    last := x[|r|];
    assert x == x[..|r|] + [last];
  }

  lemma ExtendAllShape(s: string, c: char, rs: seq<seq<nat>>, y: seq<nat>) returns (prefix: seq<nat>)
    requires y in ExtendAll(s, c, rs)
    ensures prefix in rs && |y| > 0 && y == prefix + [y[|y| - 1]]
    ensures NextStart(prefix) <= y[|y| - 1] < |s| && SameLetter(c, s[y[|y| - 1]])
  {
    prefix := y[..|y| - 1];
    SplitLast(y);
  }

  lemma SplitLast(y: seq<nat>)
    requires |y| > 0
    ensures y == y[..|y| - 1] + [y[|y| - 1]]
  {
  }

  /** The alignments come out in strictly increasing lexicographic order, so
      each alignment is listed exactly once. */
  lemma {:induction false} MatchIndexSetsOrdered(s: string, q: string)
    ensures LexSorted(MatchIndexSets(s, q))
    ensures forall i, j :: 0 <= i < j < |MatchIndexSets(s, q)| ==>
      MatchIndexSets(s, q)[i] != MatchIndexSets(s, q)[j]
    decreases |q|
  {
    var rs := MatchIndexSets(s, q);
    if |q| > 0 {
      var prev := MatchIndexSets(s, q[..|q| - 1]);
      MatchIndexSetsOrdered(s, q[..|q| - 1]);
      ExtendAllSorted(s, q[|q| - 1], prev, |q| - 1);
    }
    forall i, j | 0 <= i < j < |rs|
      ensures rs[i] != rs[j]
    {
      assert LexLess(rs[i], rs[j]);
      LexLessIrreflexive(rs[i]);
    }
  }

  /** The empty query has exactly one alignment: the empty one. */
  lemma EmptyQueryAlignment(s: string)
    ensures MatchIndexSets(s, "") == [[]]
  {
  }

  /** The worked example in the source's documentation comment. */
  lemma DocumentedExample()
    ensures MatchIndexSets("abcbc", "bc") == [[1, 2], [1, 4], [3, 4]]
  {
    assert "bc"[..1] == "b" && "bc"[1] == 'c';
    ExampleFirstRound();
    ExampleSecondRound();
  }

  lemma ExampleFirstRound()
    ensures MatchIndexSets("abcbc", "b") == [[1], [3]]
  {
    var s := "abcbc";
    assert "b"[..0] == "";
    assert ExtendAt(s, 'b', [], 5) == [];
    assert ExtendAt(s, 'b', [], 4) == [];
    assert ExtendAt(s, 'b', [], 3) == [[3]];
    assert ExtendAt(s, 'b', [], 2) == [[3]];
    assert ExtendAt(s, 'b', [], 1) == [[1], [3]];
    assert ExtendAt(s, 'b', [], 0) == [[1], [3]];
    assert ExtendAll(s, 'b', [[]]) == [[1], [3]];
  }

  lemma ExampleSecondRound()
    ensures ExtendAll("abcbc", 'c', [[1], [3]]) == [[1, 2], [1, 4], [3, 4]]
  {
    var s := "abcbc";
    ExampleExtensions();
    assert [[1], [3]][1..] == [[3]] && [[3]][1..] == [];
    assert ExtendAll(s, 'c', [[3]]) == [[3, 4]];
    assert ExtendAll(s, 'c', [[1], [3]]) == [[1, 2], [1, 4]] + [[3, 4]];
  }

  lemma ExampleExtensions()
    ensures ExtendAt("abcbc", 'c', [1], 2) == [[1, 2], [1, 4]]
    ensures ExtendAt("abcbc", 'c', [3], 4) == [[3, 4]]
  {
    var s := "abcbc";
    assert [1] + [4] == [1, 4] && [1] + [2] == [1, 2] && [3] + [4] == [3, 4];
    assert SameLetter('c', s[4]) && SameLetter('c', s[2]) && !SameLetter('c', s[3]);
    assert ExtendAt(s, 'c', [1], 5) == [];
    assert ExtendAt(s, 'c', [1], 4) == [[1, 4]];
    assert ExtendAt(s, 'c', [1], 3) == [[1, 4]];
    assert ExtendAt(s, 'c', [3], 5) == [];
  }
}
