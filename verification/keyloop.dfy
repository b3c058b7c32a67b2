/** The interactive key loop of Switchow/Program.cs (Main): each key press
    edits the query, re-ranks the windows, and either keeps going, cancels,
    selects a window, or faults while looking up a label. */
module KeyLoop {
  import opened Windows
  import opened Wrappers
  import opened Scoring
  import opened Shortcut
  import opened Ranking

  /** The console keys the loop tells apart; every other key is `Other`. */
  datatype KeyKind = Escape | Oem4 | Enter | Backspace | Other

  /** One key press: which key, the character it produced, and whether Alt
      was held. */
  datatype KeyInfo = KeyInfo(key: KeyKind, keyChar: char, alt: bool)

  /** The loop's state between key presses: the typed characters and the
      display slots that Enter reads. */
  datatype State = State(chars: string, handles: map<nat, Handle>)

  /** What one key press (or a whole session) leads to. `Crashed` stands for
      the arithmetic overflow raised when a label is computed for a text
      whose hash is int.MinValue. */
  datatype Outcome = Continue(state: State) | Cancelled | Selected(handle: Handle) | Crashed

  /** Nothing typed and no display slots. */
  const Initial: State := State([], map[])

  /** The state is what the loop leaves behind after drawing: its slots are
      the display slots of the ranking for its query, and drawing that
      ranking did not fault. */
  predicate Displayed(windows: seq<WindowInfo>, st: State) {
    var ranked := Rank(st.chars, windows);
    st.handles == DisplayMap(ranked) && !DisplayOverflows(ranked)
  }

  /** How a key that neither cancels nor selects edits the query: Alt
      shortcuts and Enter leave it alone, Backspace drops the last character
      if there is one, and any other key appends its character. */
  function EditQuery(chars: string, key: KeyInfo): (next: string)
    ensures next == chars || next == chars + [key.keyChar] || (|chars| > 0 && next == chars[..|chars| - 1])
    ensures key.alt || key.key == Enter ==> next == chars
    ensures !key.alt && key.key == Backspace ==>
      |next| == (if |chars| > 0 then |chars| - 1 else 0) && next == chars[..|next|]
    ensures !key.alt && key.key == Other ==> |next| == |chars| + 1 && next[|chars|] == key.keyChar
  {
    if key.alt || key.key == Enter then chars
    else if key.key == Backspace then
      if |chars| > 0 then chars[..|chars| - 1] else chars
    else chars + [key.keyChar]
  }

  /** Backspace undoes the character the previous key appended. */
  lemma BackspaceUndoesTyping(chars: string, c: char, b: char)
    ensures EditQuery(EditQuery(chars, KeyInfo(Other, c, false)), KeyInfo(Backspace, b, false)) == chars
  {
    assert (chars + [c])[..|chars|] == chars;
  }

  /** One pass of the loop body for a key press. */
  function Step(windows: seq<WindowInfo>, st: State, key: KeyInfo): (out: Outcome)
    ensures key.key == Escape || key.key == Oem4 <==> out.Cancelled?
    ensures out.Continue? ==> Displayed(windows, out.state) && out.state.chars == EditQuery(st.chars, key)
    ensures out.Selected? && !key.alt ==> key.key == Enter && 0 in st.handles && out.handle == st.handles[0]
    ensures out.Selected? && key.alt ==>
      exists w :: w in windows && ShortcutChar(w.entry) == Some(key.keyChar) && w.handle == out.handle
    ensures out.Crashed? ==> exists w :: w in windows && ShortcutChar(w.entry) == None
  {
    if key.key == Escape || key.key == Oem4 then Cancelled
    else if !key.alt && key.key == Enter && 0 in st.handles then Selected(st.handles[0])
    else
      var chars := EditQuery(st.chars, key);
      var ranked := Rank(chars, windows);
      var scan := if key.alt then AltScan(ranked, key.keyChar) else NoMatch;
      if scan.Activate? then
        assert exists k ::
          && 0 <= k < |ranked| && ShortcutChar(ranked[k].window.entry) == Some(key.keyChar)
          && ranked[k].window.handle == scan.handle;
        Selected(scan.handle)
      else if scan.Overflow? then
        assert exists k :: 0 <= k < |ranked| && ShortcutChar(ranked[k].window.entry) == None;
        Crashed
      else if DisplayOverflows(ranked) then
        DisplayFaultWindow(ranked, windows);
        Crashed
      else Continue(State(chars, DisplayMap(ranked)))
  }

  /** A label lookup that faults while drawing is the label of a candidate. */
  lemma DisplayFaultWindow(ranked: seq<Scored>, windows: seq<WindowInfo>)
    requires forall k :: 0 <= k < |ranked| ==> ranked[k].window in windows
    requires DisplayOverflows(ranked)
    ensures exists w :: w in windows && ShortcutChar(w.entry) == None
  {
    var shown := Positive(ranked);
    var k :| 0 <= k < |shown| && k < DisplayLineCount && ShortcutChar(shown[k].window.entry) == None;
    assert shown[k] in ranked;
    var j :| 0 <= j < |ranked| && ranked[j] == shown[k];
    assert ranked[j].window in windows;
  }

  /** The key presses of a session, one after another, until one of them
      ends it; keys after that one are ignored, and when the keys run out
      first the loop is still waiting (`Continue`). */
  function Run(windows: seq<WindowInfo>, st: State, keys: seq<KeyInfo>): (out: Outcome)
    ensures Displayed(windows, st) && out.Continue? ==> Displayed(windows, out.state)
    ensures Displayed(windows, st) && out.Selected? ==> exists w :: w in windows && w.handle == out.handle
    ensures out.Crashed? ==> exists w :: w in windows && ShortcutChar(w.entry) == None
    ensures out.Cancelled? ==> exists k :: 0 <= k < |keys| && keys[k].key in {Escape, Oem4}
    decreases |keys|
  {
    if |keys| == 0 then Continue(st)
    else
      var out := Step(windows, st, keys[0]);
      if out.Continue? then
        var r := Run(windows, out.state, keys[1..]);
        CancelLater(keys, r.Cancelled?);
        r
      else
        StopNow(windows, st, keys[0]);
        out
  }

  /** A cancelling key among the keys after the first is a cancelling key
      of the whole sequence. */
  lemma CancelLater(keys: seq<KeyInfo>, cancelled: bool)
    requires |keys| > 0
    requires cancelled ==> exists k :: 0 <= k < |keys[1..]| && keys[1..][k].key in {Escape, Oem4}
    ensures cancelled ==> exists k :: 0 <= k < |keys| && keys[k].key in {Escape, Oem4}
  {
    if cancelled {
      var k :| 0 <= k < |keys[1..]| && keys[1..][k].key in {Escape, Oem4};
      assert keys[k + 1] == keys[1..][k];
    }
  }

  /** What a key press that ends the loop ends it with. */
  lemma StopNow(windows: seq<WindowInfo>, st: State, key: KeyInfo)
    ensures Displayed(windows, st) && Step(windows, st, key).Selected? ==>
      exists w :: w in windows && w.handle == Step(windows, st, key).handle
    ensures Step(windows, st, key).Cancelled? ==> key.key in {Escape, Oem4}
  {
    if Displayed(windows, st) && Step(windows, st, key).Selected? {
      SelectedIsCandidate(windows, st, key);
    }
  }

  /** From a drawn state, whatever a key press selects is a candidate's
      handle: Enter reads display slot 0, an Alt shortcut a labelled
      candidate. */
  lemma SelectedIsCandidate(windows: seq<WindowInfo>, st: State, key: KeyInfo)
    requires Displayed(windows, st)
    requires Step(windows, st, key).Selected?
    ensures exists w :: w in windows && w.handle == Step(windows, st, key).handle
  {
    if !key.alt {
      var ranked := Rank(st.chars, windows);
      var shown := Positive(ranked);
      assert 0 in DisplayMap(ranked);
      assert shown[0] in ranked;
      var j :| 0 <= j < |ranked| && ranked[j] == shown[0];
      assert ranked[j].window in windows;
    }
  }

  /** Before any key press nothing is shown: the empty query scores zero
      everywhere. */
  lemma InitialDisplayed(windows: seq<WindowInfo>)
    ensures Displayed(windows, Initial)
  {
    var ranked := Rank("", windows);
    forall k | 0 <= k < |ranked|
      ensures ranked[k].score <= 0
    {
      EmptyQueryScoresZero(ranked[k].window.entry);
    }
    NothingPositive(ranked);
    var slots := DisplayMap(ranked);
    assert slots.Keys == {};
    assert slots == map[];
  }

  /** A whole session over the windows open at start-up. */
  function Session(open: seq<WindowInfo>, keys: seq<KeyInfo>): (out: Outcome)
    ensures out.Selected? ==>
      exists w :: w in open && w.entry.fileName != SelfName && w.handle == out.handle
    ensures out.Crashed? ==>
      exists w :: w in open && w.entry.fileName != SelfName && ShortcutChar(w.entry) == None
    ensures out.Continue? ==> Displayed(Snapshot(open), out.state)
  {
    var windows := Snapshot(open);
    InitialDisplayed(windows);
    Run(windows, Initial, keys)
  }

  /** A key press that edits the query, from any state, into the query of a
      drawn state, redraws exactly that state. */
  lemma RedrawsDrawnState(windows: seq<WindowInfo>, st: State, key: KeyInfo, target: State)
    requires key.key != Escape && key.key != Oem4 && !key.alt
    requires !(key.key == Enter && 0 in st.handles)
    requires Displayed(windows, target) && EditQuery(st.chars, key) == target.chars
    ensures Step(windows, st, key) == Continue(target)
  {
    var ranked := Rank(target.chars, windows);
    assert !DisplayOverflows(ranked) && target.handles == DisplayMap(ranked);
    assert Step(windows, st, key) == Continue(State(target.chars, DisplayMap(ranked)));
  }

  /** Enter, from a drawn state, activates the best-scoring window (the
      first among equals) when any window scores above zero; otherwise it
      leaves the query and the display as they were. */
  lemma EnterSelectsTopMatch(windows: seq<WindowInfo>, st: State, c: char)
    requires Displayed(windows, st)
    ensures Step(windows, st, KeyInfo(Enter, c, false)) ==
      if exists i :: 0 <= i < |windows| && ScoresOf(st.chars, windows)[i] > 0
      then Selected(windows[FirstMaxIndex(ScoresOf(st.chars, windows))].handle)
      else Continue(st)
  {
    TopSlotIsBestWindow(st.chars, windows);
    var key := KeyInfo(Enter, c, false);
    if 0 in st.handles {
      assert Step(windows, st, key) == Selected(st.handles[0]);
    } else {
      RedrawsDrawnState(windows, st, key, st);
    }
  }

  /** Alt+c, from any state, keeps the query and scans its ranking from the
      top, over zero-score windows too: the first window labelled c is
      activated, provided every window ranked before it has a label; the
      first window before it whose label cannot be computed faults instead;
      and when every label is computable and none is c, the ranking is
      redrawn, which faults if a shown label cannot be computed. Any window
      Alt+c activates is such a first window labelled c. */
  lemma AltSelectsFirstLabelled(windows: seq<WindowInfo>, st: State, k: KeyKind, c: char)
    requires k != Escape && k != Oem4
    ensures var ranked := Rank(st.chars, windows);
      forall j :: 0 <= j < |ranked| && PassedOver(ranked, j, c) && ShortcutChar(ranked[j].window.entry) == Some(c) ==>
        Step(windows, st, KeyInfo(k, c, true)) == Selected(ranked[j].window.handle)
    ensures var ranked := Rank(st.chars, windows);
      forall j :: 0 <= j < |ranked| && PassedOver(ranked, j, c) && ShortcutChar(ranked[j].window.entry) == None ==>
        Step(windows, st, KeyInfo(k, c, true)) == Crashed
    ensures var ranked := Rank(st.chars, windows);
      PassedOver(ranked, |ranked|, c) ==>
        Step(windows, st, KeyInfo(k, c, true)) ==
          if DisplayOverflows(ranked) then Crashed else Continue(State(st.chars, DisplayMap(ranked)))
    ensures var ranked := Rank(st.chars, windows);
      Step(windows, st, KeyInfo(k, c, true)).Selected? ==>
        exists i ::
          && 0 <= i < |ranked| && PassedOver(ranked, i, c)
          && ShortcutChar(ranked[i].window.entry) == Some(c)
          && ranked[i].window.handle == Step(windows, st, KeyInfo(k, c, true)).handle
  {
    var ranked := Rank(st.chars, windows);
    AltStep(windows, st, KeyInfo(k, c, true));
    forall j | 0 <= j <= |ranked| && PassedOver(ranked, j, c) && (j == |ranked| || ShortcutChar(ranked[j].window.entry) in {None, Some(c)})
      ensures ScanStop(ranked, c, 0) == j
    {
      ScanStopsAt(ranked, c, j);
    }
  }

  /** Under Alt the query stays as it is and the scan of its ranking decides
      the outcome; a scan that finds nothing redraws. */
  lemma AltStep(windows: seq<WindowInfo>, st: State, key: KeyInfo)
    requires key.alt && key.key != Escape && key.key != Oem4
    ensures var ranked := Rank(st.chars, windows);
      var scan := AltScan(ranked, key.keyChar);
      Step(windows, st, key) ==
        if scan.Activate? then Selected(scan.handle)
        else if scan.Overflow? || DisplayOverflows(ranked) then Crashed
        else Continue(State(st.chars, DisplayMap(ranked)))
  {
    assert EditQuery(st.chars, key) == st.chars;
  }

  /** Typing a character and then Backspace, from a drawn state, comes back
      to exactly that state. */
  lemma TypeThenBackspace(windows: seq<WindowInfo>, st: State, c: char, b: char)
    requires Displayed(windows, st)
    requires Step(windows, st, KeyInfo(Other, c, false)).Continue?
    ensures Step(windows, Step(windows, st, KeyInfo(Other, c, false)).state, KeyInfo(Backspace, b, false)) == Continue(st)
  {
    var typed := Step(windows, st, KeyInfo(Other, c, false)).state;
    assert typed.chars == EditQuery(st.chars, KeyInfo(Other, c, false));
    BackspaceUndoesTyping(st.chars, c, b);
    RedrawsDrawnState(windows, typed, KeyInfo(Backspace, b, false), st);
  }
}
