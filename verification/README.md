# Switchow window matcher, modelled in Dafny

Switchow is a keyboard window switcher. At start-up it takes a snapshot of the
open windows. Each window has an executable file name, a title and an OS
handle. The user then types a query. After every key press the windows are
ranked by how well the query can be read, in order and ignoring case, out of
"file name + title". Enter activates the best window. Alt plus a label
character activates the window carrying that one-character label. Escape (or
Ctrl+[) gives up.

This project models the matching engine of `Switchow/Program.cs` as pure
functions and proves what it computes:

- `subsequence.dfy`: the alignment enumerator (`GetStringMatchIndexSets`, both
  overloads). It is sound and complete with respect to an independent
  definition of an alignment. Its output is in strict lexicographic order, so
  nothing is listed twice.
- `runs.dfy`: the run detector (`GetSequentialNumberSets`). It is a literal
  transcription of the loop. It returns exactly the maximal runs of
  consecutive values of length at least two, in input order and without
  overlap.
- `scoring.dfy`:
  - `ScoreIndexSet` and `GetScore`, with the file-name weight of two and a
    half, the title weight of one, the run bonus and the (inert) penalty;
  - the choice of the highlighted alignment (a stable descending sort, then
    `First`).
- `shortcut.dfy`:
  - the 32-bit wrapping string hash;
  - the 57-symbol label alphabet;
  - `GetShortcutChar`, including the overflow that `Math.Abs` raises for
    `int.MinValue`.
- `ranking.dfy`:
  - the stable ranking by descending score;
  - the positive-score filter;
  - the five display slots;
  - the Alt-shortcut scan.
- `keyloop.dfy`: the key loop of `Main` as a step function over
  `State(chars, handles)`, with the outcomes Continue, Cancelled, Selected
  and Crashed. Sessions are runs of that step function over the snapshot.
- `windows.dfy`, `wrappers.dfy`: the window data and `Option`.

Window handles are opaque tokens. Activating a window (`SetForegroundWindow`)
is the `Selected(handle)` outcome. The overflow exception is the `Crashed`
outcome: the process ends with an unhandled exception.

Two behaviours of the code are easy to miss, and the model keeps both:

- An Alt shortcut scans the whole ranked list, including windows that scored
  zero and are not on screen (lines 79-91), not only the five displayed
  windows. `KeyLoop.AltSelectsFirstLabelled` states the resulting choice.
- `GetShortcutChar` throws when a text hashes to `int.MinValue`, because
  `Math.Abs(int.MinValue)` overflows (line 171). The text `"qwkgaia"` has that
  hash (`Shortcut.LabelOverflowExample`). The model returns `None` for such a
  label. A lookup of it, in the Alt scan or while drawing the display, ends
  the session as `Crashed`.

The file-name region is inclusive: a position equal to the file-name length
counts as a file-name match, although it is the first character of the
title. `Scoring.SplitPointCountsAsFileName` states this. For example, with
file name `"code"` and title `"code project"`, the query `"c"` scores 2 at
position 0 and also 2 at position 4.

## Model

| member | source | states |
|---|---|---|
| Windows.Snapshot | Switchow/Program.cs:35-39 | The candidate list keeps every open window whose file name is not "Switchow" and nothing else. |
| Subsequence.Lower | Switchow/Program.cs:233 | Folding maps an ASCII capital to its small letter and leaves every other character as it is. |
| Subsequence.SameLetter | Switchow/Program.cs:233 | Two characters match when they are equal or are the two cases of one ASCII letter. |
| Subsequence.ExtendAll | Switchow/Program.cs:227-239 | One round of the enumeration. Every output extends some input set by one position after its last index, at a character matching the query character up to case. Every such extension is output. |
| Subsequence.MatchIndexSets | Switchow/Program.cs:222-242 | A set is returned exactly when it is an alignment: as long as the query, strictly increasing, in bounds, and each indexed character equals the query character up to case. |
| Subsequence.EntryIndexSets | Switchow/Program.cs:214-217 | The entry overload matches against file name followed by title, with the same exact characterisation. |
| Subsequence.MatchIndexSetsOrdered | Switchow/Program.cs:222-242 | The sets come out in strictly increasing lexicographic order, so no alignment is listed twice. |
| Subsequence.EmptyQueryAlignment | Switchow/Program.cs:224 | The empty query yields exactly one set, the empty one. |
| Subsequence.DocumentedExample | Switchow/Program.cs:219-221 | For "abcbc" and 'b','c' the result is [1,2], [1,4], [3,4], in that order. |
| Runs.Scan | Switchow/Program.cs:195-210 | From any point of the loop, everything reported is a maximal run of at least two consecutive values. Reports come in order without overlap. Every maximal run not yet closed gets reported. |
| Runs.RunBounds | Switchow/Program.cs:191-212 | The bounds found are exactly the maximal runs, in increasing, non-overlapping order. |
| Runs.SequentialNumberSets | Switchow/Program.cs:191-212 | Each run is the input slice at its bounds: at least two elements, each one more than the previous. An input of fewer than two numbers has no runs. |
| Runs.RunsCoverAtMostInput | Switchow/Program.cs:191-212 | Runs are disjoint, so their total length is at most the input length. |
| Runs.TwoRunsExample | Switchow/Program.cs:191-212 | [1,2,3,7,8] gives the runs [1,2,3] and [7,8]. |
| Runs.NoRunsExample | Switchow/Program.cs:191-212 | [0,2,4] gives no runs. |
| Scoring.CountUpTo | Switchow/Program.cs:178 | The file-name count is at most the set size, and equals it exactly when every index is within the file-name region. |
| Scoring.CountUpToCountsPositions | Switchow/Program.cs:178 | The file-name count is the number of positions of the set whose index is at most the file-name length. |
| Scoring.CountUpToAppend | Switchow/Program.cs:178 | The count of a concatenation is the sum of the counts of its parts. |
| Scoring.RunBonus | Switchow/Program.cs:182 | Each run earns one and a half points per element, truncated per run, so twice the bonus is at most three times the covered length and falls short of it by at most one per run. |
| Scoring.OneRunBonus | Switchow/Program.cs:182 | A single run of length n earns `(int)(n * 1.5)`. |
| Scoring.RunBonusAppend | Switchow/Program.cs:182 | The bonus of a list of runs is the sum of the bonuses of its parts, so together with `OneRunBonus` it is the per-run truncated sum. |
| Scoring.ScoreIndexSet | Switchow/Program.cs:175-184 | A set as long as the query scores between one and four points per character, so never negatively. |
| Scoring.PenaltyIsInert | Switchow/Program.cs:180-181 | The penalty is zero for every set the enumerator returns. |
| Scoring.RunBonusIffAdjacent | Switchow/Program.cs:182 | A set earns a run bonus exactly when two of its consecutive indices are neighbours. |
| Scoring.SplitPointCountsAsFileName | Switchow/Program.cs:177-178 | For a one-character query, a match at index j weighs 2 when j is at most the file-name length and 1 otherwise. The split point itself counts as file name. |
| Scoring.TwoElementScore | Switchow/Program.cs:175-184 | Two file-name matches score 8 when adjacent and 5 otherwise, so contiguity is preferred. |
| Scoring.FirstMaxIndex | Switchow/Program.cs:119-123 | The chosen position holds a maximum, and every earlier position holds strictly less: what a stable descending sort puts first. |
| Scoring.Max | Switchow/Program.cs:188 | The maximum is an element of the list and no element exceeds it. |
| Scoring.GetScore | Switchow/Program.cs:185-189 | The score is 0 when there is no alignment. Otherwise it is at least every alignment's score and is reached by some alignment. |
| Scoring.BestSet | Switchow/Program.cs:117-123 | The highlighted set is an alignment whose score equals GetScore, and every set enumerated before it scores strictly less. |
| Scoring.PositiveScoreIffMatch | Switchow/Program.cs:185-189 | An entry scores above zero exactly when the query is non-empty and has an alignment in the entry's text; then the score is at least the query's length. |
| Scoring.EmptyQueryScoresZero | Switchow/Program.cs:185-189 | The empty query scores 0 for every entry. |
| Shortcut.Wrap32 | Switchow/Program.cs:246-248 | The wrapped value is a 32-bit signed integer congruent to its argument modulo 2^32. |
| Shortcut.StableHashIsWrappedExact | Switchow/Program.cs:244-250 | Wrapping after every step of the fold from 23 gives the unbounded polynomial hash reduced to 32 bits once. |
| Shortcut.StableHash | Switchow/Program.cs:244-250 | The hash always lies in the 32-bit signed range. |
| Shortcut.CharRange | Switchow/Program.cs:162-163 | A character range has one element per code from start to end inclusive, in increasing order. |
| Shortcut.ShortcutAlphabet | Switchow/Program.cs:160-167 | The label alphabet has 57 symbols. |
| Shortcut.AlphabetShape | Switchow/Program.cs:160-167 | The alphabet has 57 pairwise distinct symbols: exactly the ASCII letters and ; [ ] \ /. |
| Shortcut.ShortcutChar | Switchow/Program.cs:168-173 | A label exists exactly when the hash is not int.MinValue, and it is always an alphabet symbol. |
| Shortcut.LabelOverflowExample | Switchow/Program.cs:171 | The text "qwkgaia" hashes to int.MinValue, so its label lookup faults. |
| Ranking.Insert | Switchow/Program.cs:75-78 | Inserting a later candidate into a ranked order keeps it ranked and adds exactly that candidate. |
| Ranking.ScoresOf | Switchow/Program.cs:76 | Each candidate's score is its GetScore for the query, position by position. |
| Ranking.RankOrder | Switchow/Program.cs:75-78 | The order is a permutation of the candidates, sorted by descending score with ties in original order (a stable sort). |
| Ranking.RankBy | Switchow/Program.cs:75-78 | The ranked list pairs each candidate with its score in that stable order. Every candidate appears, and scores never increase along the list. |
| Ranking.Rank | Switchow/Program.cs:75-78 | Every ranked window is a candidate carrying its GetScore. Every candidate appears, and scores are in descending order. |
| Ranking.Positive | Switchow/Program.cs:93-96 | The kept windows are exactly the ranked windows that scored above zero. |
| Ranking.PositiveIsPrefix | Switchow/Program.cs:93-96 | In a ranking, the windows that scored above zero form a prefix of the list. |
| Ranking.DisplayMap | Switchow/Program.cs:97-100 | Slot i exists exactly when i is below 5 and below the number of positive windows, and it holds the i-th positive window's handle. |
| Ranking.TopSlotIsBestWindow | Switchow/Program.cs:75-100 | Slot 0 exists exactly when some candidate scores above zero. It then holds the handle of the first candidate with the highest score. |
| Ranking.ShownWindowsHaveBestSet | Switchow/Program.cs:117-123 | Every displayed window has at least one alignment, so choosing its highlighted set never meets an empty list. |
| Ranking.ScanStop | Switchow/Program.cs:79-90 | The scan stops at the first window whose label is the pressed character or cannot be computed. Every window before it has a different label. |
| Ranking.AltScan | Switchow/Program.cs:79-91 | Alt+c activates the first window in the whole ranking labelled c, provided every earlier label was computable. It faults at the first uncomputable label, and finds nothing exactly when every label is computable and differs from c. |
| Ranking.ScanStopsAt | Switchow/Program.cs:79-90 | The scan stops exactly at a position it reaches whose label is the pressed character or cannot be computed, and at the end when there is none. |
| Ranking.DisplayOverflows | Switchow/Program.cs:110-117 | Drawing faults only on a window that scored above zero and has no computable label. |
| Ranking.DisplayOverflowsOnRanking | Switchow/Program.cs:93-117 | On a ranking, drawing faults exactly when one of the first five windows scored above zero and has no computable label. |
| KeyLoop.EditQuery | Switchow/Program.cs:52-73 | Alt shortcuts and Enter leave the query alone. Backspace drops the last character of a non-empty query and leaves an empty one empty. Any other plain key appends its character. |
| KeyLoop.BackspaceUndoesTyping | Switchow/Program.cs:62-72 | Backspace removes exactly the character the previous key appended. |
| KeyLoop.Step | Switchow/Program.cs:46-101 | The step behaves as follows. (1) Escape/Oem4, and only they, cancel. (2) A continued state is redrawn and carries the edited query. (3) Without Alt, only Enter selects, and it takes the handle in slot 0. (4) With Alt, the selected window is a candidate labelled with the pressed character. (5) A fault comes from a candidate whose label cannot be computed. |
| KeyLoop.Run | Switchow/Program.cs:44-102 | Over a key sequence, drawn states stay drawn, and a selected handle belongs to a candidate. A fault comes from a candidate's label, and a cancellation from an Escape/Oem4 key. |
| KeyLoop.InitialDisplayed | Switchow/Program.cs:42-43 | The initial empty query and empty slot map are what the display shows before any key. |
| KeyLoop.Session | Switchow/Program.cs:35-102 | A session selects only the handle of an open window not named "Switchow". It faults only on such a window's label. |
| KeyLoop.SelectedIsCandidate | Switchow/Program.cs:53-61 | From a drawn state, whatever a key selects is some candidate's handle. |
| KeyLoop.EnterSelectsTopMatch | Switchow/Program.cs:53-61 | From a drawn state, Enter activates the first highest-scoring window when any window scores above zero. Otherwise it changes nothing. |
| KeyLoop.AltStep | Switchow/Program.cs:79-101 | Under Alt the query is kept. The scan of its ranking selects or faults, and a scan that finds nothing redraws, faulting if a shown label cannot be computed. |
| KeyLoop.AltSelectsFirstLabelled | Switchow/Program.cs:75-101 | Alt+c selects the window at a position exactly when that window is labelled c and every window ranked before it has a computable label other than c. An uncomputable label first faults, and with neither the ranking is redrawn. |
| KeyLoop.TypeThenBackspace | Switchow/Program.cs:62-72 | From a drawn state, typing a character and then Backspace returns to exactly that state. |

## Left out

- Window enumeration is not modelled: `OpenWindowGetter.GetOpenWindows`, `getWindowFilePath` with its `Win32Exception` fallback, and the P/Invoke calls are OS I/O. The open windows are a parameter of `KeyLoop.Session`, and activation is the `Selected` outcome.
- The parallel snapshot (`AsParallel` without `AsOrdered`, lines 35-39) is concurrency, so the code's candidate order can differ from run to run. The model fixes one order, the order of its `open` parameter, with the "Switchow" filter applied. That order decides ties in the ranking, and so slot 0 and the order of the Alt scan.
- The console output of `RefreshDisplay` (colours, text, prompt) is rendering. The model keeps only its label lookups for the shown windows (the fault) and its best-set choice.
- Console input is the key sequence parameter. Keys other than Escape, Oem4, Enter and Backspace are one `Other` kind that appends its character, as the code does for any key.
- The floating-point casts `(int)(n * 1.5)` and `(int)(n * 2.5)` are written as `(n * 3) / 2` and `(n * 5) / 2`. These are equal for the non-negative counts they are applied to.
- `char.ToLower` depends on the culture. The model folds the ASCII letters only.
- A Dafny `char` stands for one UTF-16 code unit, but surrogate halves, which C# strings may hold, cannot be represented. A supplementary character is one Dafny `char` but two UTF-16 units in C#, so it would change lengths, the file-name split and the hash. The model assumes texts without supplementary characters.
- HotkeyHelper/Program.cs (global hotkey registration and process start) is not part of this model.
- The exponential cost of enumerating every alignment is not modelled.
- Shortcut.ShortcutChar: states that a label is an alphabet symbol rather than which one; the index `|h| % 57` is in its body.
- Scoring.ScoreIndexSet: its contract bounds the score rather than giving the formula. Separately proved are the file-name count (`CountUpToCountsPositions`), the run bonus as a sum of per-run truncated values (`OneRunBonus`, `RunBonusAppend`) and its bounds (`RunBonus`), when a bonus is earned (`RunBonusIffAdjacent`), the inert penalty (`PenaltyIsInert`), and the one- and two-element scores (`SplitPointCountsAsFileName`, `TwoElementScore`).
