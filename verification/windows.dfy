/** Candidate windows as the matcher sees them: an executable file name, a
    window title and an opaque OS handle. */
module Windows {

  /** An OS window handle. The matcher only carries it around and hands it
      back for activation; it never looks inside. */
  datatype Handle = Handle(token: int)

  /** The searchable part of a window. */
  datatype Entry = Entry(fileName: string, windowTitle: string) {

    /** The text that queries are matched against: file name, then title. */
    function Text(): string {
      fileName + windowTitle
    }
  }

  datatype WindowInfo = WindowInfo(handle: Handle, entry: Entry)

  /** The matcher never offers itself as a switch target. */
  const SelfName: string := "Switchow"

  /** The candidate list built once at start-up: every open window whose
      owning executable is not the matcher itself. The source builds it with
      an unordered parallel query; here `open` stands for the order that
      query happened to produce, and the list keeps it. */
  function Snapshot(open: seq<WindowInfo>): (ws: seq<WindowInfo>)
    ensures |ws| <= |open|
    ensures forall w :: w in ws ==> w in open && w.entry.fileName != SelfName
    ensures forall w :: w in open && w.entry.fileName != SelfName ==> w in ws
  {
    if |open| == 0 then []
    else
      var rest := Snapshot(open[1..]);
      if open[0].entry.fileName != SelfName then [open[0]] + rest else rest
  }
}
