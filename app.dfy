/** The event loop of `main`: draw the table, wait for an event, move the
    selection's anchor on `j`/`k`/`l`/`h`, stop on Esc. Terminal setup,
    the wait itself and the layout of the frame are not modelled: the loop
    is given the outcome of each wait and the area the table is drawn in. */
module App {
  import opened Wrappers
  import opened MachineInts
  import opened Selections
  import opened Table
  import Cells

  datatype KeyCode = Char(c: char) | Esc | OtherKey

  /** A terminal event: a key, with `modified` set when a modifier key or a
      press kind makes it differ from the bare key, or any other event
      (mouse, resize, focus, paste). */
  datatype Event = Key(code: KeyCode, modified: bool) | OtherEvent

  /** `Event::Key(code.into())`: the bare key. */
  function Pressed(code: KeyCode): Event {
    Key(code, false)
  }

  /** The content after one event: `j`/`k` move the anchor one row down/up and
      `l`/`h` one column right/left, with u16 wrap-around; nothing else changes,
      and every other event changes nothing. */
  function ApplyEvent(content: TableContent, event: Event): (next: TableContent)
    ensures next.cells == content.cells
    ensures next.colWidths == content.colWidths && next.rowHeights == content.rowHeights
    ensures next.selection.rows == content.selection.rows && next.selection.cols == content.selection.cols
    ensures event !in {Pressed(Char('j')), Pressed(Char('k'))} ==> next.selection.row == content.selection.row
    ensures event !in {Pressed(Char('l')), Pressed(Char('h'))} ==> next.selection.col == content.selection.col
  {
    var sel := content.selection;
    if event == Pressed(Char('j')) then content.(selection := sel.(row := WrappingAdd16(sel.row, 1)))
    else if event == Pressed(Char('k')) then content.(selection := sel.(row := WrappingSub16(sel.row, 1)))
    else if event == Pressed(Char('l')) then content.(selection := sel.(col := WrappingAdd16(sel.col, 1)))
    else if event == Pressed(Char('h')) then content.(selection := sel.(col := WrappingSub16(sel.col, 1)))
    else content
  }

  /** Away from the u16 edges each movement key moves the anchor by exactly one
      cell; `k`/`h` at 0 wrap round to 65535 and `j`/`l` at 65535 wrap to 0. */
  lemma MoveByOne(content: TableContent)
    ensures var sel := content.selection;
      && (sel.row < U16_LIMIT - 1 ==> ApplyEvent(content, Pressed(Char('j'))).selection.row == sel.row + 1)
      && (sel.row == U16_LIMIT - 1 ==> ApplyEvent(content, Pressed(Char('j'))).selection.row == 0)
      && (sel.row > 0 ==> ApplyEvent(content, Pressed(Char('k'))).selection.row == sel.row - 1)
      && (sel.row == 0 ==> ApplyEvent(content, Pressed(Char('k'))).selection.row == U16_LIMIT - 1)
      && (sel.col < U16_LIMIT - 1 ==> ApplyEvent(content, Pressed(Char('l'))).selection.col == sel.col + 1)
      && (sel.col == U16_LIMIT - 1 ==> ApplyEvent(content, Pressed(Char('l'))).selection.col == 0)
      && (sel.col > 0 ==> ApplyEvent(content, Pressed(Char('h'))).selection.col == sel.col - 1)
      && (sel.col == 0 ==> ApplyEvent(content, Pressed(Char('h'))).selection.col == U16_LIMIT - 1)
  {
  }

  /** `j` and `k` undo each other, and so do `l` and `h`, from every state. */
  lemma MovesUndo(content: TableContent)
    ensures ApplyEvent(ApplyEvent(content, Pressed(Char('j'))), Pressed(Char('k'))) == content
    ensures ApplyEvent(ApplyEvent(content, Pressed(Char('k'))), Pressed(Char('j'))) == content
    ensures ApplyEvent(ApplyEvent(content, Pressed(Char('l'))), Pressed(Char('h'))) == content
    ensures ApplyEvent(ApplyEvent(content, Pressed(Char('h'))), Pressed(Char('l'))) == content
  {
  }

  /** The content `main` starts with: four rows of a text cell and two
      numbers, explicit widths for the first two columns and heights for the
      first two rows, and the selection on the first cell. */
  function InitialContent(): (content: TableContent)
    ensures forall r: uint16, c: uint16 :: Selected(content.selection, r, c) <==> r == 0 && c == 0
  {
    TableContent(
      [ [Cells.String("Value"), Cells.Value(10), Cells.Value(10)],
        [Cells.String("Value"), Cells.Value(20), Cells.Value(10)],
        [Cells.String("Value"), Cells.Value(20), Cells.Value(10)],
        [Cells.String("Value"), Cells.Value(20), Cells.Value(10)] ],
      [10, 5],
      [1, 2],
      Selection(0, 0, 1, 1))
  }

  /** The startup content can be drawn into any area that leaves room for its
      widest column and tallest row below u16::MAX. */
  lemma InitialContentRenders(area: Rect)
    requires area.Right() + 10 <= U16_LIMIT && area.Bottom() + 2 <= U16_LIMIT
    ensures RenderSafe(InitialContent(), area)
  {
  }

  /** Whether a wait ended with a bare Esc. */
  predicate IsEsc(poll: Option<Event>) {
    poll == Some(Pressed(Esc))
  }

  /** The content after a sequence of waits, each of which timed out (`None`)
      or delivered an event. Only the anchor can have moved. */
  function ApplyPolls(content: TableContent, polls: seq<Option<Event>>): (last: TableContent)
    ensures last.cells == content.cells
    ensures last.colWidths == content.colWidths && last.rowHeights == content.rowHeights
    ensures last.selection.rows == content.selection.rows && last.selection.cols == content.selection.cols
    decreases |polls|
  {
    if polls == [] then content
    else
      var before := ApplyPolls(content, polls[..|polls| - 1]);
      match polls[|polls| - 1]
      case None => before
      case Some(event) => ApplyEvent(before, event)
  }

  /** The loop of `main`, run on the outcomes of its waits. Each iteration
      draws a frame of the current content, then handles one wait's outcome.
      The loop stops after the first Esc, or when the outcomes run out; every
      frame shows the content as the events before it left it. The key branches
      are those of `ApplyEvent`, which the loop invariant ties them to. */
  method EventLoop(initial: TableContent, area: Rect, polls: seq<Option<Event>>)
    returns (content: TableContent, frames: seq<seq<Write>>, quit: bool)
    requires RenderSafe(initial, area)
    ensures |frames| <= |polls|
    ensures quit <==> exists k :: 0 <= k < |polls| && IsEsc(polls[k])
    ensures quit ==> |frames| > 0 && IsEsc(polls[|frames| - 1])
    ensures forall k :: 0 <= k < |frames| - 1 ==> !IsEsc(polls[k])
    ensures !quit ==> |frames| == |polls|
    ensures content == ApplyPolls(initial, polls[..|frames|])
    ensures forall k :: 0 <= k < |frames| ==> frames[k] == Layout(ApplyPolls(initial, polls[..k]), area)
  {
    content := initial;
    frames := [];
    quit := false;
    var i := 0;
    while i < |polls| && !quit
      invariant 0 <= i <= |polls| && |frames| == i
      invariant quit ==> i > 0 && IsEsc(polls[i - 1])
      invariant forall k :: 0 <= k < i - 1 ==> !IsEsc(polls[k])
      invariant !quit ==> forall k :: 0 <= k < i ==> !IsEsc(polls[k])
      invariant content == ApplyPolls(initial, polls[..i])
      invariant forall k :: 0 <= k < i ==> frames[k] == Layout(ApplyPolls(initial, polls[..k]), area)
    {
      var frame := Render(content, area);
      frames := frames + [frame];
      if polls[i].Some? {
        var event := polls[i].value;
        if event == Pressed(Char('j')) {
          content := content.(selection := content.selection.(row := WrappingAdd16(content.selection.row, 1)));
        }
        if event == Pressed(Char('k')) {
          content := content.(selection := content.selection.(row := WrappingSub16(content.selection.row, 1)));
        }
        if event == Pressed(Char('l')) {
          content := content.(selection := content.selection.(col := WrappingAdd16(content.selection.col, 1)));
        }
        if event == Pressed(Char('h')) {
          content := content.(selection := content.selection.(col := WrappingSub16(content.selection.col, 1)));
        }
        if event == Pressed(Esc) {
          quit := true;
        }
      }
      assert polls[..i + 1][..i] == polls[..i];
      i := i + 1;
    }
  }
}
