/** The editor buffer: the list of lines between two sentinel lines, and a
    cursor kept both as a node position (line, char) and as the integer
    coordinates `cursor_x`, `cursor_real_x` and `cursor_y`.
 */
module Buffers {
  import opened Lines

  /** `struct buffer` without its viewport and identity fields.
      `line` stands for `current_line`, as the index of the current line
      among the real lines; `col` stands for `current_char`, as the index of
      the current node within that line. */
  datatype Buffer = Buffer(
    lines: seq<Line>,
    line: nat,
    col: nat,
    cursorX: int,
    cursorRealX: int,
    cursorY: int)

  /** A node of the buffer's line list, sentinels included. */
  datatype Slot = BegSentinel | Real(content: Line) | EndSentinel

  /** Every line ends in its terminal node. */
  predicate AllWellFormed(lines: seq<Line>)
  {
    forall i :: 0 <= i < |lines| ==> WellFormed(lines[i])
  }

  /** The structural invariant: at least one real line, every line ends in
      its terminal node, the cursor stands on a node of a real line, and the
      integer coordinates agree with the node position. */
  predicate Valid(b: Buffer)
  {
    && |b.lines| >= 1
    && AllWellFormed(b.lines)
    && b.line < |b.lines|
    && b.col < |b.lines[b.line]|
    && b.cursorX == b.col
    && b.cursorY == b.line
    && b.cursorRealX >= 0
  }

  function CurrentLine(b: Buffer): (l: Line)
    requires Valid(b)
    ensures WellFormed(l)
  {
    b.lines[b.line]
  }

  /** The node at position `p` of the line list as linked in memory:
      `beg_sentinel` at 0, the real lines in order, `end_sentinel` last.
      A node's `prev_line` is at `p - 1` and its `next_line` at `p + 1`. */
  function SlotAt(b: Buffer, p: nat): (s: Slot)
    requires p < |b.lines| + 2
    ensures s.BegSentinel? <==> p == 0
    ensures s.EndSentinel? <==> p == |b.lines| + 1
  {
    if p == 0 then BegSentinel
    else if p == |b.lines| + 1 then EndSentinel
    else Real(b.lines[p - 1])
  }

  /** Position in the chain of the node `current_line` points to. */
  function CurrentPos(b: Buffer): nat
  {
    b.line + 1
  }

  /** The node `current_line` points to: never a sentinel of a valid buffer. */
  function CurrentSlot(b: Buffer): (s: Slot)
    requires Valid(b)
    ensures 0 < CurrentPos(b) < |b.lines| + 1
    ensures s.Real? && s.content == CurrentLine(b)
  {
    SlotAt(b, CurrentPos(b))
  }

  /** `buffer_first_line`: the node after `beg_sentinel`. */
  function FirstLine(b: Buffer): (s: Slot)
    requires Valid(b)
    ensures s == Real(b.lines[0])
  {
    SlotAt(b, 1)
  }

  /** `buffer_last_line`: the node before `end_sentinel`. */
  function LastLine(b: Buffer): (s: Slot)
    requires Valid(b)
    ensures s == Real(b.lines[|b.lines| - 1])
  {
    SlotAt(b, |b.lines|)
  }

  /** `buffer_bol`: the cursor is on the line's first node. */
  function Bol(b: Buffer): (r: bool)
    requires Valid(b)
    ensures r <==> b.cursorX == 0
  {
    b.col == FirstChar(CurrentLine(b))
  }

  /** `buffer_eol`: the cursor is on the line's last (terminal) node, that
      is, after every glyph of the line. */
  function Eol(b: Buffer): (r: bool)
    requires Valid(b)
    ensures r <==> b.cursorX == |Text(CurrentLine(b))|
    ensures r <==> CurrentLine(b)[b.col] == Terminal
  {
    b.col == LastChar(CurrentLine(b))
  }

  /** `buffer_bob`: the line before the current one is `beg_sentinel`. */
  function Bob(b: Buffer): (r: bool)
    requires Valid(b)
    ensures r <==> b.line == 0
  {
    SlotAt(b, CurrentPos(b) - 1).BegSentinel?
  }

  /** `buffer_eob`: the line after the current one is `end_sentinel`. */
  function Eob(b: Buffer): (r: bool)
    requires Valid(b)
    ensures r <==> b.line == |b.lines| - 1
  {
    SlotAt(b, CurrentPos(b) + 1).EndSentinel?
  }

  /** The current line node lies strictly between the sentinels: its
      position is that of the first real line exactly when `buffer_bob`
      holds, and that of the last real line exactly when `buffer_eob`
      holds. */
  lemma BetweenSentinels(b: Buffer)
    requires Valid(b)
    ensures CurrentSlot(b).Real?
    ensures 1 <= CurrentPos(b) <= |b.lines|
    ensures !SlotAt(b, CurrentPos(b) - 1).EndSentinel?
    ensures !SlotAt(b, CurrentPos(b) + 1).BegSentinel?
    ensures Bob(b) <==> CurrentPos(b) == 1
    ensures Eob(b) <==> CurrentPos(b) == |b.lines|
  {
  }

  /** On the current line, `buffer_bol` and `buffer_eol` hold together
      exactly when `line_node_empty` holds of it. */
  lemma BolAndEolIffEmpty(b: Buffer)
    requires Valid(b)
    ensures Bol(b) && Eol(b) <==> Empty(CurrentLine(b))
  {
  }

  /** `buffer_update_real_x`: the remembered column becomes the cursor's. */
  function UpdateRealX(b: Buffer): (r: Buffer)
    requires Valid(b)
    ensures Valid(r)
    ensures r.cursorRealX == b.cursorX
    ensures r == b.(cursorRealX := r.cursorRealX)
  {
    b.(cursorRealX := b.cursorX)
  }

  /** `buffer_new`: one empty line between the sentinels, cursor at its start. */
  function New(): (b: Buffer)
    ensures Valid(b)
    ensures |b.lines| == 1 && Empty(b.lines[0]) && Text(b.lines[0]) == []
    ensures FirstLine(b) == LastLine(b) == CurrentSlot(b)
    ensures Bol(b) && Eol(b) && Bob(b) && Eob(b)
    ensures b.cursorX == 0 && b.cursorY == 0 && b.cursorRealX == 0
  {
    Buffer([EmptyLine()], 0, 0, 0, 0, 0)
  }
}
