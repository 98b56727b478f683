/** The edit operations of the buffer: insert and delete a character,
    delete, split and join lines.  Each keeps the buffer `Valid`.
 */
module Edit {
  import opened Lines
  import opened Buffers
  import opened Navigation

  /** Every line other than line `i` is the same in `a` and `b`. */
  predicate OthersUnchanged(a: seq<Line>, b: seq<Line>, i: nat)
  {
    && |a| == |b|
    && forall j :: 0 <= j < |a| && j != i ==> a[j] == b[j]
  }

  /** `buffer_insert_char`: the glyph goes in front of the cursor's node and
      the cursor moves on past it, as one step right would take it. */
  function InsertChar(b: Buffer, ch: Code): (r: Buffer)
    requires Valid(b)
    ensures Valid(r)
    ensures OthersUnchanged(r.lines, b.lines, b.line)
    ensures r.line == b.line
    ensures Text(CurrentLine(r))
      == Text(CurrentLine(b))[..b.col] + [ch] + Text(CurrentLine(b))[b.col..]
    ensures r.cursorX == b.cursorX + 1
    ensures Text(CurrentLine(r))[r.cursorX - 1] == ch
    ensures r.cursorRealX == r.cursorX
  {
    var l := InsertAt(CurrentLine(b), b.col, ch);
    Buffer(b.lines[b.line := l], b.line, b.col + 1, b.cursorX + 1, b.cursorX + 1, b.cursorY)
  }

  /** `buffer_delete_char`: the glyph under the cursor is unlinked and the
      cursor stands on the node that followed it.  On the terminal node
      there is no character to delete and the buffer is unchanged. */
  function DeleteChar(b: Buffer): (r: Buffer)
    requires Valid(b)
    ensures Valid(r)
    ensures Eol(b) ==> r == b
    ensures !Eol(b) ==> OthersUnchanged(r.lines, b.lines, b.line)
    ensures !Eol(b) ==>
      Text(CurrentLine(r)) == Text(CurrentLine(b))[..b.col] + Text(CurrentLine(b))[b.col + 1..]
    ensures r.line == b.line && r.cursorX == b.cursorX
    ensures r.cursorRealX == b.cursorRealX
  {
    if Eol(b) then b
    else
      var l := DeleteAt(CurrentLine(b), b.col);
      b.(lines := b.lines[b.line := l])
  }

  /** `buffer_delete_line`: the only line of the buffer is erased; any
      other line is unlinked, the cursor going to the line that followed
      it, or to the line above when it was the last line.  The cursor ends
      at the start of its line. */
  function DeleteLine(b: Buffer): (r: Buffer)
    requires Valid(b)
    ensures Valid(r)
    ensures Bol(r)
    ensures r.cursorRealX == b.cursorRealX
    ensures |b.lines| == 1 ==> |r.lines| == 1 && Empty(r.lines[0])
    ensures |b.lines| > 1 ==> |r.lines| == |b.lines| - 1
    ensures |b.lines| > 1 ==>
      r.lines == b.lines[..b.line] + b.lines[b.line + 1..]
    ensures |b.lines| > 1 && Eob(b) ==> r.line == b.line - 1
    ensures |b.lines| > 1 && !Eob(b) ==> r.line == b.line
  {
    if |b.lines| == 1 then
      Buffer([EmptyLine()], 0, 0, 0, b.cursorRealX, 0)
    else if Eob(b) then
      var above := b.line - 1;
      Buffer(b.lines[..b.line], above, 0, 0, b.cursorRealX, above)
    else
      Buffer(b.lines[..b.line] + b.lines[b.line + 1..], b.line, 0, 0, b.cursorRealX, b.line)
  }

  /** `buffer_split_line`: the nodes from the cursor to the end of the line
      become a new line just below; the cursor goes to its start. */
  function SplitLine(b: Buffer): (r: Buffer)
    requires Valid(b)
    ensures Valid(r)
    ensures |r.lines| == |b.lines| + 1
    ensures r.lines[..b.line] == b.lines[..b.line]
    ensures r.lines[b.line + 2..] == b.lines[b.line + 1..]
    ensures Text(r.lines[b.line]) == Text(CurrentLine(b))[..b.col]
    ensures Text(r.lines[b.line + 1]) == Text(CurrentLine(b))[b.col..]
    ensures Text(r.lines[b.line]) + Text(r.lines[b.line + 1]) == Text(CurrentLine(b))
    ensures r.line == b.line + 1 && Bol(r)
    ensures r.cursorRealX == b.cursorRealX
  {
    var halves := SplitAt(CurrentLine(b), b.col);
    var lines := b.lines[..b.line] + [halves.0, halves.1] + b.lines[b.line + 1..];
    assert Text(CurrentLine(b))[..b.col] + Text(CurrentLine(b))[b.col..] == Text(CurrentLine(b));
    assert AllWellFormed(lines) by {
      forall i | 0 <= i < |lines| ensures WellFormed(lines[i]) {
        if i > b.line + 1 { assert lines[i] == b.lines[i - 1]; }
      }
    }
    assert lines[b.line + 2..] == b.lines[b.line + 1..];
    Buffer(lines, b.line + 1, 0, 0, b.cursorRealX, b.line + 1)
  }

  /** `buffer_join_line`: the line below is appended to the current line and
      unlinked; the cursor keeps its place.  On the last line there is no
      line below and the buffer is unchanged. */
  function JoinLine(b: Buffer): (r: Buffer)
    requires Valid(b)
    ensures Valid(r)
    ensures Eob(b) ==> r == b
    ensures !Eob(b) ==> |r.lines| == |b.lines| - 1
    ensures !Eob(b) ==> r.lines[..b.line] == b.lines[..b.line]
    ensures !Eob(b) ==> r.lines[b.line + 1..] == b.lines[b.line + 2..]
    ensures !Eob(b) ==>
      Text(CurrentLine(r)) == Text(CurrentLine(b)) + Text(b.lines[b.line + 1])
    ensures r.line == b.line && r.cursorX == b.cursorX
    ensures r.cursorRealX == b.cursorRealX
  {
    if Eob(b) then b
    else
      var joined := Join(CurrentLine(b), b.lines[b.line + 1]);
      var lines := b.lines[..b.line] + [joined] + b.lines[b.line + 2..];
      assert AllWellFormed(lines) by {
        forall i | 0 <= i < |lines| ensures WellFormed(lines[i]) {
          if i > b.line { assert lines[i] == b.lines[i + 1]; }
        }
      }
      assert lines[b.line + 1..] == b.lines[b.line + 2..];
      b.(lines := lines)
  }

  /** Stepping back over an inserted glyph and deleting it gives the buffer
      back, with the remembered column synced to the cursor. */
  lemma DeleteUndoesInsert(b: Buffer, ch: Code)
    requires Valid(b)
    ensures DeleteChar(MoveX(InsertChar(b, ch), -1).buffer) == UpdateRealX(b)
  {
    var i := InsertChar(b, ch);
    var m := MoveX(i, -1).buffer;
    DeleteInsert(CurrentLine(b), b.col, ch);
    assert b.lines[b.line := CurrentLine(b)] == b.lines;
  }

  /** Splitting a line, going back up to its first half and joining gives
      the lines back. */
  lemma JoinUndoesSplit(b: Buffer)
    requires Valid(b)
    ensures JoinLine(MoveY(SplitLine(b), -1).buffer).lines == b.lines
  {
    var s := SplitLine(b);
    var u := MoveY(s, -1).buffer;
    assert u.lines == s.lines && u.line == b.line;
    var j := JoinLine(u);
    TextInjective(CurrentLine(j), CurrentLine(b));
    forall i | 0 <= i < |b.lines|
      ensures j.lines[i] == b.lines[i]
    {
      if i < b.line {
        assert j.lines[i] == j.lines[..b.line][i];
        assert b.lines[i] == b.lines[..b.line][i];
      } else if i > b.line {
        assert j.lines[i] == j.lines[b.line + 1..][i - b.line - 1];
        assert s.lines[i + 1] == s.lines[b.line + 2..][i - b.line - 1];
        assert b.lines[i] == b.lines[b.line + 1..][i - b.line - 1];
      }
    }
  }

  /** Joining at the end of a line and splitting where the cursor stayed
      gives the lines back. */
  lemma SplitUndoesJoinAtEol(b: Buffer)
    requires Valid(b)
    requires Eol(b) && !Eob(b)
    ensures SplitLine(JoinLine(b)).lines == b.lines
  {
    var j := JoinLine(b);
    var s := SplitLine(j);
    SplitJoin(CurrentLine(b), b.lines[b.line + 1]);
    assert j.lines == b.lines[..b.line] + [Join(CurrentLine(b), b.lines[b.line + 1])] + b.lines[b.line + 2..];
    assert s.lines == b.lines[..b.line] + [CurrentLine(b), b.lines[b.line + 1]] + b.lines[b.line + 2..];
    assert b.lines == b.lines[..b.line] + [CurrentLine(b), b.lines[b.line + 1]] + b.lines[b.line + 2..];
  }
}
