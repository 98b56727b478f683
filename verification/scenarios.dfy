/** Small concrete editing sessions and the buffers they leave. */
module Scenarios {
  import opened Lines
  import opened Buffers
  import opened Navigation
  import opened Edit

  const A: Code := 97
  const B: Code := 98
  const C: Code := 99
  const D: Code := 100

  /** Typing "ab" and then "c" on the empty line of a new buffer gives the
      line "abc" with the cursor after the "c". */
  lemma TypeAbc()
    ensures var r := InsertChar(InsertChar(InsertChar(New(), A), B), C);
      Text(CurrentLine(r)) == [A, B, C] && r.cursorX == 3 && Eol(r)
  {
    var r1 := InsertChar(New(), A);
    assert Text(CurrentLine(r1)) == [A];
    var r2 := InsertChar(r1, B);
    assert Text(CurrentLine(r2)) == [A] + [B];
    var r3 := InsertChar(r2, C);
    assert Text(CurrentLine(r3)) == [A, B] + [C];
  }

  /** Splitting "abcd" with the cursor on the "c" gives "ab" and "cd", the
      cursor at the start of "cd"; joining them back from the end of "ab"
      gives "abcd" with the cursor still after "ab". */
  lemma SplitAndJoin()
    ensures var b := Buffer([FromText([A, B, C, D])], 0, 2, 2, 2, 0);
      && Valid(b)
      && var s := SplitLine(b);
      && Text(s.lines[0]) == [A, B] && Text(s.lines[1]) == [C, D]
      && s.line == 1 && Bol(s)
      && var u := MoveY(s, -1).buffer;
      && u.line == 0 && u.cursorX == 2
      && var j := JoinLine(u);
      && |j.lines| == 1 && Text(CurrentLine(j)) == [A, B, C, D] && j.cursorX == 2
  {
    var b := Buffer([FromText([A, B, C, D])], 0, 2, 2, 2, 0);
    var s := SplitLine(b);
    assert [A, B, C, D][..2] == [A, B];
    assert [A, B, C, D][2..] == [C, D];
    var u := MoveY(s, -1).buffer;
    var j := JoinLine(u);
    assert [A, B] + [C, D] == [A, B, C, D];
  }

  /** Deleting the only line of a buffer leaves one empty line. */
  lemma DeleteSoleLine()
    ensures var b := Buffer([FromText([A, B])], 0, 1, 1, 1, 0);
      && Valid(b)
      && var r := DeleteLine(b);
      && |r.lines| == 1 && Text(r.lines[0]) == [] && Bol(r)
  {
  }

  /** With the cursor in column 8 of a ten-glyph line, moving down onto a
      three-glyph line puts it in column 3, and moving back up restores
      column 8. */
  lemma RememberedColumn()
    ensures var long := FromText([A, A, A, A, A, A, A, A, A, A]);
      var short := FromText([B, B, B]);
      var b := Buffer([long, short], 0, 8, 8, 8, 0);
      && Valid(b)
      && var down := MoveY(b, 1).buffer;
      && down.cursorY == 1 && down.cursorX == 3 && down.cursorRealX == 8
      && var up := MoveY(down, -1).buffer;
      && up.cursorY == 0 && up.cursorX == 8 && up == b
  {
    var long := FromText([A, A, A, A, A, A, A, A, A, A]);
    var short := FromText([B, B, B]);
    var b := Buffer([long, short], 0, 8, 8, 8, 0);
    MoveYBack(b, 1);
  }

  /** On the two-glyph line "ab" above an empty line, with the cursor at
      the start, `buffer_move_y_bottom` as written stays on the first line
      and sets the remembered column to 2; the intended macro goes to the
      last line and keeps the remembered column 0. */
  lemma MoveYBottomOnTwoLines(b: Buffer)
    requires b == Buffer([FromText([A, B]), EmptyLine()], 0, 0, 0, 0, 0)
    ensures Valid(b)
    ensures var w := MoveYBottomAsWritten(b);
      w.line == 0 && w.cursorRealX == 2
    ensures var c := MoveYBottom(b);
      c.line == 1 && c.cursorRealX == 0
  {
    assert |Text(b.lines[0])| == 2;
  }
}
