/** Cursor movement: `buffer_move_x`, `buffer_move_y` and the loop macros
    built on them.  A move of `d` is `|d|` single steps that stop at the
    first boundary; the result carries the number of steps taken.
 */
module Navigation {
  import opened Lines
  import opened Buffers

  function Abs(d: int): nat
  {
    if d < 0 then -d else d
  }

  function Min(a: int, b: int): int
  {
    if a <= b then a else b
  }

  /** The buffer after a move, and the number of steps the cursor moved. */
  datatype Moved = Moved(buffer: Buffer, steps: nat)

  /** One step to the next node of the line. */
  function Right(b: Buffer): (r: Buffer)
    requires Valid(b) && !Eol(b)
    ensures Valid(r)
  {
    b.(col := b.col + 1, cursorX := b.cursorX + 1)
  }

  /** One step to the previous node of the line. */
  function Left(b: Buffer): (r: Buffer)
    requires Valid(b) && !Bol(b)
    ensures Valid(r)
  {
    b.(col := b.col - 1, cursorX := b.cursorX - 1)
  }

  /** `buffer_move_x`: up to `|dx|` steps right (`dx > 0`) or left
      (`dx < 0`) within the current line, then `buffer_update_real_x`. */
  function MoveX(b: Buffer, dx: int): (m: Moved)
    requires Valid(b)
    ensures Valid(m.buffer)
    ensures m.steps <= Abs(dx)
    ensures m.buffer.lines == b.lines && m.buffer.line == b.line
    ensures dx >= 0 ==> m.steps == Min(dx, |Text(CurrentLine(b))| - b.col)
    ensures dx >= 0 ==> m.buffer.cursorX == b.cursorX + m.steps
    ensures dx < 0 ==> m.steps == Min(-dx, b.col)
    ensures dx < 0 ==> m.buffer.cursorX == b.cursorX - m.steps
    ensures m.buffer.cursorRealX == m.buffer.cursorX
    decreases Abs(dx)
  {
    if dx == 0 then
      Moved(UpdateRealX(b), 0)
    else if dx > 0 then
      if Eol(b) then Moved(UpdateRealX(b), 0)
      else
        var m := MoveX(Right(b), dx - 1);
        Moved(m.buffer, m.steps + 1)
    else
      if Bol(b) then Moved(UpdateRealX(b), 0)
      else
        var m := MoveX(Left(b), dx + 1);
        Moved(m.buffer, m.steps + 1)
  }

  /** The cursor on line `l` at the column nearest the remembered one. */
  function Onto(b: Buffer, l: nat): (r: Buffer)
    requires Valid(b) && l < |b.lines|
    ensures Valid(r)
    ensures r.line == l && r.cursorY == l
    ensures r.lines == b.lines && r.cursorRealX == b.cursorRealX
    ensures r.cursorX == Min(b.cursorRealX, |Text(b.lines[l])|)
  {
    var c := Min(b.cursorRealX, |b.lines[l]| - 1);
    b.(line := l, col := c, cursorX := c, cursorY := l)
  }

  /** Up to `n` steps down, each landing on the remembered column clamped
      to the new line. */
  function Down(b: Buffer, n: nat): (m: Moved)
    requires Valid(b)
    ensures Valid(m.buffer)
    ensures m.buffer.lines == b.lines
    ensures m.buffer.cursorRealX == b.cursorRealX
    ensures m.steps == Min(n, |b.lines| - 1 - b.line)
    ensures m.buffer.line == b.line + m.steps
    ensures m.steps == 0 ==> m.buffer == b
    ensures m.steps > 0 ==>
      m.buffer.cursorX == Min(b.cursorRealX, |Text(CurrentLine(m.buffer))|)
    decreases n
  {
    if n == 0 || Eob(b) then Moved(b, 0)
    else
      var m := Down(Onto(b, b.line + 1), n - 1);
      Moved(m.buffer, m.steps + 1)
  }

  /** Up to `n` steps up, each landing on the remembered column clamped to
      the new line. */
  function Up(b: Buffer, n: nat): (m: Moved)
    requires Valid(b)
    ensures Valid(m.buffer)
    ensures m.buffer.lines == b.lines
    ensures m.buffer.cursorRealX == b.cursorRealX
    ensures m.steps == Min(n, b.line)
    ensures m.buffer.line == b.line - m.steps
    ensures m.steps == 0 ==> m.buffer == b
    ensures m.steps > 0 ==>
      m.buffer.cursorX == Min(b.cursorRealX, |Text(CurrentLine(m.buffer))|)
    decreases n
  {
    if n == 0 || Bob(b) then Moved(b, 0)
    else
      var m := Up(Onto(b, b.line - 1), n - 1);
      Moved(m.buffer, m.steps + 1)
  }

  /** `buffer_move_y`: up to `|dy|` steps down (`dy > 0`) or up (`dy < 0`),
      stopping at the first or last line.  The cursor lands on the
      remembered column clamped to the line it reaches, and the remembered
      column itself is left as it was. */
  function MoveY(b: Buffer, dy: int): (m: Moved)
    requires Valid(b)
    ensures Valid(m.buffer)
    ensures m.steps <= Abs(dy)
    ensures m.buffer.lines == b.lines
    ensures m.buffer.cursorRealX == b.cursorRealX
    ensures dy >= 0 ==> m.steps == Min(dy, |b.lines| - 1 - b.line)
    ensures dy >= 0 ==> m.buffer.cursorY == b.cursorY + m.steps
    ensures dy < 0 ==> m.steps == Min(-dy, b.line)
    ensures dy < 0 ==> m.buffer.cursorY == b.cursorY - m.steps
    ensures m.steps == 0 ==> m.buffer == b
    ensures m.steps > 0 ==>
      m.buffer.cursorX == Min(b.cursorRealX, |Text(CurrentLine(m.buffer))|)
  {
    if dy >= 0 then Down(b, dy) else Up(b, -dy)
  }

  /** `buffer_move_x_end`: `buffer_move_x(b, 1)` until it moves no more. */
  function MoveXEnd(b: Buffer): (r: Buffer)
    requires Valid(b)
    ensures Valid(r) && Eol(r)
    ensures r.lines == b.lines && r.line == b.line
    ensures r.cursorRealX == r.cursorX
    decreases |CurrentLine(b)| - b.col
  {
    var m := MoveX(b, 1);
    if m.steps == 0 then m.buffer else MoveXEnd(m.buffer)
  }

  /** `buffer_move_x_home`: `buffer_move_x(b, -1)` until it moves no more. */
  function MoveXHome(b: Buffer): (r: Buffer)
    requires Valid(b)
    ensures Valid(r) && Bol(r)
    ensures r.lines == b.lines && r.line == b.line
    ensures r.cursorRealX == 0
    decreases b.col
  {
    var m := MoveX(b, -1);
    if m.steps == 0 then m.buffer else MoveXHome(m.buffer)
  }

  /** `buffer_move_y_top`: `buffer_move_y(b, -1)` until it moves no more. */
  function MoveYTop(b: Buffer): (r: Buffer)
    requires Valid(b)
    ensures Valid(r) && Bob(r)
    ensures r.lines == b.lines && r.cursorRealX == b.cursorRealX
    ensures Bob(b) ==> r == b
    ensures !Bob(b) ==> r.cursorX == Min(b.cursorRealX, |Text(b.lines[0])|)
    decreases b.line
  {
    var m := MoveY(b, -1);
    if m.steps == 0 then m.buffer else MoveYTop(m.buffer)
  }

  /** `buffer_move_y_bottom` as the macro is written: it repeats
      `buffer_move_x(b, 1)`, so it is `buffer_move_x_end`.  It reaches the
      end of the current line, never leaves that line, and overwrites the
      remembered column with the line's length. */
  function MoveYBottomAsWritten(b: Buffer): (r: Buffer)
    requires Valid(b)
    ensures r == MoveXEnd(b)
    ensures Valid(r) && Eol(r)
    ensures r.lines == b.lines && r.line == b.line
    ensures !Eob(b) ==> !Eob(r)
    ensures r.cursorRealX == |Text(CurrentLine(b))|
    decreases |CurrentLine(b)| - b.col
  {
    var m := MoveX(b, 1);
    if m.steps == 0 then m.buffer else MoveYBottomAsWritten(m.buffer)
  }

  /** `buffer_move_y_bottom` as its name and its sibling `buffer_move_y_top`
      intend: `buffer_move_y(b, 1)` until it moves no more. */
  function MoveYBottom(b: Buffer): (r: Buffer)
    requires Valid(b)
    ensures Valid(r) && Eob(r)
    ensures r.lines == b.lines && r.cursorRealX == b.cursorRealX
    ensures Eob(b) ==> r == b
    ensures !Eob(b) ==>
      r.cursorX == Min(b.cursorRealX, |Text(b.lines[|b.lines| - 1])|)
    decreases |b.lines| - b.line
  {
    var m := MoveY(b, 1);
    if m.steps == 0 then m.buffer else MoveYBottom(m.buffer)
  }

  /** From any line but the last, the macro as written stays off the last
      line while the intended macro reaches it; and unless the remembered
      column already equals the line's length, the two also leave different
      remembered columns. */
  lemma MoveYBottomAsWrittenMissesLastLine(b: Buffer)
    requires Valid(b) && !Eob(b)
    ensures !Eob(MoveYBottomAsWritten(b)) && Eob(MoveYBottom(b))
    ensures b.cursorRealX != |Text(CurrentLine(b))| ==>
      MoveYBottomAsWritten(b).cursorRealX != MoveYBottom(b).cursorRealX
  {
  }

  /** Moving back by the steps a horizontal move took restores the cursor;
      the remembered column is then the cursor's column. */
  lemma MoveXBack(b: Buffer, dx: int)
    requires Valid(b)
    ensures var m := MoveX(b, dx);
      MoveX(m.buffer, if dx >= 0 then -(m.steps as int) else m.steps).buffer
        == UpdateRealX(b)
  {
  }

  /** When the remembered column is the cursor's column, moving down or up
      and then back by the steps taken restores the buffer exactly, even
      when the line passed through is shorter. */
  lemma MoveYBack(b: Buffer, dy: int)
    requires Valid(b)
    requires b.cursorRealX == b.cursorX
    ensures var m := MoveY(b, dy);
      MoveY(m.buffer, if dy >= 0 then -(m.steps as int) else m.steps).buffer == b
  {
    var m := MoveY(b, dy);
    var back := MoveY(m.buffer, if dy >= 0 then -(m.steps as int) else m.steps);
    if m.steps > 0 {
      assert back.buffer.line == b.line;
      assert back.buffer.col == b.col;
    }
  }

  /** The loop macro `buffer_move_x_end` lands where one long enough move
      to the right lands. */
  lemma MoveXEndIsLongMove(b: Buffer)
    requires Valid(b)
    ensures MoveXEnd(b) == MoveX(b, |CurrentLine(b)|).buffer
  {
  }

  /** The loop macro `buffer_move_y_top` lands where one long enough move
      up lands. */
  lemma MoveYTopIsLongMove(b: Buffer)
    requires Valid(b)
    ensures MoveYTop(b) == MoveY(b, -|b.lines|).buffer
  {
  }
}
