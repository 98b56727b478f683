# Text buffer of the `ced` editor, modelled in Dafny

`ced` keeps each open file in a `struct buffer` (declared in `buffer.h`). The
lines form a doubly-linked list between two sentinel lines, `beg_sentinel`
and `end_sentinel`. Each line holds a doubly-linked list of character nodes
from `first_char` to `last_char`. A cursor points at one line node and one
character node, and the buffer also keeps the integer coordinates
`cursor_x`, `cursor_y` and the remembered column `cursor_real_x`.

This project models that buffer as immutable values and its operations as
pure functions. The model is built from the contracts that `buffer.h`
states in its macros and comments. The C implementation (`buffer.c`) is not
part of this model.

- **Lines** (`lines.dfy`). A line is a sequence of cells. The last cell is
  the terminal node that `last_char` points to, and every other cell holds
  one glyph. This follows the header's macros. `line_node_empty` is
  `first_char == last_char`, so an empty line still has one node.
  `buffer_eol` is "the cursor is on `last_char`", so the end-of-line
  position is a node of its own. Character index 0 is the beginning of the
  line, index `|line| - 1` is the end, and a line is empty when it has
  length 1.
- **Buffers** (`buffer.dfy`). A `Buffer` holds the real lines, the cursor
  as a (line, node) index pair, and `cursorX`, `cursorRealX` and `cursorY`.
  `SlotAt` gives the line list as it is linked in memory, sentinels
  included, so the `buffer_first_line`, `buffer_last_line`, `buffer_bob`
  and `buffer_eob` macros are written against the sentinels as the header
  writes them. `Valid` is the structural invariant: there is at least one
  real line, every line ends in its terminal node, the cursor is on a node
  of a real line, and the integer coordinates agree with the node
  position. Every operation preserves `Valid`.
- **Navigation** (`navigation.dfy`). `buffer_move_x` and `buffer_move_y`
  are modelled as repeated single steps that stop at the first boundary,
  and each returns the number of steps taken. The loop macros are
  "repeat until the move returns 0".
- **Edit** (`edit.dfy`). Insert and delete a character, delete a line,
  split a line and join two lines. These are related by undo lemmas.
- **Session** (`session.dfy`). An arbitrary sequence of operations, and the
  invariants that hold after all of them.
- **Scenarios** (`scenarios.dfy`). Small concrete sessions: typing, split
  and join, deleting the only line, and the remembered column.

Where the header says nothing, the model makes these choices:

- `buffer_insert_char` inserts in front of the cursor's node and then
  advances the cursor, as one step right would. It sets `cursor_real_x` to
  the new `cursor_x`.
- `buffer_delete_char` on the terminal node does nothing, because there is
  no character there.
- `buffer_delete_line` leaves the cursor at the start of its new line.
- `buffer_split_line` leaves the cursor at the start of the new line.
- `buffer_join_line` keeps the cursor's index, and does nothing on the last
  line.
- `buffer_move_x` always ends with `buffer_update_real_x`, even when it
  moved zero steps.
- Only horizontal movement and insertion change `cursor_real_x`. The
  header says it "remains unchanged unless we move horizontally".
- `cursor_y` is the row of the current line counted from the first line,
  because the scroll offset is not modelled.

## Model

| member | source | states |
|---|---|---|
| Lines.EmptyLine | buffer.h:57-63 | a new line holds only its terminal node: it is well formed, `line_node_empty` holds, and it has no glyph |
| Lines.EmptyIffNoText | buffer.h:57 | `first_char == last_char` holds exactly when the line has no glyph |
| Lines.InsertAt | buffer.h:77-78 | inserting a glyph before node `c` keeps the line well formed and its text becomes the text before `c`, the glyph, then the text from `c` |
| Lines.DeleteAt | buffer.h:80-81 | unlinking glyph node `c` keeps the line well formed and removes exactly the glyph at `c` from its text |
| Lines.SplitAt | buffer.h:88-89 | splitting at node `c` gives two well-formed lines: the text before `c`, and the text from `c` to the end |
| Lines.Join | buffer.h:91-92 | joining two lines gives a well-formed line whose text is the first text followed by the second |
| Lines.JoinSplit | buffer.h:88-92 | joining the two halves of a split gives the original line back |
| Lines.SplitJoin | buffer.h:88-92 | splitting a joined line where the first line ended gives both lines back |
| Lines.DeleteInsert | buffer.h:77-81 | deleting the glyph that was just inserted gives the original line back |
| Buffers.SlotAt | buffer.h:29-31 | position 0 of the line list is `beg_sentinel`, the last position is `end_sentinel`, and no other position is a sentinel |
| Buffers.CurrentSlot | buffer.h:32-33 | in a valid buffer, `current_line` points to a real line strictly between the sentinels, namely the cursor's line |
| Buffers.FirstLine | buffer.h:43 | the node after `beg_sentinel` is the first real line |
| Buffers.LastLine | buffer.h:44 | the node before `end_sentinel` is the last real line |
| Buffers.Bol | buffer.h:46 | the cursor is on `first_char` exactly when `cursor_x` is 0 |
| Buffers.Eol | buffer.h:47 | the cursor is on `last_char` exactly when it is the terminal node and `cursor_x` equals the number of glyphs in the line |
| Buffers.Bob | buffer.h:48 | the line before the current one is `beg_sentinel` exactly when the cursor is on the first line |
| Buffers.Eob | buffer.h:49 | the line after the current one is `end_sentinel` exactly when the cursor is on the last line |
| Buffers.BetweenSentinels | buffer.h:43-49 | the current line is real and its position lies strictly between the sentinels; its neighbours are not the wrong sentinel; `buffer_bob` holds exactly when it sits at the first line's position, right after `beg_sentinel`, and `buffer_eob` exactly when it sits at the last line's position, right before `end_sentinel` |
| Buffers.BolAndEolIffEmpty | buffer.h:46-57 | the cursor is both at beginning and at end of line exactly when the current line is empty |
| Buffers.UpdateRealX | buffer.h:55 | `buffer_update_real_x` sets the remembered column to `cursor_x` and changes nothing else |
| Buffers.New | buffer.h:68-69 | a new buffer is valid and has one empty line that is both the first and the last line; the cursor is at beginning and end of line on the first and last line, and every cursor field is 0 |
| Navigation.MoveX | buffer.h:94-96 | moves at most `abs(dx)` steps, exactly `min(dx, nodes to the right)` steps right or `min(-dx, nodes to the left)` steps left, returns that count, stays on the same line, and then sets the remembered column to `cursor_x` |
| Navigation.Down | buffer.h:98-100 | moves exactly `min(n, lines below)` lines down, keeps the text and the remembered column, and lands on the remembered column clamped to the new line |
| Navigation.Up | buffer.h:98-100 | moves exactly `min(n, lines above)` lines up, keeps the text and the remembered column, and lands on the remembered column clamped to the new line |
| Navigation.Onto | buffer.h:24-27 | moving onto another line puts the cursor at the remembered column, or at the line's end when the line is shorter, and leaves the remembered column unchanged |
| Navigation.MoveY | buffer.h:98-100 | moves at most `abs(dy)` lines, clamped at the first and last line, and returns the count; the cursor lands on the remembered column clamped to the new line; text and remembered column are unchanged; no move means no change |
| Navigation.MoveXEnd | buffer.h:51 | repeating `buffer_move_x(b, 1)` until it returns 0 ends at end of line on the same line, with the remembered column synced |
| Navigation.MoveXHome | buffer.h:52 | repeating `buffer_move_x(b, -1)` until it returns 0 ends at beginning of line on the same line, with the remembered column 0 |
| Navigation.MoveYTop | buffer.h:54 | repeating `buffer_move_y(b, -1)` until it returns 0 ends on the first line at the clamped remembered column, and the remembered column is unchanged |
| Navigation.MoveYBottomAsWritten | buffer.h:53 | the macro as written is exactly `buffer_move_x_end`: it ends at end of the current line, never reaches the last line from another line, and overwrites the remembered column with the line's length |
| Navigation.MoveYBottom | buffer.h:53-54 | the intended macro ends on the last line at the clamped remembered column, and the remembered column is unchanged |
| Navigation.MoveYBottomAsWrittenMissesLastLine | buffer.h:53 | from any line but the last, the macro as written stays off the last line while the corrected one reaches it; unless the remembered column already equals the line's length, the two also leave different remembered columns |
| Navigation.MoveXBack | buffer.h:94-96 | moving back by the number of steps a horizontal move returned brings the cursor back to where it started |
| Navigation.MoveYBack | buffer.h:24-27 | when the remembered column equals `cursor_x`, moving vertically and then back by the returned count gives back the same buffer, even when the move passed over a shorter line |
| Navigation.MoveXEndIsLongMove | buffer.h:51 | the end-of-line loop lands where one move right by the line's length lands |
| Navigation.MoveYTopIsLongMove | buffer.h:54 | the top-of-buffer loop lands where one move up by the number of lines lands |
| Edit.InsertChar | buffer.h:77-78 | the glyph is inserted in front of the cursor, the cursor ends just after it with the remembered column synced, and every other line is unchanged |
| Edit.DeleteChar | buffer.h:80-81 | exactly the glyph under the cursor is removed, and the cursor index, the remembered column and every other line are unchanged; at end of line nothing changes |
| Edit.DeleteLine | buffer.h:83-86 | on a one-line buffer the result is one empty line; otherwise the current line is removed, the cursor goes to the line that followed or, after deleting the last line, to the line above, and ends at beginning of line |
| Edit.SplitLine | buffer.h:88-89 | one more line; the text from the cursor to the end becomes the line directly below; the two lines together give the original text; other lines are unchanged and the cursor is at the start of the new line |
| Edit.JoinLine | buffer.h:91-92 | one less line; the current line becomes its old text followed by the next line's text; the other lines and the cursor are unchanged; on the last line nothing changes |
| Edit.DeleteUndoesInsert | buffer.h:77-81 | inserting a glyph, stepping left and deleting gives back the original buffer, with the remembered column synced to the cursor |
| Edit.JoinUndoesSplit | buffer.h:88-92 | splitting a line, moving up and joining gives back the original lines |
| Edit.SplitUndoesJoinAtEol | buffer.h:88-92 | joining at end of line and then splitting at the unmoved cursor gives back the original lines |
| Session.Apply | buffer.h:77-100 | every operation keeps the buffer valid; only horizontal moves and insertion change the remembered column; moves never change the text |
| Session.Run | buffer.h:77-100 | any sequence of operations keeps the buffer valid, and a sequence of moves only leaves the text unchanged |
| Session.NeverOnSentinel | buffer.h:29-49 | after any sequence of operations there is at least one real line, and the current line is a real line whose position lies strictly between the sentinels |
| Session.DeleteLines | buffer.h:83-86 | deleting `n` lines leaves `max(lines - n, 1)` lines, and the last one left is empty once every line has been deleted |
| Scenarios.TypeAbc | buffer.h:77-78 | typing "a", "b" and "c" on a new buffer gives the line "abc" with the cursor at its end |
| Scenarios.SplitAndJoin | buffer.h:88-92 | splitting "abcd" at index 2 gives "ab" and "cd" with the cursor at the start of "cd"; moving up and joining gives "abcd" again with the cursor at index 2 |
| Scenarios.DeleteSoleLine | buffer.h:83-86 | deleting the only line leaves exactly one empty line |
| Scenarios.MoveYBottomOnTwoLines | buffer.h:53 | on "ab" above an empty line, cursor at the start, the macro as written stays on line 1 and sets the remembered column to 2, while the corrected macro reaches line 2 and keeps it at 0 |
| Scenarios.RememberedColumn | buffer.h:24-27 | from column 8 of a ten-glyph line, moving down onto a three-glyph line puts the cursor at column 3, and moving up restores column 8 |

## Left out

- `buffer_read_file` and `buffer_save_file` (buffer.h:102-106) are file I/O, and their implementation is not part of this model.
- `char_node_new`, `line_node_new`, `line_node_free` and `buffer_free` allocate and release memory. Lines are values here, so there is nothing to free. `Lines.EmptyLine` stands for the empty line that `line_node_new` makes.
- `buffer_get_name`, `name` and `memory_buffer` are identity data that no editing operation reads.
- `displacement_x` and `displacement_y` are scroll state used by rendering. Without them, `cursor_y` is the row counted from the first line.
- The `wchar_t elem[2]` encoding is not modelled. A glyph is one `unsigned int` code, and a glyph counts as one column, so display width is left out.
- The `int` fields and the `int` step argument are unbounded integers here. A 32-bit overflow, such as a line longer than `INT_MAX` glyphs or `dx == INT_MIN`, is not modelled.
- Navigation.MoveX: the header returns an `int` and does not say whether the count is signed. The model returns the number of steps as a non-negative count.
- Where the cursor goes after an edit is only partly stated in the header. The choices listed above are this model's, not statements of the source.

## Findings

| source | as written | input that shows it | evidently intended | confidence | as-written member | corrected member |
|---|---|---|---|---|---|---|
| buffer.h:53 | `buffer_move_y_bottom` repeats `buffer_move_x(b, 1)`, so it is `buffer_move_x_end`: it goes to the end of the current line and, through `buffer_update_real_x`, overwrites the remembered column | the line "ab" above an empty line, cursor at the start: the cursor stays on line 1 and the remembered column becomes 2 | repeat `buffer_move_y(b, 1)` to reach the last line, mirroring `buffer_move_y_top` on line 54 | high (not executed) | Navigation.MoveYBottomAsWritten | Navigation.MoveYBottom |
