/** Any sequence of buffer operations, as an editing session issues them,
    and the invariants that survive all of them.
 */
module Session {
  import opened Lines
  import opened Buffers
  import N = Navigation
  import E = Edit

  /** One call of a buffer operation. */
  datatype Op =
    | InsertChar(ch: Code)
    | DeleteChar
    | DeleteLine
    | SplitLine
    | JoinLine
    | MoveX(dx: int)
    | MoveY(dy: int)

  function Apply(b: Buffer, op: Op): (r: Buffer)
    requires Valid(b)
    ensures Valid(r)
    ensures !op.MoveX? && !op.InsertChar? ==> r.cursorRealX == b.cursorRealX
    ensures op.MoveX? || op.MoveY? ==> r.lines == b.lines
  {
    match op
    case InsertChar(ch) => E.InsertChar(b, ch)
    case DeleteChar => E.DeleteChar(b)
    case DeleteLine => E.DeleteLine(b)
    case SplitLine => E.SplitLine(b)
    case JoinLine => E.JoinLine(b)
    case MoveX(dx) => N.MoveX(b, dx).buffer
    case MoveY(dy) => N.MoveY(b, dy).buffer
  }

  /** The operations applied one after the other. */
  function Run(b: Buffer, ops: seq<Op>): (r: Buffer)
    requires Valid(b)
    ensures Valid(r)
    ensures (forall i :: 0 <= i < |ops| ==> ops[i].MoveX? || ops[i].MoveY?) ==>
      r.lines == b.lines
    decreases |ops|
  {
    if ops == [] then b else Run(Apply(b, ops[0]), ops[1..])
  }

  /** Whatever a session does to a valid buffer (a new one, say), at least
      one real line is left, and the cursor's line is a real line at a
      position strictly between the two sentinels. */
  lemma NeverOnSentinel(b: Buffer, ops: seq<Op>)
    requires Valid(b)
    ensures var r := Run(b, ops);
      && |r.lines| >= 1
      && CurrentSlot(r).Real?
      && !SlotAt(r, CurrentPos(r) - 1).EndSentinel?
      && !SlotAt(r, CurrentPos(r) + 1).BegSentinel?
      && 1 <= CurrentPos(r) <= |r.lines|
  {
    BetweenSentinels(Run(b, ops));
  }

  /** `buffer_delete_line` called `n` times. */
  function DeleteLines(b: Buffer, n: nat): (r: Buffer)
    requires Valid(b)
    ensures Valid(r)
    ensures |r.lines| == if |b.lines| > n then |b.lines| - n else 1
    ensures n >= |b.lines| ==> Empty(r.lines[0])
    decreases n
  {
    if n == 0 then b else DeleteLines(E.DeleteLine(b), n - 1)
  }
}
