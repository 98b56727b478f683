/** One line of the editor buffer: the `char_node` list of a `line_node`.

    A line is a value, not a heap list.  Its last node is the terminal node
    that `last_char` points to, so the cursor can stand on it to mean
    "end of line", and a line is empty exactly when its first and last node
    coincide.  Every other node holds one atomic glyph.
 */
module Lines {

  /** The `unsigned int` a character node is created from; each value is one
      atomic glyph (its wide-char encoding is not modelled). */
  newtype Code = x: int | 0 <= x < 0x1_0000_0000

  /** A node of a line's character list: a real character, or the terminal
      node that ends every line. */
  datatype Cell = Char(code: Code) | Terminal

  type Line = seq<Cell>

  /** Ends in one terminal node, with only real characters before it. */
  predicate WellFormed(l: Line)
  {
    && |l| >= 1
    && l[|l| - 1] == Terminal
    && forall i :: 0 <= i < |l| - 1 ==> l[i].Char?
  }

  /** Index of the node `first_char` points to. */
  function FirstChar(l: Line): nat
  {
    0
  }

  /** Index of the node `last_char` points to. */
  function LastChar(l: Line): nat
    requires |l| >= 1
  {
    |l| - 1
  }

  /** `line_node_empty`: the first and the last node are the same node. */
  predicate Empty(l: Line)
    requires |l| >= 1
  {
    FirstChar(l) == LastChar(l)
  }

  /** The glyphs of a line, without its terminal node. */
  function Text(l: Line): (t: seq<Code>)
    requires WellFormed(l)
    ensures |t| == |l| - 1
    ensures forall i :: 0 <= i < |t| ==> l[i] == Char(t[i])
  {
    seq(|l| - 1, i requires 0 <= i < |l| - 1 => l[i].code)
  }

  /** The line that holds the given glyphs. */
  function FromText(t: seq<Code>): (l: Line)
    ensures WellFormed(l)
    ensures Text(l) == t
  {
    seq(|t|, i requires 0 <= i < |t| => Char(t[i])) + [Terminal]
  }

  /** A well-formed line is determined by its text. */
  lemma TextInjective(a: Line, b: Line)
    requires WellFormed(a) && WellFormed(b)
    requires Text(a) == Text(b)
    ensures a == b
  {
    assert |a| == |b|;
    forall i | 0 <= i < |a|
      ensures a[i] == b[i]
    {
      if i < |a| - 1 {
        assert a[i] == Char(Text(a)[i]);
      }
    }
  }

  /** `FromText` and `Text` are inverse on well-formed lines. */
  lemma FromTextText(l: Line)
    requires WellFormed(l)
    ensures FromText(Text(l)) == l
  {
    TextInjective(FromText(Text(l)), l);
  }

  /** `line_node_new`: a line that holds only its terminal node. */
  function EmptyLine(): (l: Line)
    ensures WellFormed(l)
    ensures Empty(l)
    ensures Text(l) == []
  {
    [Terminal]
  }

  /** `line_node_empty` holds exactly when the line has no glyph. */
  lemma EmptyIffNoText(l: Line)
    requires WellFormed(l)
    ensures Empty(l) <==> Text(l) == []
  {
  }

  /** A new glyph node linked in front of node `c`. */
  function InsertAt(l: Line, c: nat, ch: Code): (r: Line)
    requires WellFormed(l)
    requires c < |l|
    ensures WellFormed(r)
    ensures |r| == |l| + 1
    ensures Text(r) == Text(l)[..c] + [ch] + Text(l)[c..]
  {
    var r := l[..c] + [Char(ch)] + l[c..];
    assert forall i :: 0 <= i < |r| - 1 ==> r[i].Char? by {
      forall i | 0 <= i < |r| - 1 ensures r[i].Char? {
        if i > c { assert r[i] == l[i - 1]; }
      }
    }
    var t := Text(l)[..c] + [ch] + Text(l)[c..];
    assert Text(r) == t by {
      forall i | 0 <= i < |t| ensures Text(r)[i] == t[i] {
        if i < c {
          assert r[i] == l[i];
        } else if i > c {
          assert r[i] == l[i - 1];
        }
      }
    }
    r
  }

  /** Node `c`, a real glyph, unlinked from the line. */
  function DeleteAt(l: Line, c: nat): (r: Line)
    requires WellFormed(l)
    requires c < |l| - 1
    ensures WellFormed(r)
    ensures |r| == |l| - 1
    ensures Text(r) == Text(l)[..c] + Text(l)[c + 1..]
  {
    var r := l[..c] + l[c + 1..];
    assert forall i :: 0 <= i < |r| - 1 ==> r[i].Char? by {
      forall i | 0 <= i < |r| - 1 ensures r[i].Char? {
        if i >= c { assert r[i] == l[i + 1]; }
      }
    }
    var t := Text(l)[..c] + Text(l)[c + 1..];
    assert Text(r) == t by {
      forall i | 0 <= i < |t| ensures Text(r)[i] == t[i] {
        if i < c {
          assert r[i] == l[i];
        } else {
          assert r[i] == l[i + 1];
        }
      }
    }
    r
  }

  /** The nodes from `c` to the end, terminal included, moved to a line of
      their own; the first part gets a new terminal node. */
  function SplitAt(l: Line, c: nat): (r: (Line, Line))
    requires WellFormed(l)
    requires c < |l|
    ensures WellFormed(r.0) && WellFormed(r.1)
    ensures Text(r.0) == Text(l)[..c]
    ensures Text(r.1) == Text(l)[c..]
    ensures |r.0| == c + 1
  {
    var a := l[..c] + [Terminal];
    var b := l[c..];
    assert Text(a) == Text(l)[..c] by {
      forall i | 0 <= i < c ensures Text(a)[i] == Text(l)[i] {
        assert a[i] == l[i];
      }
    }
    assert Text(b) == Text(l)[c..] by {
      forall i | 0 <= i < |b| - 1 ensures Text(b)[i] == Text(l)[c + i] {
        assert b[i] == l[c + i];
      }
    }
    (a, b)
  }

  /** The nodes of `b` appended after the glyphs of `a`; the terminal node of
      `b` ends the joined line. */
  function Join(a: Line, b: Line): (r: Line)
    requires WellFormed(a) && WellFormed(b)
    ensures WellFormed(r)
    ensures |r| == |a| + |b| - 1
    ensures Text(r) == Text(a) + Text(b)
  {
    var r := a[..|a| - 1] + b;
    assert forall i :: 0 <= i < |r| - 1 ==> r[i].Char? by {
      forall i | 0 <= i < |r| - 1 ensures r[i].Char? {
        if i >= |a| - 1 { assert r[i] == b[i - (|a| - 1)]; }
      }
    }
    var t := Text(a) + Text(b);
    assert Text(r) == t by {
      forall i | 0 <= i < |t| ensures Text(r)[i] == t[i] {
        if i < |a| - 1 {
          assert r[i] == a[i];
        } else {
          assert r[i] == b[i - (|a| - 1)];
        }
      }
    }
    r
  }

  /** Joining the two halves of a split gives the line back. */
  lemma JoinSplit(l: Line, c: nat)
    requires WellFormed(l)
    requires c < |l|
    ensures Join(SplitAt(l, c).0, SplitAt(l, c).1) == l
  {
    var s := SplitAt(l, c);
    assert Text(l)[..c] + Text(l)[c..] == Text(l);
    TextInjective(Join(s.0, s.1), l);
  }

  /** Splitting a joined line where the first one ended gives both back. */
  lemma SplitJoin(a: Line, b: Line)
    requires WellFormed(a) && WellFormed(b)
    ensures SplitAt(Join(a, b), |a| - 1) == (a, b)
  {
    var j := Join(a, b);
    var s := SplitAt(j, |a| - 1);
    assert Text(j)[..|a| - 1] == Text(a);
    assert Text(j)[|a| - 1..] == Text(b);
    TextInjective(s.0, a);
    TextInjective(s.1, b);
  }

  /** Deleting the glyph just inserted gives the line back. */
  lemma DeleteInsert(l: Line, c: nat, ch: Code)
    requires WellFormed(l)
    requires c < |l|
    ensures DeleteAt(InsertAt(l, c, ch), c) == l
  {
    var r := DeleteAt(InsertAt(l, c, ch), c);
    var t := Text(l)[..c] + [ch] + Text(l)[c..];
    assert t[..c] == Text(l)[..c];
    assert t[c + 1..] == Text(l)[c..];
    assert Text(l)[..c] + Text(l)[c..] == Text(l);
    TextInjective(r, l);
  }
}
