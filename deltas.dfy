/**
 * Deltas and delta sets, and the three small operations on one delta:
 * shift, cloneDelta and splitDelta (frontend/js/undo.js).
 */
module Deltas {
  import opened Wrappers
  import opened Positions

  datatype Action = Insert | Delete

  /**
   * One insert or delete of the lines between `start` and `end`. `ignore`
   * and `id` are the editor's own marks on the first delta of a set; a
   * delta built by cloneDelta or splitDelta has neither.
   */
  datatype Delta = Delta(action: Action, start: Pos, end: Pos, lines: seq<string>, ignore: bool, id: Option<int>)

  /** A selection annotation. */
  datatype Range = Range(start: Pos, end: Pos)

  /** One undoable user action: its deltas and the selections the editor stored with them. */
  datatype DeltaSet = DeltaSet(deltas: seq<Delta>, selectionBefore: Option<Range>, selectionAfter: Option<Range>)

  /** The span does not run backwards. */
  predicate Ordered(d: Delta) {
    AtOrBefore(d.start, d.end)
  }

  /** A delta whose span is ordered and which holds one line per row it spans. */
  predicate WellFormed(d: Delta) {
    Ordered(d) && |d.lines| == d.end.row - d.start.row + 1
  }

  predicate AllWellFormed(s: seq<Delta>) {
    forall k :: 0 <= k < |s| ==> WellFormed(s[k])
  }

  /** Two deltas that may differ only in their positions. */
  predicate SameContent(x: Delta, y: Delta) {
    x.action == y.action && x.lines == y.lines && x.ignore == y.ignore && x.id == y.id
  }

  predicate SameContents(s: seq<Delta>, t: seq<Delta>) {
    |s| == |t| && forall k :: 0 <= k < |s| ==> SameContent(s[k], t[k])
  }

  /** Both ends of `d` moved past the span from `s` to `e` (shift with a range in place of a delta). */
  function ShiftSpan(d: Delta, s: Pos, e: Pos, dir: int): (r: Delta)
    requires dir == 1 || dir == -1
    ensures SameContent(r, d)
    ensures WellFormed(d) ==> WellFormed(r)
    ensures Ordered(d) ==> Ordered(r)
  {
    ShiftPosMonotoneWeak(d.start, d.end, s, e, dir);
    d.(start := ShiftPos(d.start, s, e, dir), end := ShiftPos(d.end, s, e, dir))
  }

  /** shift(d1, d2, dir): moves d1 past the span of d2. */
  function Shift(d1: Delta, d2: Delta, dir: int): (r: Delta)
    requires dir == 1 || dir == -1
    ensures SameContent(r, d1)
    ensures WellFormed(d1) ==> WellFormed(r)
    ensures Ordered(d1) ==> Ordered(r)
  {
    ShiftSpan(d1, d2.start, d2.end, dir)
  }

  /** Shifting forward and then backward over the same span restores the delta, and the other way round. */
  lemma ShiftInverse(d: Delta, s: Pos, e: Pos)
    ensures ShiftSpan(ShiftSpan(d, s, e, 1), s, e, -1) == d
    ensures ShiftSpan(ShiftSpan(d, s, e, -1), s, e, 1) == d
  {
    ShiftPosInverse(d.start, s, e);
    ShiftPosInverse(d.end, s, e);
  }

  /** cloneDelta: a copy of the span, action and lines only; every other mark is dropped. */
  function CloneDelta(d: Delta): (r: Delta)
    ensures r.action == d.action && r.start == d.start && r.end == d.end && r.lines == d.lines
    ensures !r.ignore && r.id == None
  {
    Delta(d.action, ClonePos(d.start), ClonePos(d.end), d.lines, false, None)
  }

  /** String.prototype.substring(0, n): n is clamped to the string. */
  function Prefix(s: string, n: int): (r: string)
    ensures |r| <= |s|
    ensures 0 <= n <= |s| ==> r == s[..n]
    ensures n < 0 ==> r == ""
    ensures n > |s| ==> r == s
  {
    if n <= 0 then "" else if n >= |s| then s else s[..n]
  }

  /** String.prototype.substr(n): a negative n counts from the end; a large one gives "". */
  function Suffix(s: string, n: int): (r: string)
    ensures |r| <= |s|
    ensures 0 <= n <= |s| ==> r == s[n..]
    ensures n > |s| ==> r == ""
    ensures n < 0 ==> |r| == (if -n < |s| then -n else |s|) && r == s[|s| - |r|..]
  {
    if n < 0 then (if |s| + n <= 0 then s else s[|s| + n..])
    else if n >= |s| then ""
    else s[n..]
  }

  /**
   * splitDelta(c, pos): `c` is cut short to end at `pos` (the first
   * component) and the rest, from `pos` to the old end, is returned as a new
   * delta with the same action (the second component). The row of the cut
   * line is split at its column.
   */
  function SplitDelta(c: Delta, pos: Pos): (r: (Delta, Delta))
    requires c.start.row <= pos.row < c.start.row + |c.lines|
    ensures r.0 == c.(end := pos, lines := r.0.lines)
    ensures r.1 == Delta(c.action, pos, c.end, r.1.lines, false, None)
    ensures |r.0.lines| + |r.1.lines| == |c.lines| + 1
    ensures |r.0.lines| == pos.row - c.start.row + 1
    ensures r.0.lines[..|r.0.lines| - 1] == c.lines[..pos.row - c.start.row]
    ensures r.1.lines[1..] == c.lines[pos.row - c.start.row + 1..]
  {
    var rowsBefore := pos.row - c.start.row;
    var col := if rowsBefore != 0 then pos.column else pos.column - c.start.column;
    var line := c.lines[rowsBefore];
    (c.(end := ClonePos(pos), lines := c.lines[..rowsBefore] + [Prefix(line, col)]),
     Delta(c.action, ClonePos(pos), c.end, [Suffix(line, col)] + c.lines[rowsBefore + 1..], false, None))
  }

  /** The column at which splitDelta cuts the line of `pos`. */
  function SplitColumn(c: Delta, pos: Pos): (col: int) {
    if pos.row != c.start.row then pos.column else pos.column - c.start.column
  }

  /**
   * When the cut column is not negative, the two halves of the cut line
   * join back into it, and the two parts' lines rebuild the original. A
   * column past the end of the line is clamped, so it cuts at the end.
   */
  lemma SplitDeltaLines(c: Delta, pos: Pos)
    requires c.start.row <= pos.row < c.start.row + |c.lines|
    requires 0 <= SplitColumn(c, pos)
    ensures var (head, tail) := SplitDelta(c, pos);
      head.lines[|head.lines| - 1] + tail.lines[0] == c.lines[pos.row - c.start.row] &&
      head.lines[..|head.lines| - 1] + [head.lines[|head.lines| - 1] + tail.lines[0]] + tail.lines[1..] == c.lines
  {
    var k := pos.row - c.start.row;
    var (head, tail) := SplitDelta(c, pos);
    var line := c.lines[k];
    var col := SplitColumn(c, pos);
    if col <= |line| {
      assert head.lines[|head.lines| - 1] == Prefix(line, col) == line[..col];
      assert tail.lines[0] == Suffix(line, col) == line[col..];
      assert line[..col] + line[col..] == line;
    } else {
      assert head.lines[|head.lines| - 1] == Prefix(line, col) == line;
      assert tail.lines[0] == Suffix(line, col) == "";
    }
    assert c.lines == c.lines[..k] + [line] + c.lines[k + 1..];
  }

  /** Splitting a well-formed delta at a point of its span gives two well-formed deltas. */
  lemma SplitDeltaWellFormed(c: Delta, pos: Pos)
    requires WellFormed(c) && AtOrBefore(c.start, pos) && AtOrBefore(pos, c.end)
    ensures c.start.row <= pos.row < c.start.row + |c.lines|
    ensures WellFormed(SplitDelta(c, pos).0) && WellFormed(SplitDelta(c, pos).1)
  {
  }
}
