/**
 * Points of the document and the shifting of a point past an inserted or
 * removed span (shiftPos in frontend/js/undo.js).
 */
module Positions {

  /** A point of the document: row, then column. */
  datatype Pos = Pos(row: int, column: int)

  /** Strict lexicographic order on points. */
  predicate Before(p: Pos, q: Pos) {
    p.row < q.row || (p.row == q.row && p.column < q.column)
  }

  predicate AtOrBefore(p: Pos, q: Pos) {
    Before(p, q) || p == q
  }

  /**
   * The editor's point comparison: its sign is the lexicographic order of
   * the two points.
   */
  function Cmp(p: Pos, q: Pos): (r: int)
    ensures r < 0 <==> Before(p, q)
    ensures r == 0 <==> p == q
    ensures r > 0 <==> Before(q, p)
  {
    if p.row != q.row then p.row - q.row else p.column - q.column
  }

  /** A point copy; points are values here, so the copy is the point itself. */
  function ClonePos(p: Pos): (r: Pos)
    ensures r.row == p.row && r.column == p.column
  {
    Pos(p.row, p.column)
  }

  /**
   * Moves `pos` past the span from `start` to `end`: forward when `dir` is 1
   * (the span was inserted), backward when it is -1 (the span was removed).
   * The column moves by the span's width only on the row where the span
   * begins (forward) or ends (backward); the row always moves by the span's
   * height. The source multiplies by `dir`; the two signs are written out.
   */
  function ShiftPos(pos: Pos, start: Pos, end: Pos, dir: int): (r: Pos)
    requires dir == 1 || dir == -1
    ensures dir == 1 && pos == start ==> r == end
    ensures dir == -1 && pos == end ==> r == start
    ensures r.row - pos.row == (if dir == 1 then end.row - start.row else start.row - end.row)
    ensures r.column != pos.column ==> pos.row == (if dir == 1 then start.row else end.row)
  {
    var height := end.row - start.row;
    var width := end.column - start.column;
    if dir == 1 then
      Pos(pos.row + height, if pos.row == start.row then pos.column + width else pos.column)
    else
      Pos(pos.row - height, if pos.row == end.row then pos.column - width else pos.column)
  }

  /** What a shift does to each coordinate. */
  lemma ShiftPosCoordinates(pos: Pos, start: Pos, end: Pos, dir: int)
    requires dir == 1 || dir == -1
    ensures ShiftPos(pos, start, end, dir).row == pos.row + dir * (end.row - start.row)
    ensures ShiftPos(pos, start, end, dir).column != pos.column ==>
              pos.row == (if dir == 1 then start.row else end.row)
    ensures pos.row == (if dir == 1 then start.row else end.row) ==>
              ShiftPos(pos, start, end, dir).column == pos.column + dir * (end.column - start.column)
  {
  }

  /** Shifting forward and then backward over the same span restores the point, and the other way round. */
  lemma ShiftPosInverse(pos: Pos, start: Pos, end: Pos)
    ensures ShiftPos(ShiftPos(pos, start, end, 1), start, end, -1) == pos
    ensures ShiftPos(ShiftPos(pos, start, end, -1), start, end, 1) == pos
  {
  }

  /** A shift carries the span's start to its end (forward) and its end to its start (backward). */
  lemma ShiftPosEndpoints(start: Pos, end: Pos)
    ensures ShiftPos(start, start, end, 1) == end
    ensures ShiftPos(end, start, end, -1) == start
  {
  }

  /** A shift keeps the strict order of any two points. */
  lemma ShiftPosMonotone(p: Pos, q: Pos, start: Pos, end: Pos, dir: int)
    requires dir == 1 || dir == -1
    requires Before(p, q)
    ensures Before(ShiftPos(p, start, end, dir), ShiftPos(q, start, end, dir))
  {
  }

  /** Points at or after the span's start land at or after its end when shifted forward. */
  lemma ShiftPosForwardPastEnd(p: Pos, start: Pos, end: Pos)
    requires AtOrBefore(start, p)
    ensures AtOrBefore(end, ShiftPos(p, start, end, 1))
    ensures Before(start, p) ==> Before(end, ShiftPos(p, start, end, 1))
  {
    ShiftPosEndpoints(start, end);
    if Before(start, p) {
      ShiftPosMonotone(start, p, start, end, 1);
    }
  }

  /** Points at or after the span's end land at or after its start when shifted backward. */
  lemma ShiftPosBackwardPastStart(p: Pos, start: Pos, end: Pos)
    requires AtOrBefore(end, p)
    ensures AtOrBefore(start, ShiftPos(p, start, end, -1))
    ensures Before(end, p) ==> Before(start, ShiftPos(p, start, end, -1))
  {
    ShiftPosEndpoints(start, end);
    if Before(end, p) {
      ShiftPosMonotone(end, p, start, end, -1);
    }
  }

  /** A shift keeps the non-strict order of two points. */
  lemma ShiftPosMonotoneWeak(p: Pos, q: Pos, start: Pos, end: Pos, dir: int)
    requires dir == 1 || dir == -1
    ensures AtOrBefore(p, q) ==> AtOrBefore(ShiftPos(p, start, end, dir), ShiftPos(q, start, end, dir))
  {
    if Before(p, q) {
      ShiftPosMonotone(p, q, start, end, dir);
    }
  }
}
