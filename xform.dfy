/**
 * xform (frontend/js/undo.js): a delta `x` queued on the redo stack is
 * rebased over a delta `c` that was applied to the document meanwhile.
 * Both are moved as needed; a queued delete that overlaps an applied delete
 * loses the overlapping part and may fall into two pieces.
 */
module Transform {
  import opened Positions
  import opened Deltas

  /**
   * The result of xform(x, c): `applied` is c as it stands afterwards (the
   * source's first element) and `redo` the deltas, in order, that take x's
   * place in its set: x itself (moved), its surviving pieces, or nothing.
   */
  datatype Xformed = Xformed(applied: Delta, redo: seq<Delta>)

  /** The spans of two deletes overlap: the case in which xform cuts x. */
  predicate Overlap(x: Delta, c: Delta) {
    Before(c.start, x.end) && Before(x.start, c.end)
  }

  /**
   * The overlapping delete/delete case. The piece of x before c.start (when
   * there is one) is x itself, cut short; the piece after c.end (when there
   * is one) is split off the rest. c's end is pulled back past the part of x
   * that lies inside c. When only the piece after c remains, x itself takes
   * that piece's span and lines, keeping its own marks.
   */
  function DeleteOverlap(x: Delta, c: Delta): (r: Xformed)
    requires WellFormed(x) && Ordered(c) && Overlap(x, c)
    ensures SameContent(r.applied, c) && Ordered(r.applied)
    ensures |r.redo| <= 2
    ensures forall k :: 0 <= k < |r.redo| ==> WellFormed(r.redo[k]) && r.redo[k].action == x.action
  {
    var hasBefore := Before(x.start, c.start);
    var (before, mid) :=
      if hasBefore then (SplitDeltaWellFormed(x, c.start); SplitDelta(x, c.start)) else (x, x);
    var hasAfter := Before(c.end, mid.end);
    var (inside, after) :=
      if hasAfter then (SplitDeltaWellFormed(mid, c.end); SplitDelta(mid, c.end)) else (mid, mid);
    var end := ShiftPos(c.end, inside.start, inside.end, -1);
    var applied := c.(end := end);
    var rest := if hasBefore then after else x.(start := after.start, end := after.end, lines := after.lines);
    ShiftPosBackwardPastStart(c.end, inside.start, inside.end);
    ShiftPosEndpoints(inside.start, inside.end);
    Xformed(applied, (if hasBefore then [before] else []) + (if hasAfter then [rest] else []))
  }

  /** An overlapping delete keeps one piece for each end of x that lies outside c. */
  lemma DeleteOverlapPieces(x: Delta, c: Delta)
    requires WellFormed(x) && Ordered(c) && Overlap(x, c)
    ensures |DeleteOverlap(x, c).redo| ==
      (if Before(x.start, c.start) then 1 else 0) + (if Before(c.end, x.end) then 1 else 0)
  {
    hide ShiftPos, SplitDelta, Shift, ShiftSpan;
  }

  /**
   * xform(x, c) for a queued delta x and an applied delta c, by the four
   * action pairs of the source. Outside the overlapping delete/delete case
   * x is kept as the one delta that replaces it. Each cmp test of the source
   * is written as the order it stands for (see Cmp).
   */
  function Xform(x: Delta, c: Delta): (r: Xformed)
    requires WellFormed(x) && Ordered(c)
    ensures SameContent(r.applied, c) && Ordered(r.applied)
    ensures |r.redo| <= 2
    ensures forall k :: 0 <= k < |r.redo| ==> WellFormed(r.redo[k]) && r.redo[k].action == x.action
    ensures |r.redo| != 1 ==> x.action == Delete && c.action == Delete && Overlap(x, c)
    ensures !(x.action == Delete && c.action == Delete && Overlap(x, c)) ==> |r.redo| == 1 && SameContent(r.redo[0], x)
  {
    var i1 := x.action == Insert;
    var i2 := c.action == Insert;
    if i1 && i2 then
      if Before(x.start, c.start) then Xformed(Shift(c, x, 1), [x])
      else Xformed(c, [Shift(x, c, 1)])
    else if i1 && !i2 then
      if AtOrBefore(c.end, x.start) then Xformed(c, [Shift(x, c, -1)])
      else if AtOrBefore(x.start, c.start) then Xformed(Shift(c, x, 1), [x])
      else
        var x' := ShiftSpan(x, c.start, x.start, -1);
        Xformed(Shift(c, x', 1), [x'])
    else if !i1 && i2 then
      if AtOrBefore(x.end, c.start) then Xformed(Shift(c, x, -1), [x])
      else if AtOrBefore(c.start, x.start) then Xformed(c, [Shift(x, c, 1)])
      else
        var c' := ShiftSpan(c, x.start, c.start, -1);
        Xformed(c', [Shift(x, c', 1)])
    else
      if AtOrBefore(x.end, c.start) then Xformed(Shift(c, x, -1), [x])
      else if AtOrBefore(c.end, x.start) then Xformed(c, [Shift(x, c, -1)])
      else DeleteOverlap(x, c)
  }

  /**
   * x disappears from its set exactly when both are deletes, the spans
   * overlap and c's span covers x's.
   */
  lemma XformDropsIff(x: Delta, c: Delta)
    requires WellFormed(x) && Ordered(c)
    ensures |Xform(x, c).redo| == 0 <==>
      x.action == Delete && c.action == Delete &&
      Overlap(x, c) && AtOrBefore(c.start, x.start) && AtOrBefore(x.end, c.end)
  {
    hide DeleteOverlap, Shift, ShiftSpan, ShiftPos;
    if x.action == Delete && c.action == Delete && Overlap(x, c) {
      DeleteOverlapPieces(x, c);
    }
  }

  /**
   * x falls into two pieces exactly when both are deletes and c's span lies
   * strictly inside x's.
   */
  lemma XformSplitsIff(x: Delta, c: Delta)
    requires WellFormed(x) && Ordered(c)
    ensures |Xform(x, c).redo| == 2 <==>
      x.action == Delete && c.action == Delete && Before(x.start, c.start) && Before(c.end, x.end)
  {
    hide DeleteOverlap, Shift, ShiftSpan, ShiftPos;
    if x.action == Delete && c.action == Delete && Overlap(x, c) {
      DeleteOverlapPieces(x, c);
    }
  }

  /**
   * The pieces of an overlapped delete are the parts of x outside c: the
   * first (if x starts before c) runs from x's start to c's start and keeps
   * x's marks, the last (if x ends after c) runs from c's end to x's end.
   */
  lemma XformPiecesOutsideApplied(x: Delta, c: Delta)
    requires WellFormed(x) && Ordered(c)
    requires x.action == Delete && c.action == Delete && Overlap(x, c)
    ensures var redo := Xform(x, c).redo;
      forall k :: 0 <= k < |redo| ==>
        (redo[k].start == x.start && redo[k].end == c.start && Before(x.start, c.start) &&
         redo[k].ignore == x.ignore && redo[k].id == x.id) ||
        (redo[k].start == c.end && redo[k].end == x.end && Before(c.end, x.end))
  {
  }

  /**
   * Two inserts: the one that starts later is moved forward past the other,
   * which is left as it was (a tie moves x).
   */
  lemma XformInserts(x: Delta, c: Delta)
    requires WellFormed(x) && Ordered(c)
    requires x.action == Insert && c.action == Insert
    ensures Before(x.start, c.start) ==> Xform(x, c) == Xformed(Shift(c, x, 1), [x])
    ensures AtOrBefore(c.start, x.start) ==> Xform(x, c) == Xformed(c, [Shift(x, c, 1)])
  {
  }

  /**
   * An applied insert that starts on an earlier row than a queued insert
   * pushes the queued insert down by the number of line breaks it inserted
   * and leaves its columns alone.
   */
  lemma XformInsertAbove(x: Delta, c: Delta)
    requires WellFormed(x) && Ordered(c)
    requires x.action == Insert && c.action == Insert
    requires c.start.row < x.start.row
    ensures var height := c.end.row - c.start.row;
      Xform(x, c).redo == [x.(start := Pos(x.start.row + height, x.start.column),
                               end := Pos(x.end.row + height, x.end.column))]
  {
  }
}
