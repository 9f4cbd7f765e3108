/**
 * swap (frontend/js/undo.js): exchanging the order of two adjacent deltas
 * of the undo history, d1 applied before d2.
 */
module Swapping {
  import opened Wrappers
  import opened Positions
  import opened Deltas

  /**
   * The pairs swap refuses: an insert whose start falls strictly inside an
   * earlier insert, a delete that reaches into an earlier insert from inside
   * it, or a delete that straddles the start of an earlier delete. A delete
   * followed by an insert always swaps.
   */
  predicate Blocked(d1: Delta, d2: Delta) {
    match (d1.action, d2.action)
    case (Insert, Insert) => Before(d1.start, d2.start) && Before(d2.start, d1.end)
    case (Insert, Delete) => Before(d2.start, d1.end) && Before(d1.start, d2.end)
    case (Delete, Insert) => false
    case (Delete, Delete) => Before(d2.start, d1.start) && Before(d1.start, d2.end)
  }

  /** `x2` is `x` moved forward or backward past the span of `y`. */
  predicate ShiftedPast(x2: Delta, x: Delta, y: Delta) {
    x2 == Shift(x, y, 1) || x2 == Shift(x, y, -1)
  }

  /**
   * swap(d1, d2): None is the source's null; Some((d2', d1')) is the array
   * [d2, d1] holding the two deltas as they stand after the swap. Exactly
   * one of them is moved past the other's span; nothing else changes. Each
   * test cmp(p, q) >= 0 or cmp(p, q) <= 0 of the source is written as the
   * order it stands for (see Cmp).
   */
  function Swap(d1: Delta, d2: Delta): (r: Option<(Delta, Delta)>)
    ensures r.None? <==> Blocked(d1, d2)
    ensures r.Some? ==> SameContent(r.value.0, d2) && SameContent(r.value.1, d1)
  {
    var i1 := d1.action == Insert;
    var i2 := d2.action == Insert;
    if i1 && i2 then
      if AtOrBefore(d1.end, d2.start) then Some((Shift(d2, d1, -1), d1))
      else if AtOrBefore(d2.start, d1.start) then Some((d2, Shift(d1, d2, 1)))
      else None
    else if i1 && !i2 then
      if AtOrBefore(d1.end, d2.start) then Some((Shift(d2, d1, -1), d1))
      else if AtOrBefore(d2.end, d1.start) then Some((d2, Shift(d1, d2, -1)))
      else None
    else if !i1 && i2 then
      if AtOrBefore(d1.start, d2.start) then Some((Shift(d2, d1, 1), d1))
      else if AtOrBefore(d2.start, d1.start) then Some((d2, Shift(d1, d2, 1)))
      else None
    else
      if AtOrBefore(d1.start, d2.start) then Some((Shift(d2, d1, 1), d1))
      else if AtOrBefore(d2.end, d1.start) then Some((d2, Shift(d1, d2, -1)))
      else None
  }

  /**
   * When swap succeeds, exactly one of the two deltas is moved past the
   * other's span and the other is returned as it was; well-formed deltas
   * stay well-formed.
   */
  lemma SwapMovesOne(d1: Delta, d2: Delta)
    requires Swap(d1, d2).Some?
    ensures var (e2, e1) := Swap(d1, d2).value;
      (e1 == d1 && ShiftedPast(e2, d2, d1)) || (e2 == d2 && ShiftedPast(e1, d1, d2))
    ensures var (e2, e1) := Swap(d1, d2).value;
      WellFormed(d1) && WellFormed(d2) ==> WellFormed(e1) && WellFormed(e2)
  {
  }

  /** The two guards of the delete-then-insert case cover every pair, so that case never fails. */
  lemma DeleteThenInsertSwaps(d1: Delta, d2: Delta)
    requires d1.action == Delete && d2.action == Insert
    ensures Swap(d1, d2).Some?
  {
  }

  /** A delta whose span is not empty. */
  predicate NonEmpty(d: Delta) {
    Before(d.start, d.end)
  }

  /** A shift keeps a span non-empty. */
  lemma ShiftNonEmpty(x: Delta, y: Delta, dir: int)
    requires dir == 1 || dir == -1
    ensures NonEmpty(x) ==> NonEmpty(Shift(x, y, dir))
  {
    if NonEmpty(x) {
      ShiftPosMonotone(x.start, x.end, y.start, y.end, dir);
    }
  }

  /**
   * The pairs for which swapping back undoes a swap: both spans non-empty,
   * and not an insert followed by a delete that starts exactly where the
   * insert ends.
   */
  predicate Restorable(d1: Delta, d2: Delta) {
    NonEmpty(d1) && NonEmpty(d2) && !(d1.action == Insert && d2.action == Delete && d2.start == d1.end)
  }

  /**
   * Swapping back restores the pair: after swap(d1, d2) gives [d2', d1'],
   * swap(d2', d1') gives [d1, d2] again. This is what the rollback of
   * swapGroups relies on.
   */
  lemma SwapBackRestores(d1: Delta, d2: Delta)
    requires Restorable(d1, d2)
    requires Swap(d1, d2).Some?
    ensures Swap(Swap(d1, d2).value.0, Swap(d1, d2).value.1) == Some((d1, d2))
  {
    hide ShiftPos;
    ShiftInverse(d1, d2.start, d2.end);
    ShiftInverse(d2, d1.start, d1.end);
    var i1 := d1.action == Insert;
    var i2 := d2.action == Insert;
    if i1 && i2 {
      if AtOrBefore(d1.end, d2.start) {
        var e := Shift(d2, d1, -1);
        ShiftPosBackwardPastStart(d2.start, d1.start, d1.end);
        ShiftPosMonotone(d2.start, d2.end, d1.start, d1.end, -1);
        assert Swap(e, d1) == Some((d1, Shift(e, d1, 1)));
      } else {
        var e := Shift(d1, d2, 1);
        ShiftPosForwardPastEnd(d1.start, d2.start, d2.end);
        assert Swap(d2, e) == Some((Shift(e, d2, -1), d2));
      }
    } else if i1 && !i2 {
      if AtOrBefore(d1.end, d2.start) {
        var e := Shift(d2, d1, -1);
        ShiftPosBackwardPastStart(d2.start, d1.start, d1.end);
        assert Swap(e, d1) == Some((d1, Shift(e, d1, 1)));
      } else {
        var e := Shift(d1, d2, -1);
        ShiftPosBackwardPastStart(d1.start, d2.start, d2.end);
        assert Swap(d2, e) == Some((Shift(e, d2, 1), d2));
      }
    } else if !i1 && i2 {
      if AtOrBefore(d1.start, d2.start) {
        var e := Shift(d2, d1, 1);
        ShiftPosForwardPastEnd(d2.start, d1.start, d1.end);
        ShiftPosMonotoneWeak(d2.start, d2.end, d1.start, d1.end, 1);
        assert Swap(e, d1) == Some((d1, Shift(e, d1, -1)));
      } else {
        var e := Shift(d1, d2, 1);
        ShiftPosForwardPastEnd(d1.start, d2.start, d2.end);
        assert Swap(d2, e) == Some((Shift(e, d2, -1), d2));
      }
    } else {
      if AtOrBefore(d1.start, d2.start) {
        var e := Shift(d2, d1, 1);
        ShiftPosForwardPastEnd(d2.start, d1.start, d1.end);
        assert Swap(e, d1) == Some((d1, Shift(e, d1, -1)));
      } else {
        var e := Shift(d1, d2, -1);
        ShiftPosBackwardPastStart(d1.start, d2.start, d2.end);
        assert Swap(d2, e) == Some((Shift(e, d2, 1), d2));
      }
    }
  }

  /**
   * At the excluded boundary swapping back does not restore the pair: when a
   * delete starts exactly where a non-empty insert ends, the swap moves the
   * delete back to the insert's start, and swapping back then moves the
   * insert instead of the delete, so the delete keeps its moved position.
   */
  lemma SwapBackAtBoundary(d1: Delta, d2: Delta)
    requires d1.action == Insert && d2.action == Delete
    requires NonEmpty(d1) && d2.start == d1.end
    ensures Swap(d1, d2).Some?
    ensures Swap(Swap(d1, d2).value.0, Swap(d1, d2).value.1).Some?
    ensures Swap(Swap(d1, d2).value.0, Swap(d1, d2).value.1).value.1.start == d1.start != d2.start
  {
    ShiftPosEndpoints(d1.start, d1.end);
    var e := Shift(d2, d1, -1);
    assert Swap(d1, d2) == Some((e, d1));
    assert e.start == d1.start;
    assert Swap(e, d1) == Some((Shift(d1, e, 1), e));
  }
}
