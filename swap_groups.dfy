/**
 * swapGroups (frontend/js/undo.js): exchanging two adjacent delta sets of
 * the undo stack by swapping every delta of the lower set past every delta
 * of the upper one, with a rollback when one swap fails.
 */
module Groups {
  import opened Wrappers
  import opened Positions
  import opened Deltas
  import opened Swapping

  /**
   * Where the nested swapping loop ends: every pair swapped, or stopped at
   * the pair (a[i], b[j]) that swap refused, with the deltas as they stand.
   */
  datatype Outcome = Done(a: seq<Delta>, b: seq<Delta>) | Stuck(a: seq<Delta>, b: seq<Delta>, i: nat, j: nat)

  /**
   * The forward loop of swapGroups from row `i` (counting down to 0) and
   * column `j` (counting up to |b|): a[i] is swapped past b[j], b[j+1], ...
   * and then a[i-1] past all of b.
   */
  function Run(a: seq<Delta>, b: seq<Delta>, i: int, j: nat): (o: Outcome)
    requires -1 <= i < |a| && j <= |b|
    ensures SameContents(o.a, a) && SameContents(o.b, b)
    ensures o.Stuck? ==> o.i <= i && o.i < |o.a| && o.j < |o.b| && Blocked(o.a[o.i], o.b[o.j])
    decreases i + 1, |b| - j
  {
    if i < 0 then Done(a, b)
    else if j == |b| then Run(a, b, i - 1, 0)
    else
      match Swap(a[i], b[j])
      case None => Stuck(a, b, i, j)
      case Some((y, x)) =>
        Run(a[i := x], b[j := y], i, j + 1)
  }

  /**
   * The rollback loop of swapGroups from row `i` and column `j`: swaps
   * b[j-1] and a[i] back, then b[j-2] and a[i], ..., then every pair of row
   * i+1 from the last column down, and so on to the last row. A swap back
   * that fails leaves its pair as it is.
   */
  function Unwind(a: seq<Delta>, b: seq<Delta>, i: nat, j: nat): (r: (seq<Delta>, seq<Delta>))
    requires i <= |a| && j <= |b|
    ensures SameContents(r.0, a) && SameContents(r.1, b)
    ensures AllWellFormed(a) && AllWellFormed(b) ==> AllWellFormed(r.0) && AllWellFormed(r.1)
    decreases |a| - i, j
  {
    if i == |a| then (a, b)
    else if j == 0 then Unwind(a, b, i + 1, |b|)
    else
      match Swap(b[j - 1], a[i])
      case None => Unwind(a, b, i, j - 1)
      case Some((x, y)) =>
        SwapMovesOne(b[j - 1], a[i]);
        Unwind(a[i := x], b[j - 1 := y], i, j - 1)
  }

  /** The forward loop keeps every delta well formed. */
  lemma {:induction false} RunWellFormed(a: seq<Delta>, b: seq<Delta>, i: int, j: nat)
    requires -1 <= i < |a| && j <= |b| && AllWellFormed(a) && AllWellFormed(b)
    ensures AllWellFormed(Run(a, b, i, j).a) && AllWellFormed(Run(a, b, i, j).b)
    decreases i + 1, |b| - j
  {
    hide Swap;
    if i < 0 {
    } else if j == |b| {
      RunWellFormed(a, b, i - 1, 0);
    } else {
      var swapped := Swap(a[i], b[j]);
      RunStep(a, b, i, j);
      if swapped.Some? {
        SwapMovesOne(a[i], b[j]);
        var a', b' := a[i := swapped.value.1], b[j := swapped.value.0];
        assert AllWellFormed(a') && AllWellFormed(b');
        RunWellFormed(a', b', i, j + 1);
      }
    }
  }

  /**
   * swapGroups(ds1, ds2) with ds1 below ds2: on success the sets come back
   * exchanged ([ds2, ds1]) with their selections cleared; on failure the
   * swaps done so far are swapped back and the sets come back in their
   * original order with their selections kept.
   */
  function SwapGroupsSpec(ds1: DeltaSet, ds2: DeltaSet): (r: (bool, DeltaSet, DeltaSet))
    ensures r.0 ==> SameContents(r.1.deltas, ds2.deltas) && SameContents(r.2.deltas, ds1.deltas) &&
                    r.1.selectionBefore == r.1.selectionAfter == r.2.selectionBefore == r.2.selectionAfter == None
    ensures !r.0 ==> SameContents(r.1.deltas, ds1.deltas) && SameContents(r.2.deltas, ds2.deltas) &&
                     r.1.selectionBefore == ds1.selectionBefore && r.1.selectionAfter == ds1.selectionAfter &&
                     r.2.selectionBefore == ds2.selectionBefore && r.2.selectionAfter == ds2.selectionAfter
  {
    hide Swap;
    match Run(ds1.deltas, ds2.deltas, |ds1.deltas| - 1, 0)
    case Done(a, b) => (true, DeltaSet(b, None, None), DeltaSet(a, None, None))
    case Stuck(a, b, i, j) =>
      var (a', b') := Unwind(a, b, i, j);
      (false, ds1.(deltas := a'), ds2.(deltas := b'))
  }

  /** One step of the rollback. */
  lemma UnwindStep(a: seq<Delta>, b: seq<Delta>, i: nat, j: nat)
    requires i < |a| && j < |b|
    ensures Swap(b[j], a[i]).None? ==> Unwind(a, b, i, j + 1) == Unwind(a, b, i, j)
    ensures Swap(b[j], a[i]).Some? ==>
      Unwind(a, b, i, j + 1) == Unwind(a[i := Swap(b[j], a[i]).value.0], b[j := Swap(b[j], a[i]).value.1], i, j)
  {
  }

  /**
   * The rollback loops of swapGroups: undo the swaps of row i from column
   * j - 1 down, then those of every row above it.
   */
  method Rollback(a0: seq<Delta>, b0: seq<Delta>, i: nat, j: nat) returns (a: seq<Delta>, b: seq<Delta>)
    requires i <= |a0| && j <= |b0|
    ensures (a, b) == Unwind(a0, b0, i, j)
  {
    hide Swap;
    a, b := a0, b0;
    var k, l := i, j;
    while k < |a|
      invariant i <= k <= |a| && 0 <= l <= |b| && |a| == |a0| && |b| == |b0|
      invariant Unwind(a, b, k, l) == Unwind(a0, b0, i, j)
    {
      while l > 0
        invariant 0 <= l <= |b| && |a| == |a0| && |b| == |b0|
        invariant Unwind(a, b, k, l) == Unwind(a0, b0, i, j)
      {
        l := l - 1;
        var back := Swap(b[l], a[k]);
        UnwindStep(a, b, k, l);
        if back.Some? {
          a, b := a[k := back.value.0], b[l := back.value.1];
        }
      }
      l := |b|;
      k := k + 1;
    }
  }

  /** One step of the forward loop. */
  lemma RunStep(a: seq<Delta>, b: seq<Delta>, i: nat, j: nat)
    requires i < |a| && j < |b|
    ensures Swap(a[i], b[j]).None? ==> Run(a, b, i, j) == Stuck(a, b, i, j)
    ensures Swap(a[i], b[j]).Some? ==>
      Run(a, b, i, j) == Run(a[i := Swap(a[i], b[j]).value.1], b[j := Swap(a[i], b[j]).value.0], i, j + 1)
  {
  }

  /**
   * The inner loop of swapGroups: a[i] is swapped past b[0], b[1], ... in
   * turn. `j` is the column it stopped at, |b| when every swap succeeded.
   */
  method SwapRow(a0: seq<Delta>, b0: seq<Delta>, i: nat) returns (a: seq<Delta>, b: seq<Delta>, j: nat)
    requires i < |a0|
    ensures |a| == |a0| && |b| == |b0| && j <= |b|
    ensures j < |b| ==> Run(a0, b0, i, 0) == Stuck(a, b, i, j)
    ensures j == |b| ==> Run(a0, b0, i, 0) == Run(a, b, i - 1, 0)
  {
    hide Swap;
    a, b := a0, b0;
    j := 0;
    while j < |b|
      invariant 0 <= j <= |b| && |a| == |a0| && |b| == |b0|
      invariant Run(a, b, i, j) == Run(a0, b0, i, 0)
    {
      var swapped := Swap(a[i], b[j]);
      RunStep(a, b, i, j);
      if swapped.None? {
        return;
      }
      a, b := a[i := swapped.value.1], b[j := swapped.value.0];
      j := j + 1;
    }
  }

  /** SwapGroupsSpec when the forward loop swapped every pair. */
  lemma SwapGroupsSpecDone(ds1: DeltaSet, ds2: DeltaSet, a: seq<Delta>, b: seq<Delta>)
    requires Run(ds1.deltas, ds2.deltas, |ds1.deltas| - 1, 0) == Done(a, b)
    ensures SwapGroupsSpec(ds1, ds2) == (true, DeltaSet(b, None, None), DeltaSet(a, None, None))
  {
    hide Run, Swap;
  }

  /** SwapGroupsSpec when the forward loop stopped at the pair (a[i], b[j]). */
  lemma SwapGroupsSpecStuck(ds1: DeltaSet, ds2: DeltaSet, a: seq<Delta>, b: seq<Delta>, i: nat, j: nat)
    requires i < |a| && j < |b| && Run(ds1.deltas, ds2.deltas, |ds1.deltas| - 1, 0) == Stuck(a, b, i, j)
    ensures SwapGroupsSpec(ds1, ds2) == (false, ds1.(deltas := Unwind(a, b, i, j).0), ds2.(deltas := Unwind(a, b, i, j).1))
  {
    hide Run, Unwind, Swap;
  }

  /** swapGroups as the nested loops of the source, with its rollback loops. */
  method SwapGroups(ds1: DeltaSet, ds2: DeltaSet) returns (ok: bool, lower: DeltaSet, upper: DeltaSet)
    ensures (ok, lower, upper) == SwapGroupsSpec(ds1, ds2)
  {
    hide Swap;
    var a, b := ds1.deltas, ds2.deltas;
    var i := |a| - 1;
    while i >= 0
      invariant -1 <= i < |a| && |a| == |ds1.deltas| && |b| == |ds2.deltas|
      invariant Run(a, b, i, 0) == Run(ds1.deltas, ds2.deltas, |ds1.deltas| - 1, 0)
    {
      var j;
      a, b, j := SwapRow(a, b, i);
      if j < |b| {
        SwapGroupsSpecStuck(ds1, ds2, a, b, i, j);
        a, b := Rollback(a, b, i, j);
        return false, ds1.(deltas := a), ds2.(deltas := b);
      }
      i := i - 1;
    }
    SwapGroupsSpecDone(ds1, ds2, a, b);
    return true, DeltaSet(b, None, None), DeltaSet(a, None, None);
  }

  /** swapGroups keeps every delta of both sets well formed, whichever way it ends. */
  lemma SwapGroupsWellFormed(ds1: DeltaSet, ds2: DeltaSet)
    requires AllWellFormed(ds1.deltas) && AllWellFormed(ds2.deltas)
    ensures AllWellFormed(SwapGroupsSpec(ds1, ds2).1.deltas) && AllWellFormed(SwapGroupsSpec(ds1, ds2).2.deltas)
  {
    hide Swap;
    var o := Run(ds1.deltas, ds2.deltas, |ds1.deltas| - 1, 0);
    RunWellFormed(ds1.deltas, ds2.deltas, |ds1.deltas| - 1, 0);
    if o.Done? {
      SwapGroupsSpecDone(ds1, ds2, o.a, o.b);
    } else {
      SwapGroupsSpecStuck(ds1, ds2, o.a, o.b, o.i, o.j);
    }
  }

  /** Every pair the forward loop swaps from (i, j) on is one that swapping back restores. */
  predicate RunRestorable(a: seq<Delta>, b: seq<Delta>, i: int, j: nat)
    requires -1 <= i < |a| && j <= |b|
    decreases i + 1, |b| - j
  {
    if i < 0 then true
    else if j == |b| then RunRestorable(a, b, i - 1, 0)
    else
      match Swap(a[i], b[j])
      case None => true
      case Some((y, x)) => Restorable(a[i], b[j]) && RunRestorable(a[i := x], b[j := y], i, j + 1)
  }

  /** Rolling back from where the forward loop stops undoes everything it did from (i, j) on. */
  lemma {:induction false} RunThenUnwind(a: seq<Delta>, b: seq<Delta>, i: nat, j: nat)
    requires i < |a| && j <= |b|
    requires RunRestorable(a, b, i, j) && Run(a, b, i, j).Stuck?
    ensures Run(a, b, i, j).i <= |Run(a, b, i, j).a| && Run(a, b, i, j).j <= |Run(a, b, i, j).b|
    ensures var o := Run(a, b, i, j); Unwind(o.a, o.b, o.i, o.j) == Unwind(a, b, i, j)
    decreases i + 1, |b| - j
  {
    hide Swap;
    if j == |b| {
      RunThenUnwind(a, b, i - 1, 0);
    } else {
      match Swap(a[i], b[j])
      case None =>
      case Some((y, x)) =>
        SwapBackRestores(a[i], b[j]);
        var a', b' := a[i := x], b[j := y];
        assert a'[i := a[i]] == a && b'[j := b[j]] == b;
        RunThenUnwind(a', b', i, j + 1);
    }
  }

  /**
   * When every swap made before the failure can be swapped back, the
   * rollback restores both sets exactly.
   */
  lemma SwapGroupsRollbackRestores(ds1: DeltaSet, ds2: DeltaSet)
    requires RunRestorable(ds1.deltas, ds2.deltas, |ds1.deltas| - 1, 0)
    requires !SwapGroupsSpec(ds1, ds2).0
    ensures SwapGroupsSpec(ds1, ds2) == (false, ds1, ds2)
  {
    hide Swap;
    var a, b := ds1.deltas, ds2.deltas;
    var o := Run(a, b, |a| - 1, 0);
    RunThenUnwind(a, b, |a| - 1, 0);
    assert Unwind(a, b, |a| - 1, 0) == (a, b) by {
      assert Unwind(a, b, |a| - 1, 0) == Unwind(a, b, |a|, |b|);
    }
  }

  /**
   * The rollback of a failed swapGroups need not restore the sets. Let the
   * lower set be one non-empty insert x, and the upper set a non-empty
   * delete d starting where x ends, followed by an insert y starting
   * strictly inside x. Then d is swapped past x, the swap of x and y is
   * refused, and swapping d back moves x forward instead, so the lower set
   * comes back with x starting at the end of d's moved span.
   */
  lemma SwapGroupsRollbackAtBoundary(ds1: DeltaSet, ds2: DeltaSet, x: Delta, d: Delta, y: Delta)
    requires ds1.deltas == [x] && ds2.deltas == [d, y]
    requires x.action == Insert && d.action == Delete && y.action == Insert
    requires NonEmpty(x) && NonEmpty(d) && d.start == x.end
    requires Before(x.start, y.start) && Before(y.start, x.end)
    ensures var (ok, lower, _) := SwapGroupsSpec(ds1, ds2);
      !ok && lower.deltas == [Shift(x, Shift(d, x, -1), 1)] &&
      lower.deltas[0].start == Shift(d, x, -1).end != x.start
  {
    var d' := Shift(d, x, -1);
    ShiftPosEndpoints(x.start, x.end);
    ShiftNonEmpty(d, x, -1);
    ShiftPosEndpoints(d'.start, d'.end);
    var a, b := [x], [d, y];
    assert Swap(x, d) == Some((d', x));
    RunStep(a, b, 0, 0);
    var b' := [d', y];
    assert b[0 := d'] == b';
    assert Swap(x, y).None?;
    RunStep(a, b', 0, 1);
    SwapGroupsSpecStuck(ds1, ds2, a, b', 0, 1);
    var x' := Shift(x, d', 1);
    assert Swap(d', x) == Some((x', d'));
    UnwindStep(a, b', 0, 0);
    assert a[0 := x'] == [x'] && b'[0 := d'] == b';
    assert Unwind(a, b', 0, 1) == Unwind([x'], b', 0, 0) == Unwind([x'], b', 1, 2) == ([x'], b');
  }

  predicate AllNonEmpty(s: seq<Delta>) {
    forall k :: 0 <= k < |s| ==> NonEmpty(s[k])
  }

  /** Swapping keeps both spans non-empty. */
  lemma SwapNonEmpty(d1: Delta, d2: Delta)
    requires Swap(d1, d2).Some? && NonEmpty(d1) && NonEmpty(d2)
    ensures NonEmpty(Swap(d1, d2).value.0) && NonEmpty(Swap(d1, d2).value.1)
  {
    SwapMovesOne(d1, d2);
    ShiftNonEmpty(d1, d2, 1);
    ShiftNonEmpty(d1, d2, -1);
    ShiftNonEmpty(d2, d1, 1);
    ShiftNonEmpty(d2, d1, -1);
  }

  /**
   * A sufficient condition for an exact rollback: every span non-empty, and
   * either the lower set holds only deletes or the upper set only inserts.
   */
  lemma {:induction false} RunRestorableWhen(a: seq<Delta>, b: seq<Delta>, i: int, j: nat)
    requires -1 <= i < |a| && j <= |b|
    requires AllNonEmpty(a) && AllNonEmpty(b)
    requires (forall k :: 0 <= k < |a| ==> a[k].action == Delete) || (forall k :: 0 <= k < |b| ==> b[k].action == Insert)
    ensures RunRestorable(a, b, i, j)
    decreases i + 1, |b| - j
  {
    hide Swap;
    if i < 0 {
    } else if j == |b| {
      RunRestorableWhen(a, b, i - 1, 0);
    } else {
      match Swap(a[i], b[j])
      case None =>
      case Some((y, x)) =>
        SwapNonEmpty(a[i], b[j]);
        RunRestorableWhen(a[i := x], b[j := y], i, j + 1);
    }
  }

  /** When the lower set only deletes or the upper set only inserts, a failed swapGroups leaves both sets exactly as they were. */
  lemma SwapGroupsRollbackRestoresWhen(ds1: DeltaSet, ds2: DeltaSet)
    requires AllNonEmpty(ds1.deltas) && AllNonEmpty(ds2.deltas)
    requires (forall k :: 0 <= k < |ds1.deltas| ==> ds1.deltas[k].action == Delete) ||
             (forall k :: 0 <= k < |ds2.deltas| ==> ds2.deltas[k].action == Insert)
    ensures !SwapGroupsSpec(ds1, ds2).0 ==> SwapGroupsSpec(ds1, ds2) == (false, ds1, ds2)
  {
    RunRestorableWhen(ds1.deltas, ds2.deltas, |ds1.deltas| - 1, 0);
    if !SwapGroupsSpec(ds1, ds2).0 {
      SwapGroupsRollbackRestores(ds1, ds2);
    }
  }
}
