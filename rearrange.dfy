/**
 * rearrangeUndoStack (frontend/js/undo.js): before an undo, the nearest
 * delta set below `pos` that is not marked ignore is moved up to `pos - 1`
 * by swapping it past each set above it.
 */
module Rearrange {
  import opened Wrappers
  import opened Deltas
  import opened Groups

  /** Every set holds at least one delta, and every delta is well formed. */
  predicate SetsValid(stack: seq<DeltaSet>) {
    forall k :: 0 <= k < |stack| ==> |stack[k].deltas| > 0 && AllWellFormed(stack[k].deltas)
  }

  /** A set the search skips: its first delta carries the ignore mark. */
  predicate Ignored(ds: DeltaSet)
    requires |ds.deltas| > 0
  {
    ds.deltas[0].ignore
  }

  /**
   * The index the backward search settles on: the highest index below `pos`
   * whose set is not ignored, or None when every set below `pos` is ignored.
   */
  function FindTarget(stack: seq<DeltaSet>, pos: nat): (r: Option<nat>)
    requires pos <= |stack| && SetsValid(stack)
    ensures r.Some? ==> r.value < pos && !Ignored(stack[r.value]) &&
                        forall k :: r.value < k < pos ==> Ignored(stack[k])
    ensures r.None? ==> forall k :: 0 <= k < pos ==> Ignored(stack[k])
  {
    if pos == 0 then None
    else if !Ignored(stack[pos - 1]) then Some(pos - 1)
    else FindTarget(stack, pos - 1)
  }

  /** swapGroups keeps every set non-empty and every delta well formed. */
  lemma SwapGroupsKeepsValid(ds1: DeltaSet, ds2: DeltaSet)
    ensures var (_, lower, upper) := SwapGroupsSpec(ds1, ds2);
      |ds1.deltas| > 0 && AllWellFormed(ds1.deltas) && |ds2.deltas| > 0 && AllWellFormed(ds2.deltas) ==>
      |lower.deltas| > 0 && AllWellFormed(lower.deltas) && |upper.deltas| > 0 && AllWellFormed(upper.deltas)
  {
    hide SwapGroupsSpec;
    if AllWellFormed(ds1.deltas) && AllWellFormed(ds2.deltas) {
      SwapGroupsWellFormed(ds1, ds2);
    }
  }

  /**
   * One step of the inner loop: stack[i] and stack[i + 1] become the two
   * sets swapGroups returns; every other slot is kept.
   */
  function SwapAt(stack: seq<DeltaSet>, i: nat): (r: seq<DeltaSet>)
    requires i + 1 < |stack|
    ensures |r| == |stack| && r[..i] == stack[..i] && r[i + 2..] == stack[i + 2..]
    ensures r[i] == SwapGroupsSpec(stack[i], stack[i + 1]).1 && r[i + 1] == SwapGroupsSpec(stack[i], stack[i + 1]).2
    ensures SetsValid(stack) ==> SetsValid(r)
  {
    hide SwapGroupsSpec;
    var (_, lower, upper) := SwapGroupsSpec(stack[i], stack[i + 1]);
    SwapGroupsKeepsValid(stack[i], stack[i + 1]);
    var r := stack[i := lower][i + 1 := upper];
    assert r[..i] == stack[..i] && r[i + 2..] == stack[i + 2..];
    r
  }

  /**
   * The inner loop of rearrangeUndoStack: swap the set at `i` with the one
   * above it and follow it up, until it reaches `pos - 1`. The slots below
   * `i` and from `pos` on are not touched.
   */
  function Bubble(stack: seq<DeltaSet>, i: nat, pos: nat): (r: seq<DeltaSet>)
    requires i < pos <= |stack|
    ensures |r| == |stack| && r[..i] == stack[..i] && r[pos..] == stack[pos..]
    ensures SetsValid(stack) ==> SetsValid(r)
    decreases pos - i
  {
    hide SwapGroupsSpec, SwapAt;
    if i + 1 == pos then stack
    else
      var next := SwapAt(stack, i);
      var r := Bubble(next, i + 1, pos);
      assert r[..i] == r[..i + 1][..i] == next[..i + 1][..i] == next[..i];
      r
  }

  /** Every swapGroups call of the bubbling from `i` up to `pos - 1` succeeds. */
  predicate BubbleSucceeds(stack: seq<DeltaSet>, i: nat, pos: nat)
    requires i < pos <= |stack|
    decreases pos - i
  {
    i + 1 == pos ||
    (SwapGroupsSpec(stack[i], stack[i + 1]).0 && BubbleSucceeds(SwapAt(stack, i), i + 1, pos))
  }

  /**
   * When every swap succeeds, the set that started at `i` ends at `pos - 1`
   * (its deltas moved, their content kept) and each set between them moves
   * down one slot.
   */
  lemma {:induction false} BubbleMovesTarget(stack: seq<DeltaSet>, i: nat, pos: nat)
    requires i < pos <= |stack| && BubbleSucceeds(stack, i, pos)
    ensures SameContents(Bubble(stack, i, pos)[pos - 1].deltas, stack[i].deltas)
    ensures forall k :: i <= k < pos - 1 ==> SameContents(Bubble(stack, i, pos)[k].deltas, stack[k + 1].deltas)
    decreases pos - i
  {
    hide SwapGroupsSpec;
    if i + 1 < pos {
      var (ok, lower, upper) := SwapGroupsSpec(stack[i], stack[i + 1]);
      var next := SwapAt(stack, i);
      assert next == stack[i := lower][i + 1 := upper];
      BubbleMovesTarget(next, i + 1, pos);
      var r := Bubble(stack, i, pos);
      assert r == Bubble(next, i + 1, pos);
      assert r[..i + 1] == next[..i + 1];
      assert r[i] == next[..i + 1][i] == lower;
    }
  }

  /** The inner while loop of rearrangeUndoStack. */
  method BubbleUp(stack: seq<DeltaSet>, target: nat, pos: nat) returns (r: seq<DeltaSet>)
    requires target < pos <= |stack|
    ensures r == Bubble(stack, target, pos)
  {
    hide SwapGroupsSpec;
    r := stack;
    var i := target;
    while i < pos - 1
      invariant target <= i < pos && |r| == |stack|
      invariant Bubble(r, i, pos) == Bubble(stack, target, pos)
    {
      var _, lower, upper := SwapGroups(r[i], r[i + 1]);
      assert r[i := lower][i + 1 := upper] == SwapAt(r, i);
      r := r[i := lower][i + 1 := upper];
      i := i + 1;
    }
  }

  /**
   * rearrangeUndoStack(stack, pos): `found` is the source's true/undefined
   * result; the stack comes back bubbled when a target was found and
   * unchanged otherwise.
   */
  method RearrangeUndoStack(stack: seq<DeltaSet>, pos: nat) returns (found: bool, r: seq<DeltaSet>)
    requires pos <= |stack| && SetsValid(stack)
    ensures found == FindTarget(stack, pos).Some?
    ensures r == if found then Bubble(stack, FindTarget(stack, pos).value, pos) else stack
  {
    hide SwapGroupsSpec;
    var i := pos;
    while i > 0
      invariant 0 <= i <= pos
      invariant FindTarget(stack, i) == FindTarget(stack, pos)
    {
      i := i - 1;
      if !stack[i].deltas[0].ignore {
        r := BubbleUp(stack, i, pos);
        return true, r;
      }
    }
    return false, stack;
  }
}
