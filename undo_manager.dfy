/**
 * The undo, redo and reset that frontend/js/undo.js installs on the
 * editor's undo manager, over the manager's own fields.
 */
module Controller {
  import opened Wrappers
  import opened Deltas
  import opened Groups
  import opened Rearrange
  import opened Rebase

  /**
   * The pop from the (rearranged) undo stack `b` and the push onto the redo
   * stack, emptied first when `clear` holds. Putting the moved set back on
   * top of the undo stack gives `b` again.
   */
  function PopOnto(b: seq<DeltaSet>, redo: seq<DeltaSet>, clear: bool): (r: (seq<DeltaSet>, seq<DeltaSet>))
    requires |b| > 0
    ensures |r.0| + 1 == |b| && |r.1| == (if clear then 0 else |redo|) + 1
    ensures r.1[..|r.1| - 1] == (if clear then [] else redo)
    ensures r.0 + [r.1[|r.1| - 1]] == b
    ensures SetsValid(b) ==> SetsValid(r.0) && (SetsValid(redo) ==> SetsValid(r.1))
  {
    var cleared := if clear then [] else redo;
    assert (cleared + [b[|b| - 1]])[..|cleared|] == cleared;
    assert b[..|b| - 1] + [b[|b| - 1]] == b;
    (b[..|b| - 1], cleared + [b[|b| - 1]])
  }

  /**
   * What undo does to the two stacks, given whether the redo stack is stale
   * (its base revision differs from the current one): None when every set
   * is ignored; otherwise the stack is rearranged, its top set is popped and
   * pushed on the redo stack, which is emptied first when stale.
   */
  function UndoStep(undo: seq<DeltaSet>, redo: seq<DeltaSet>, stale: bool): (r: Option<(seq<DeltaSet>, seq<DeltaSet>)>)
    requires SetsValid(undo)
    ensures r.None? <==> forall k :: 0 <= k < |undo| ==> Ignored(undo[k])
    ensures r.Some? ==> |r.value.0| + 1 == |undo| && |r.value.1| == (if stale then 0 else |redo|) + 1
    ensures r.Some? ==> r.value.1[..|r.value.1| - 1] == (if stale then [] else redo)
    ensures r.Some? ==> SetsValid(r.value.0) && (SetsValid(redo) ==> SetsValid(r.value.1))
    ensures r.Some? ==> FindTarget(undo, |undo|).Some? &&
                        r.value.0 + [r.value.1[|r.value.1| - 1]] == Bubble(undo, FindTarget(undo, |undo|).value, |undo|)
  {
    hide Bubble, SwapGroupsSpec;
    match FindTarget(undo, |undo|)
    case None => None
    case Some(t) => Some(PopOnto(Bubble(undo, t, |undo|), redo, stale && |redo| > 0))
  }

  /** UndoStep once the stack has been rearranged into `stack`. */
  lemma UndoStepIs(undo: seq<DeltaSet>, redo: seq<DeltaSet>, stale: bool, stack: seq<DeltaSet>)
    requires SetsValid(undo) && FindTarget(undo, |undo|).Some?
    requires stack == Bubble(undo, FindTarget(undo, |undo|).value, |undo|)
    ensures |stack| > 0 && UndoStep(undo, redo, stale) == Some(PopOnto(stack, redo, stale && |redo| > 0))
  {
    hide Bubble, SwapGroupsSpec;
  }

  /**
   * The stack work of undo: rearrange, then pop the top set onto the redo
   * stack, which is emptied first when stale and not already empty.
   */
  method UndoStacks(undo: seq<DeltaSet>, redo: seq<DeltaSet>, stale: bool)
    returns (found: bool, u: seq<DeltaSet>, r: seq<DeltaSet>)
    requires SetsValid(undo)
    ensures found == UndoStep(undo, redo, stale).Some?
    ensures found ==> (u, r) == UndoStep(undo, redo, stale).value
    ensures found ==> SetsValid(u) && (SetsValid(redo) ==> SetsValid(r))
  {
    hide UndoStep, Bubble, SwapGroupsSpec;
    var stack;
    found, stack := RearrangeUndoStack(undo, |undo|);
    if !found {
      return false, undo, redo;
    }
    UndoStepIs(undo, redo, stale, stack);
    r := redo;
    if stale && |r| > 0 {
      r := [];
    }
    var deltaSet := stack[|stack| - 1];
    u := stack[..|stack| - 1];
    r := r + [deltaSet];
  }

  /** The pop from the redo stack and the push onto the undo stack; None when the redo stack is empty. */
  function RedoStep(undo: seq<DeltaSet>, redo: seq<DeltaSet>): (r: Option<(seq<DeltaSet>, seq<DeltaSet>)>)
    ensures r.None? <==> |redo| == 0
    ensures r.Some? ==> |r.value.0| == |undo| + 1 && |r.value.1| + 1 == |redo|
    ensures r.Some? ==> r.value.0[..|undo|] == undo && r.value.0[|undo|] == redo[|redo| - 1] &&
                        r.value.1 == redo[..|redo| - 1]
  {
    if |redo| == 0 then None
    else
      assert (undo + [redo[|redo| - 1]])[..|undo|] == undo;
      Some((undo + [redo[|redo| - 1]], redo[..|redo| - 1]))
  }

  /** The set with its first delta carrying the id `id`. */
  function WithId(ds: DeltaSet, id: int): (r: DeltaSet)
    requires |ds.deltas| > 0
    ensures |r.deltas| == |ds.deltas| && r.deltas[0].id == Some(id)
    ensures r.deltas[0] == ds.deltas[0].(id := Some(id)) && r.deltas[1..] == ds.deltas[1..]
    ensures r.selectionBefore == ds.selectionBefore && r.selectionAfter == ds.selectionAfter
  {
    ds.(deltas := ds.deltas[0 := ds.deltas[0].(id := Some(id))])
  }

  /**
   * The forEach of redo: the first delta of each set, bottom to top, gets
   * the id ++maxRev, starting from `base`. Nothing else changes.
   */
  function Renumbered(stack: seq<DeltaSet>, base: int): (r: seq<DeltaSet>)
    requires forall k :: 0 <= k < |stack| ==> |stack[k].deltas| > 0
    ensures |r| == |stack|
    ensures forall k :: 0 <= k < |r| ==> r[k] == WithId(stack[k], base + k + 1)
    decreases |stack|
  {
    if |stack| == 0 then []
    else Renumbered(stack[..|stack| - 1], base) + [WithId(stack[|stack| - 1], base + |stack|)]
  }

  /**
   * The ids handed out by the renumbering increase strictly from bottom to
   * top and all lie above the old maxRev.
   */
  lemma RenumberedIdsFresh(stack: seq<DeltaSet>, base: int)
    requires forall k :: 0 <= k < |stack| ==> |stack[k].deltas| > 0
    ensures var r := Renumbered(stack, base);
      (forall k :: 0 <= k < |r| ==> r[k].deltas[0].id.Some? && base < r[k].deltas[0].id.value <= base + |stack|) &&
      (forall k, l :: 0 <= k < l < |r| ==> r[k].deltas[0].id.value < r[l].deltas[0].id.value)
  {
  }

  /** Renumbering changes only ids, so it keeps every set valid. */
  lemma RenumberedValid(stack: seq<DeltaSet>, base: int)
    requires SetsValid(stack)
    ensures SetsValid(Renumbered(stack, base))
  {
    var r := Renumbered(stack, base);
    forall k | 0 <= k < |r|
      ensures |r[k].deltas| > 0 && AllWellFormed(r[k].deltas)
    {
      assert r[k] == WithId(stack[k], base + k + 1);
      assert forall m :: 0 <= m < |r[k].deltas| ==>
        r[k].deltas[m].start == stack[k].deltas[m].start && r[k].deltas[m].end == stack[k].deltas[m].end &&
        r[k].deltas[m].lines == stack[k].deltas[m].lines;
    }
  }

  /**
   * The redo stack redo pops from: when stale it is first rebased over the
   * applied sets and renumbered from `maxRev`.
   */
  function RedoSource(redo: seq<DeltaSet>, stale: bool, applied: seq<DeltaSet>, maxRev: int): (r: seq<DeltaSet>)
    requires SetsValid(redo) && SetsOrdered(applied)
    ensures SetsValid(r) && |r| <= |redo|
  {
    hide RebaseSpec, Renumbered, Flatten, MoveSpec;
    if stale then
      FlattenOrdered(applied);
      var rebased := RebaseSpec(redo, Flatten(applied));
      RenumberedValid(rebased, maxRev);
      Renumbered(rebased, maxRev)
    else redo
  }

  /**
   * Redo right after an undo, with the redo stack not stale, pops the set the
   * undo pushed: the undo stack comes back as rearranged and the redo stack
   * as it was (emptied if the undo found it stale).
   */
  lemma UndoThenRedo(undo: seq<DeltaSet>, redo: seq<DeltaSet>, stale: bool)
    requires SetsValid(undo) && UndoStep(undo, redo, stale).Some?
    ensures FindTarget(undo, |undo|).Some?
    ensures var step := UndoStep(undo, redo, stale).value;
      RedoStep(step.0, step.1) == Some((Bubble(undo, FindTarget(undo, |undo|).value, |undo|), if stale then [] else redo))
  {
    hide Bubble, SwapGroupsSpec;
  }

  /**
   * When the top set is not ignored, nothing is rearranged, and redo right
   * after undo restores both stacks exactly.
   */
  lemma UndoThenRedoRestores(undo: seq<DeltaSet>, redo: seq<DeltaSet>)
    requires SetsValid(undo) && |undo| > 0 && !Ignored(undo[|undo| - 1])
    ensures UndoStep(undo, redo, false).Some?
    ensures var (u, r) := UndoStep(undo, redo, false).value; RedoStep(u, r) == Some((undo, redo))
  {
    hide SwapGroupsSpec;
    UndoThenRedo(undo, redo, false);
  }

  /**
   * Undo with an ignored set on top: in [a, b] with b ignored and a not, a is
   * swapped past b and undone, leaving b's deltas on the undo stack and a's
   * on top of the redo stack.
   */
  lemma UndoSkipsIgnored(a: DeltaSet, b: DeltaSet, redo: seq<DeltaSet>)
    requires |a.deltas| > 0 && |b.deltas| > 0 && !Ignored(a) && Ignored(b)
    requires AllWellFormed(a.deltas) && AllWellFormed(b.deltas)
    requires SwapGroupsSpec(a, b).0
    ensures UndoStep([a, b], redo, false).Some?
    ensures var (u, r) := UndoStep([a, b], redo, false).value;
      |u| == 1 && SameContents(u[0].deltas, b.deltas) &&
      r[..|redo|] == redo && |r| == |redo| + 1 && SameContents(r[|redo|].deltas, a.deltas)
  {
    assert SetsValid([a, b]);
    assert FindTarget([a, b], 2) == Some(0);
    BubbleMovesTarget([a, b], 0, 2);
  }

  /**
   * The forEach of redo over the rebased stack: each set in turn, bottom to
   * top, gets ++maxRev as the id of its first delta. `m` is maxRev after.
   */
  method RenumberSets(stack: seq<DeltaSet>, maxRev: int) returns (r: seq<DeltaSet>, m: int)
    requires forall k :: 0 <= k < |stack| ==> |stack[k].deltas| > 0
    ensures r == Renumbered(stack, maxRev) && m == maxRev + |stack|
  {
    hide WithId;
    r := stack;
    m := maxRev;
    var k := 0;
    while k < |r|
      invariant 0 <= k <= |r| == |stack| && m == maxRev + k
      invariant r[..k] == Renumbered(stack[..k], maxRev) && r[k..] == stack[k..]
    {
      m := m + 1;
      assert stack[..k + 1][..k] == stack[..k];
      r := r[k := WithId(r[k], m)];
      assert r[..k + 1] == Renumbered(stack[..k + 1], maxRev);
      k := k + 1;
    }
    assert r == r[..k] && stack == stack[..k];
  }

  /**
   * The refresh of a stale redo stack: rebased over the applied sets, then
   * renumbered from `maxRev`; `m` is maxRev after.
   */
  method RefreshRedo(redo: seq<DeltaSet>, applied: seq<DeltaSet>, maxRev: int) returns (r: seq<DeltaSet>, m: int)
    requires SetsValid(redo) && SetsOrdered(applied)
    ensures r == RedoSource(redo, true, applied, maxRev) && m == maxRev + |r|
  {
    hide RebaseSpec, Renumbered, Flatten, MoveSpec;
    FlattenOrdered(applied);
    var rebased := RebaseRedoStack(redo, applied);
    r, m := RenumberSets(rebased, maxRev);
  }

  /** The editor's undo manager, with the fields the patched undo, redo and reset use. */
  class UndoManager {
    var undoStack: seq<DeltaSet>
    var redoStack: seq<DeltaSet>
    var rev: int
    var redoStackBaseRev: int
    var maxRev: int
    var mark: int
    var fromUndo: bool
    var lastDeltas: Option<seq<Delta>>
    var lastDelta: Option<Delta>
    var selections: seq<Range>

    /** Every set on either stack holds at least one delta, and every delta is well formed. */
    predicate Valid()
      reads this
    {
      SetsValid(undoStack) && SetsValid(redoStack)
    }

    /** A manager as reset leaves it. */
    constructor()
      ensures Valid() && undoStack == [] && redoStack == []
      ensures rev == 0 && redoStackBaseRev == 0 && maxRev == 0 && mark == 0
    {
      undoStack, redoStack := [], [];
      rev, redoStackBaseRev, maxRev, mark := 0, 0, 0, 0;
      fromUndo := false;
      lastDeltas, lastDelta := None, None;
      selections := [];
    }

    /**
     * undo(session): `syncedRev` and `syncedBaseRev` are what the editor's
     * $syncRev sets $rev and $redoStackBaseRev to, and `hostSelection` is
     * what session.undoChanges returns. When every set is ignored nothing
     * but lastDeltas changes and the result is None.
     */
    method Undo(syncedRev: int, syncedBaseRev: int, hostSelection: Option<Range>) returns (selection: Option<Range>)
      requires Valid()
      modifies this
      ensures Valid() && lastDeltas == None
      ensures var step := UndoStep(old(undoStack), old(redoStack), old(redoStackBaseRev) != old(rev));
        if step.None? then
          undoStack == old(undoStack) && redoStack == old(redoStack) && rev == old(rev) &&
          redoStackBaseRev == old(redoStackBaseRev) && fromUndo == old(fromUndo) && selection == None
        else
          (undoStack, redoStack) == step.value && rev == syncedRev && redoStackBaseRev == syncedBaseRev &&
          !fromUndo && selection == hostSelection
      ensures maxRev == old(maxRev) && mark == old(mark) && lastDelta == old(lastDelta) && selections == old(selections)
    {
      hide UndoStep, Bubble, FindTarget, PopOnto, SwapGroupsSpec;
      lastDeltas := None;
      var found, undo, redo := UndoStacks(undoStack, redoStack, redoStackBaseRev != rev);
      if !found {
        return None;
      }
      fromUndo := true;
      undoStack, redoStack := undo, redo;
      rev, redoStackBaseRev := syncedRev, syncedBaseRev;
      selection := hostSelection;
      fromUndo := false;
    }

    /**
     * redo(session): `applied` is what getDeltas returns for the revisions
     * since the redo stack's base, `syncedRev` and `syncedBaseRev` what
     * $syncRev sets, and `hostSelection` what session.redoChanges returns.
     * A stale redo stack is rebased, its base set to the current revision
     * and its sets renumbered; then its top set, if any, moves to the undo
     * stack.
     */
    method Redo(applied: seq<DeltaSet>, syncedRev: int, syncedBaseRev: int, hostSelection: Option<Range>)
      returns (selection: Option<Range>)
      requires Valid() && SetsOrdered(applied)
      modifies this
      ensures Valid() && lastDeltas == None && !fromUndo
      ensures var stale := old(redoStackBaseRev) != old(rev);
        var source := RedoSource(old(redoStack), stale, applied, old(maxRev));
        maxRev == (if stale then old(maxRev) + |source| else old(maxRev)) &&
        var step := RedoStep(old(undoStack), source);
        if step.None? then
          undoStack == old(undoStack) && redoStack == source && rev == old(rev) &&
          redoStackBaseRev == old(rev) && selection == None
        else
          (undoStack, redoStack) == step.value && rev == syncedRev && redoStackBaseRev == syncedBaseRev &&
          selection == hostSelection
      ensures mark == old(mark) && lastDelta == old(lastDelta) && selections == old(selections)
    {
      hide RebaseSpec, MoveSpec, Renumbered, Flatten;
      lastDeltas := None;
      fromUndo := true;
      if redoStackBaseRev != rev {
        var refreshed, m := RefreshRedo(redoStack, applied, maxRev);
        redoStack, redoStackBaseRev, maxRev := refreshed, rev, m;
      }
      selection := None;
      if |redoStack| > 0 {
        var deltaSet := redoStack[|redoStack| - 1];
        redoStack := redoStack[..|redoStack| - 1];
        undoStack := undoStack + [deltaSet];
        rev, redoStackBaseRev := syncedRev, syncedBaseRev;
        selection := hostSelection;
      }
      fromUndo := false;
    }

    /** reset: both stacks emptied, every counter back to zero, the redo stack's base equal to the revision. */
    method Reset()
      modifies this
      ensures Valid() && undoStack == [] && redoStack == []
      ensures rev == 0 && mark == 0 && maxRev == 0 && redoStackBaseRev == rev
      ensures lastDeltas == None && lastDelta == None && selections == []
      ensures fromUndo == old(fromUndo)
    {
      lastDeltas := None;
      lastDelta := None;
      undoStack := [];
      redoStack := [];
      rev := 0;
      mark := 0;
      redoStackBaseRev := rev;
      selections := [];
      maxRev := 0;
    }
  }
}
