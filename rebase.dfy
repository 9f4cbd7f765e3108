/**
 * moveDeltasByOne and rebaseRedoStack (frontend/js/undo.js): every delta
 * applied since the redo stack was built is pushed through every queued
 * redo delta, top set first, each set's deltas in order.
 */
module Rebase {
  import opened Wrappers
  import opened Positions
  import opened Deltas
  import opened Transform

  /** Every delta of every set is well formed. */
  predicate SetsWellFormed(stack: seq<DeltaSet>) {
    forall k :: 0 <= k < |stack| ==> AllWellFormed(stack[k].deltas)
  }

  /**
   * What the loop of moveDeltasByOne does to a set once xform(s[i], c) has
   * returned `parts`, as the code is written: one part overwrites s[i] in
   * place; no part removes s[i]; two parts are spliced in at i + 1, where
   * the first of them (which is s[i] itself, cut short) goes in a second
   * time and the delta that followed s[i] is overwritten. The second
   * component is the index the loop visits next.
   */
  function StepAsWritten(s: seq<Delta>, i: nat, parts: seq<Delta>): (r: (seq<Delta>, nat))
    requires i < |s| && |parts| <= 2
    ensures |parts| != 2 ==> r == Step(s, i, parts)
  {
    if |parts| == 2 then (s[i := parts[0]][..i + 1] + parts + (if i + 2 <= |s| then s[i + 2..] else []), i + 2)
    else if |parts| == 1 then
      assert s[i := parts[0]] == s[..i] + parts + s[i + 1..];
      (s[i := parts[0]], i + 1)
    else (s[..i] + s[i + 1..], i)
  }

  /**
   * The same step as intended: s[i] is replaced by the parts xform left of
   * it, every other delta of the set is kept once and in order, and the
   * loop goes on with the delta that followed s[i].
   */
  function Step(s: seq<Delta>, i: nat, parts: seq<Delta>): (r: (seq<Delta>, nat))
    requires i < |s|
    ensures |r.0| == |s| + |parts| - 1 && r.1 == i + |parts|
    ensures r.0[..i] == s[..i] && r.0[i..r.1] == parts && r.0[r.1..] == s[i + 1..]
    ensures AllWellFormed(s) && AllWellFormed(parts) ==> AllWellFormed(r.0)
  {
    var t := s[..i] + parts + s[i + 1..];
    assert t[..i] == s[..i] && t[i..i + |parts|] == parts && t[i + |parts|..] == s[i + 1..];
    (t, i + |parts|)
  }

  /** Step keeps every delta of the set but s[i], each once, and adds the parts. */
  lemma StepPermutes(s: seq<Delta>, i: nat, parts: seq<Delta>)
    requires i < |s|
    ensures multiset(Step(s, i, parts).0) + multiset{s[i]} == multiset(s) + multiset(parts)
  {
    assert s == s[..i] + [s[i]] + s[i + 1..];
    assert Step(s, i, parts).0 == s[..i] + parts + s[i + 1..];
  }

  /**
   * The inner loop of moveDeltasByOne over one set from index i on, with c
   * threaded through: the set as it ends up and c as it leaves the set.
   */
  function XformSet(s: seq<Delta>, i: nat, c: Delta): (r: (seq<Delta>, Delta))
    requires i <= |s| && AllWellFormed(s) && Ordered(c)
    ensures AllWellFormed(r.0) && Ordered(r.1) && SameContent(r.1, c)
    ensures i <= |r.0| && r.0[..i] == s[..i]
    decreases |s| - i
  {
    hide Xform;
    if i == |s| then (s, c)
    else
      var x := Xform(s[i], c);
      var (t, next) := Step(s, i, x.redo);
      var r := XformSet(t, next, x.applied);
      assert r.0[..i] == r.0[..next][..i] == t[..i];
      r
  }

  /**
   * One pass of the outer loop of moveDeltasByOne, on the set at j - 1: the
   * set is rebased over c and put back, or removed when no delta is left.
   */
  function MoveOne(stack: seq<DeltaSet>, j: nat, c: Delta): (r: (seq<DeltaSet>, Delta))
    requires 0 < j <= |stack| && SetsWellFormed(stack) && Ordered(c)
    ensures SetsWellFormed(r.0) && Ordered(r.1)
    ensures |r.0| == |stack| || |r.0| == |stack| - 1
    ensures r.0[..j - 1] == stack[..j - 1]
    ensures |r.0| == |stack| ==> r.0[j..] == stack[j..] && |r.0[j - 1].deltas| > 0
    ensures |r.0| < |stack| ==> r.0[j - 1..] == stack[j..]
    ensures var (s, c') := XformSet(stack[j - 1].deltas, 0, c);
      r.1 == c' && (|s| == 0 <==> |r.0| < |stack|) &&
      (|s| > 0 ==> r.0[j - 1] == stack[j - 1].(deltas := s))
  {
    hide XformSet;
    var (s, c') := XformSet(stack[j - 1].deltas, 0, c);
    if |s| == 0 then
      var next := stack[..j - 1] + stack[j..];
      assert next[..j - 1] == stack[..j - 1] && next[j - 1..] == stack[j..];
      assert forall k :: 0 <= k < |next| ==> next[k] == stack[if k < j - 1 then k else k + 1];
      (next, c')
    else
      var next := stack[j - 1 := stack[j - 1].(deltas := s)];
      assert next[..j - 1] == stack[..j - 1] && next[j..] == stack[j..];
      (next, c')
  }

  /**
   * moveDeltasByOne on the sets below index j, from j - 1 down to 0: each
   * set is rebased over c, which is threaded through, and a set left with
   * no delta is removed from the stack. Sets from j up are not visited.
   */
  function MoveSpec(stack: seq<DeltaSet>, j: nat, c: Delta): (r: seq<DeltaSet>)
    requires j <= |stack| && SetsWellFormed(stack) && Ordered(c)
    ensures SetsWellFormed(r) && |r| <= |stack|
    decreases j
  {
    hide MoveOne;
    if j == 0 then stack
    else
      var (next, c') := MoveOne(stack, j, c);
      MoveSpec(next, j - 1, c')
  }

  /**
   * The sets from j up come out of MoveSpec unchanged, at the top of the
   * result, and every set below them holds at least one delta.
   */
  lemma {:induction false} MoveSpecShape(stack: seq<DeltaSet>, j: nat, c: Delta)
    requires j <= |stack| && SetsWellFormed(stack) && Ordered(c)
    ensures var r := MoveSpec(stack, j, c);
      |stack| - j <= |r| && r[|r| - (|stack| - j)..] == stack[j..] &&
      forall k :: 0 <= k < |r| - (|stack| - j) ==> |r[k].deltas| > 0
    decreases j
  {
    hide MoveOne;
    if j > 0 {
      var (next, c') := MoveOne(stack, j, c);
      MoveSpecShape(next, j - 1, c');
      MoveSpecSuffix(stack, j, next, MoveSpec(next, j - 1, c'));
    }
  }

  /** The bookkeeping of one recursive step of MoveSpec. */
  lemma MoveSpecSuffix(stack: seq<DeltaSet>, j: nat, next: seq<DeltaSet>, r: seq<DeltaSet>)
    requires 0 < j <= |stack|
    requires |next| == |stack| || |next| == |stack| - 1
    requires |next| == |stack| ==> next[j..] == stack[j..] && |next[j - 1].deltas| > 0
    requires |next| < |stack| ==> next[j - 1..] == stack[j..]
    requires |next| - (j - 1) <= |r| && r[|r| - (|next| - (j - 1))..] == next[j - 1..]
    requires forall k :: 0 <= k < |r| - (|next| - (j - 1)) ==> |r[k].deltas| > 0
    ensures |stack| - j <= |r| && r[|r| - (|stack| - j)..] == stack[j..]
    ensures forall k :: 0 <= k < |r| - (|stack| - j) ==> |r[k].deltas| > 0
  {
    if |next| == |stack| {
      var m := |r| - (|stack| - j);
      assert r[m..] == r[m - 1..][1..];
      assert r[m - 1] == next[j - 1];
    }
  }

  /** One step of XformSet. */
  lemma XformSetStep(s: seq<Delta>, i: nat, c: Delta)
    requires i < |s| && AllWellFormed(s) && Ordered(c)
    ensures var x := Xform(s[i], c);
      var (t, next) := Step(s, i, x.redo);
      XformSet(s, i, c) == XformSet(t, next, x.applied)
  {
    hide Xform;
  }

  /**
   * The body of the inner loop of moveDeltasByOne once xform has returned
   * `parts`, with the corrected splice: the parts replace s[i] (two parts
   * are spliced in, none removes s[i], one stands in s[i]'s slot) and the
   * index is moved past them.
   */
  method SpliceParts(s0: seq<Delta>, i0: nat, parts: seq<Delta>) returns (s: seq<Delta>, i: nat)
    requires i0 < |s0| && |parts| <= 2
    ensures (s, i) == Step(s0, i0, parts)
  {
    s := s0;
    var k: int := i0;
    if |parts| == 2 {
      s := s[..k] + parts + s[k + 1..];
      k := k + 1;
    } else if |parts| == 0 {
      s := s[..k] + s[k + 1..];
      k := k - 1;
    } else {
      s := s[k := parts[0]];
      assert s == s0[..i0] + parts + s0[i0 + 1..];
    }
    i := k + 1;
  }

  /** One set of the inner loop of moveDeltasByOne, with the corrected splice. */
  method RebaseSet(s0: seq<Delta>, c0: Delta) returns (s: seq<Delta>, c: Delta)
    requires AllWellFormed(s0) && Ordered(c0)
    ensures (s, c) == XformSet(s0, 0, c0)
  {
    hide Xform;
    s, c := s0, c0;
    var i: int := 0;
    while i < |s|
      invariant 0 <= i <= |s| && AllWellFormed(s) && Ordered(c)
      invariant XformSet(s, i, c) == XformSet(s0, 0, c0)
    {
      var xformed := Xform(s[i], c);
      XformSetStep(s, i, c);
      s, i := SpliceParts(s, i, xformed.redo);
      c := xformed.applied;
    }
  }

  /** One step of MoveSpec. */
  lemma MoveSpecStep(stack: seq<DeltaSet>, j: nat, c: Delta)
    requires 0 < j <= |stack| && SetsWellFormed(stack) && Ordered(c)
    ensures MoveSpec(stack, j, c) == MoveSpec(MoveOne(stack, j, c).0, j - 1, MoveOne(stack, j, c).1)
  {
    hide MoveOne;
  }

  /** One pass of the outer loop of moveDeltasByOne, on the set at j - 1. */
  method MoveSetAt(stack: seq<DeltaSet>, j: nat, c0: Delta) returns (r: seq<DeltaSet>, c: Delta)
    requires 0 < j <= |stack| && SetsWellFormed(stack) && Ordered(c0)
    ensures (r, c) == MoveOne(stack, j, c0)
  {
    hide XformSet;
    var s;
    s, c := RebaseSet(stack[j - 1].deltas, c0);
    if |s| == 0 {
      r := stack[..j - 1] + stack[j..];
    } else {
      r := stack[j - 1 := stack[j - 1].(deltas := s)];
    }
  }

  /** moveDeltasByOne(redoStack, d) with the corrected splice: d is cloned first, and the stack is rebased over the clone. */
  method MoveDeltasByOne(stack: seq<DeltaSet>, d: Delta) returns (r: seq<DeltaSet>)
    requires SetsWellFormed(stack) && Ordered(d)
    ensures r == MoveSpec(stack, |stack|, CloneDelta(d))
  {
    hide MoveOne;
    var c := CloneDelta(d);
    r := stack;
    var j := |r|;
    while j > 0
      invariant 0 <= j <= |r| && SetsWellFormed(r) && Ordered(c)
      invariant MoveSpec(r, j, c) == MoveSpec(stack, |stack|, CloneDelta(d))
    {
      MoveSpecStep(r, j, c);
      r, c := MoveSetAt(r, j, c);
      j := j - 1;
    }
  }

  /**
   * The splice as written loses a delta: when a queued delete x strictly
   * contains an applied delete c, xform cuts x in two, and in the set [x, y]
   * the step as written yields [first, first, second] for any y, so y is
   * gone (an insert y is neither piece); the corrected step yields
   * [first, second, y].
   */
  lemma SpliceAsWrittenDropsSuccessor(x: Delta, y: Delta, c: Delta)
    requires WellFormed(x) && Ordered(c)
    requires x.action == Delete && c.action == Delete
    requires Before(x.start, c.start) && Before(c.end, x.end)
    ensures var parts := Xform(x, c).redo;
      |parts| == 2 &&
      StepAsWritten([x, y], 0, parts).0 == [parts[0], parts[0], parts[1]] &&
      (y.action == Insert ==> y !in StepAsWritten([x, y], 0, parts).0) &&
      Step([x, y], 0, parts).0 == parts + [y]
  {
    hide Xform;
    XformSplitsIff(x, c);
  }

  /**
   * A rebase in the small: a redo stack holding one set with one queued insert
   * x, rebased over an insert c that starts on an earlier row, keeps its one
   * set and moves x down by the number of line breaks c inserted.
   */
  lemma RebaseInsertAbove(x: Delta, c: Delta, before: Option<Range>, after: Option<Range>)
    requires WellFormed(x) && Ordered(c)
    requires x.action == Insert && c.action == Insert && c.start.row < x.start.row
    ensures var height := c.end.row - c.start.row;
      MoveSpec([DeltaSet([x], before, after)], 1, CloneDelta(c)) ==
      [DeltaSet([x.(start := Pos(x.start.row + height, x.start.column),
                    end := Pos(x.end.row + height, x.end.column))], before, after)]
  {
    hide Xform;
    var c' := CloneDelta(c);
    XformInsertAbove(x, c');
    var x' := Xform(x, c').redo[0];
    XformSetStep([x], 0, c');
    assert Step([x], 0, [x']).0 == [x'];
  }

  predicate AllOrdered(ds: seq<Delta>) {
    forall k :: 0 <= k < |ds| ==> Ordered(ds[k])
  }

  /** The deltas of a list of sets, set after set. */
  function Flatten(sets: seq<DeltaSet>): (r: seq<Delta>) {
    if |sets| == 0 then [] else Flatten(sets[..|sets| - 1]) + sets[|sets| - 1].deltas
  }

  predicate SetsOrdered(sets: seq<DeltaSet>) {
    forall k :: 0 <= k < |sets| ==> AllOrdered(sets[k].deltas)
  }

  lemma {:induction false} FlattenOrdered(sets: seq<DeltaSet>)
    requires SetsOrdered(sets)
    ensures AllOrdered(Flatten(sets))
  {
    if |sets| > 0 {
      FlattenOrdered(sets[..|sets| - 1]);
    }
  }

  /**
   * rebaseRedoStack on a list of applied deltas: moveDeltasByOne for each
   * of them in turn. The stack never gains a set, and every set left in it
   * holds at least one delta.
   */
  function RebaseSpec(stack: seq<DeltaSet>, ds: seq<Delta>): (r: seq<DeltaSet>)
    requires SetsWellFormed(stack) && AllOrdered(ds)
    ensures SetsWellFormed(r) && |r| <= |stack|
    ensures (|ds| > 0 || forall k :: 0 <= k < |stack| ==> |stack[k].deltas| > 0) ==>
            forall k :: 0 <= k < |r| ==> |r[k].deltas| > 0
    decreases |ds|
  {
    hide MoveSpec;
    if |ds| == 0 then stack
    else
      var prev := RebaseSpec(stack, ds[..|ds| - 1]);
      MoveSpecShape(prev, |prev|, CloneDelta(ds[|ds| - 1]));
      MoveSpec(prev, |prev|, CloneDelta(ds[|ds| - 1]))
  }

  /** RebaseSpec of a list that ends in d is one more moveDeltasByOne. */
  lemma RebaseSpecSnoc(stack: seq<DeltaSet>, ds: seq<Delta>, d: Delta)
    requires SetsWellFormed(stack) && AllOrdered(ds) && Ordered(d)
    ensures AllOrdered(ds + [d])
    ensures RebaseSpec(stack, ds + [d]) ==
            MoveSpec(RebaseSpec(stack, ds), |RebaseSpec(stack, ds)|, CloneDelta(d))
  {
    hide MoveSpec;
    assert (ds + [d])[..|ds|] == ds;
  }

  lemma SliceSnoc(done: seq<Delta>, deltas: seq<Delta>, j: nat)
    requires j < |deltas|
    ensures done + deltas[..j] + [deltas[j]] == done + deltas[..j + 1]
  {
    assert deltas[..j + 1] == deltas[..j] + [deltas[j]];
  }

  /** The inner loop of rebaseRedoStack: the deltas of one applied set. */
  method RebaseOverSet(r0: seq<DeltaSet>, deltas: seq<Delta>, ghost stack: seq<DeltaSet>, ghost done: seq<Delta>)
    returns (r: seq<DeltaSet>)
    requires SetsWellFormed(stack) && AllOrdered(done) && AllOrdered(deltas)
    requires r0 == RebaseSpec(stack, done)
    ensures AllOrdered(done + deltas)
    ensures r == RebaseSpec(stack, done + deltas)
  {
    hide RebaseSpec, MoveSpec;
    r := r0;
    var j := 0;
    ghost var ds := done;
    assert deltas[..0] == [];
    while j < |deltas|
      invariant 0 <= j <= |deltas| && ds == done + deltas[..j]
      invariant AllOrdered(ds) && r == RebaseSpec(stack, ds)
    {
      RebaseSpecSnoc(stack, ds, deltas[j]);
      SliceSnoc(done, deltas, j);
      r := MoveDeltasByOne(r, deltas[j]);
      ds := ds + [deltas[j]];
      j := j + 1;
    }
    assert deltas[..j] == deltas;
  }

  /** rebaseRedoStack(redoStack, deltaSets): every delta of every applied set, in order, with the corrected splice. */
  method RebaseRedoStack(stack: seq<DeltaSet>, sets: seq<DeltaSet>) returns (r: seq<DeltaSet>)
    requires SetsWellFormed(stack) && SetsOrdered(sets)
    ensures AllOrdered(Flatten(sets))
    ensures r == RebaseSpec(stack, Flatten(sets))
  {
    hide MoveSpec;
    FlattenOrdered(sets);
    r := stack;
    var i := 0;
    while i < |sets|
      invariant 0 <= i <= |sets| && AllOrdered(Flatten(sets[..i]))
      invariant r == RebaseSpec(stack, Flatten(sets[..i]))
    {
      assert sets[..i + 1][..i] == sets[..i];
      r := RebaseOverSet(r, sets[i].deltas, stack, Flatten(sets[..i]));
      i := i + 1;
    }
    assert sets[..i] == sets;
  }
}
