# Undo/redo engine of the editor (frontend/js/undo.js)

The editor replaces the undo, redo and reset of its Ace undo manager with its
own versions. These work on two stacks of delta sets. A delta is an insert or
a delete of some lines between two (row, column) points. A delta set is the
group of deltas of one user action, together with the selections stored with
it.

This project models that engine in Dafny and proves properties of the model:

- `positions.dfy`: points, the editor's point comparison (`cmp`), `clonePos`
  and `shiftPos`.
- `deltas.dfy`: deltas and delta sets, `shift`, `cloneDelta` and
  `splitDelta`.
- `swap.dfy`: `swap`, which exchanges two adjacent deltas or refuses to.
- `swap_groups.dfy`: `swapGroups`, its nested swapping loops and its
  rollback loops.
- `rearrange.dfy`: `rearrangeUndoStack`, which bubbles the nearest set not
  marked ignore to the top of the undo stack.
- `xform.dfy`: `xform`, which rebases a queued redo delta over a delta that
  was applied meanwhile.
- `rebase.dfy`: `moveDeltasByOne` and `rebaseRedoStack`, which walk the redo
  stack, splice in the pieces `xform` leaves and drop empty sets.
- `undo_manager.dfy`: the patched `undo`, `redo` and `reset`, as methods of a
  class `UndoManager` over the manager's fields (`$undoStack`, `$redoStack`,
  `$rev`, `$redoStackBaseRev`, `$maxRev`, `mark`, `$fromUndo`, `lastDeltas`,
  `$lastDelta`, `selections`).

Each loop of the source is a method with a `while` loop. The method is proved
equal to a recursive function, and the properties are proved as lemmas about
that function. For example, `SwapGroups` is proved equal to `SwapGroupsSpec`,
`RearrangeUndoStack` to `Bubble` and `MoveDeltasByOne` to `MoveSpec`.

Points, deltas and delta sets are values. Where the source changes an object
in place, the model computes the new value and writes it back into the
sequence that held the object.

Three calls into the host editor become parameters of the methods:

- `$syncRev` becomes `syncedRev` and `syncedBaseRev`.
- `getDeltas` becomes `applied`.
- `session.undoChanges` and `session.redoChanges` become `hostSelection`.

Each `cmp(p, q)` test of the source is written as the order it stands for,
`Before` or `AtOrBefore`. `Positions.Cmp` states that its sign is that
order.

`reset` sets `$maxRev` back to 0 (frontend/js/undo.js:109, marked as a fix
in the source), so ids handed out after a reset can repeat ids handed out
before it. `Controller.UndoManager.Reset` states that `maxRev` becomes 0.

When a `swapGroups` inside `rearrangeUndoStack` fails, the source goes on
bubbling and still returns true. `Rearrange.Bubble` does the same.
`Rearrange.BubbleMovesTarget` states where the target set ends up when every
swap succeeds.

## Model

| member | source | states |
|---|---|---|
| Positions.Cmp | frontend/js/undo.js:201 | the comparison is negative, zero or positive exactly when the first point is before, equal to or after the second in (row, column) order |
| Positions.ClonePos | frontend/js/undo.js:246-248 | the copy has the same row and column |
| Positions.ShiftPos | frontend/js/undo.js:193-198 | a forward shift carries the span's start to its end and a backward shift its end to its start; the row moves by the span's height (down when forward, up when backward); the column changes only on the span's start row (forward) or end row (backward) |
| Positions.ShiftPosCoordinates | frontend/js/undo.js:193-198 | the row always moves by dir times the span's height; the column changes only on the span's start row (forward) or end row (backward), and then by dir times the span's width |
| Positions.ShiftPosInverse | frontend/js/undo.js:193-198 | shifting forward and then backward over the same span gives the point back, and so does the other order |
| Positions.ShiftPosEndpoints | frontend/js/undo.js:193-198 | a forward shift carries the span's start to its end; a backward shift carries its end to its start |
| Positions.ShiftPosMonotone | frontend/js/undo.js:193-198 | a shift keeps the strict order of two points |
| Positions.ShiftPosMonotoneWeak | frontend/js/undo.js:193-198 | a shift keeps the non-strict order of two points |
| Positions.ShiftPosForwardPastEnd | frontend/js/undo.js:193-198 | a point at or after the span's start lands at or after its end when shifted forward, strictly after when it was strictly after the start |
| Positions.ShiftPosBackwardPastStart | frontend/js/undo.js:193-198 | a point at or after the span's end lands at or after its start when shifted backward, strictly after when it was strictly after the end |
| Deltas.ShiftSpan | frontend/js/undo.js:188-191 | moving both ends of a delta past a span keeps its action, lines and marks, keeps its span ordered and keeps it well formed |
| Deltas.Shift | frontend/js/undo.js:188-191 | shift(d1, d2, dir) keeps d1's action, lines and marks, and keeps d1 ordered and well formed |
| Deltas.ShiftInverse | frontend/js/undo.js:188-198 | shifting a delta forward and then backward over the same span gives it back, in either order |
| Deltas.CloneDelta | frontend/js/undo.js:237-244 | the clone has the same action, start, end and lines, and carries neither the ignore mark nor an id |
| Deltas.Prefix | frontend/js/undo.js:315 | substring(0, n) is the first n characters, with n clamped to the string: empty for a negative n, the whole string past its end |
| Deltas.Suffix | frontend/js/undo.js:316 | substr(n) drops the first n characters, gives "" past the end, and for a negative n is the last -n characters (the whole string when -n exceeds its length) |
| Deltas.SplitDelta | frontend/js/undo.js:307-323 | c is cut to end at pos and keeps its other fields; the new delta runs from pos to c's old end with c's action and no marks; the two line counts add up to the old count plus one; the rows before and after the cut row keep their lines |
| Deltas.SplitDeltaLines | frontend/js/undo.js:307-323 | the last line of the cut delta followed by the first line of the new one is the original line at row offset pos.row - start.row, and the two parts' lines rebuild the original lines |
| Deltas.SplitDeltaWellFormed | frontend/js/undo.js:307-323 | cutting a well-formed delta at a point of its span gives two well-formed deltas |
| Swapping.Swap | frontend/js/undo.js:148-186 | swap returns null exactly for the blocked pairs (the third branch of each action pair); when it succeeds, the result is [d2, d1] with each delta's action, lines and marks unchanged |
| Swapping.SwapMovesOne | frontend/js/undo.js:152-191 | when swap succeeds, exactly one of the two deltas is moved past the other's span, the other comes back unchanged, and well-formed deltas stay well formed |
| Swapping.DeleteThenInsertSwaps | frontend/js/undo.js:168-175 | a delete followed by an insert always swaps, because the two guards cover every pair |
| Swapping.ShiftNonEmpty | frontend/js/undo.js:188-198 | a shift keeps a non-empty span non-empty |
| Swapping.SwapBackRestores | frontend/js/undo.js:130-135 | for non-empty deltas other than an insert followed by a delete that starts where the insert ends, swapping the swapped pair back gives [d1, d2] again |
| Swapping.SwapBackAtBoundary | frontend/js/undo.js:160-172 | for an insert followed by a delete that starts at the insert's end, swapping back moves the insert instead of the delete, so the delete does not return to its old start |
| Groups.Run | frontend/js/undo.js:128-142 | the forward loops keep every delta's action, lines and marks; when they stop, they stop at a pair that swap refuses |
| Groups.Unwind | frontend/js/undo.js:131-138 | the rollback loops keep every delta's action, lines and marks, and keep well-formed deltas well formed |
| Groups.RunWellFormed | frontend/js/undo.js:128-142 | the forward loops keep every delta well formed |
| Groups.Rollback | frontend/js/undo.js:132-138 | the rollback while loops compute Unwind from the failing pair |
| Groups.SwapRow | frontend/js/undo.js:129-141 | the inner for loop either stops at the first refused column, which is the forward loops' stopping point, or swaps a[i] past all of b and hands over to the next row |
| Groups.SwapGroupsSpecDone | frontend/js/undo.js:143-145 | when every pair swaps, swapGroups returns the sets exchanged with all four selections cleared |
| Groups.SwapGroupsSpecStuck | frontend/js/undo.js:130-139 | when a pair is refused, swapGroups returns the rolled-back sets in their original order with their selections kept |
| Groups.SwapGroupsSpec | frontend/js/undo.js:127-146 | on success the lower slot holds ds2's deltas and the upper slot ds1's, with content kept and all four selections null; on failure each set keeps its slot, its selections and its deltas' content |
| Groups.SwapGroups | frontend/js/undo.js:127-146 | the nested loops with their rollback compute SwapGroupsSpec |
| Groups.SwapGroupsWellFormed | frontend/js/undo.js:127-146 | swapGroups keeps every delta of both sets well formed, on either outcome |
| Groups.RunThenUnwind | frontend/js/undo.js:130-138 | when every pair swapped so far can be swapped back, rolling back from the failing pair undoes everything the forward loops did |
| Groups.SwapGroupsRollbackRestores | frontend/js/undo.js:130-139 | under that condition, a failed swapGroups returns both sets exactly as they were |
| Groups.SwapGroupsRollbackAtBoundary | frontend/js/undo.js:130-139 | with a lower set [x] (an insert) and an upper set [d, y] (a delete starting at x's end, then an insert starting inside x), swapGroups fails and its rollback returns x moved forward past d's span, so the lower set is not restored |
| Groups.SwapNonEmpty | frontend/js/undo.js:148-186 | swapping two non-empty deltas leaves both non-empty |
| Groups.RunRestorableWhen | frontend/js/undo.js:128-142 | with every span non-empty, and the lower set only deleting or the upper set only inserting, every pair the forward loops swap can be swapped back |
| Groups.SwapGroupsRollbackRestoresWhen | frontend/js/undo.js:127-146 | for such sets, a failed swapGroups leaves both sets exactly as they were |
| Rearrange.FindTarget | frontend/js/undo.js:113-115 | the search finds the highest index below pos whose set is not ignored, with every set between it and pos ignored; it finds nothing exactly when every set below pos is ignored |
| Rearrange.SwapGroupsKeepsValid | frontend/js/undo.js:117-119 | swapGroups keeps both sets non-empty and their deltas well formed |
| Rearrange.SwapAt | frontend/js/undo.js:117-119 | one inner step writes the two swapGroups results to slots i and i + 1 and keeps every other slot and the stack's validity |
| Rearrange.Bubble | frontend/js/undo.js:116-121 | bubbling keeps the stack's length, the slots below the target and the slots from pos on, and keeps the stack valid |
| Rearrange.BubbleMovesTarget | frontend/js/undo.js:116-121 | when every swap succeeds, the target set's deltas end at pos - 1 (moved, content kept) and each set between moves down one slot |
| Rearrange.BubbleUp | frontend/js/undo.js:116-121 | the inner while loop computes Bubble |
| Rearrange.RearrangeUndoStack | frontend/js/undo.js:112-125 | the result is true exactly when some set below pos is not ignored; the stack is then bubbled from the highest such set, and otherwise it is unchanged |
| Transform.DeleteOverlap | frontend/js/undo.js:283-301 | in the overlapping delete/delete case, c keeps its content and stays ordered, and x leaves at most two well-formed pieces with x's action |
| Transform.DeleteOverlapPieces | frontend/js/undo.js:284-301 | an overlapped delete keeps one piece for each of its ends that lies outside c |
| Transform.Xform | frontend/js/undo.js:250-305 | xform returns c first, content kept and still ordered, followed by at most two well-formed deltas with x's action; outside overlapping deletes exactly one delta follows, and it is x with its lines and marks kept (only its span may move) |
| Transform.XformDropsIff | frontend/js/undo.js:278-301 | x disappears exactly when both are deletes, the spans overlap and c's span covers x's |
| Transform.XformSplitsIff | frontend/js/undo.js:284-301 | x falls into two pieces exactly when both are deletes and c's span lies strictly inside x's |
| Transform.XformPiecesOutsideApplied | frontend/js/undo.js:284-301 | each surviving piece of an overlapped delete is x's part before c (keeping x's marks) or x's part after c |
| Transform.XformInserts | frontend/js/undo.js:254-259 | for two inserts, the one that starts later is moved forward past the other, and a tie moves x |
| Transform.XformInsertAbove | frontend/js/undo.js:254-259 | an applied insert starting on an earlier row pushes a queued insert down by its number of line breaks and leaves the columns alone |
| Rebase.StepAsWritten | frontend/js/undo.js:219-227 | the splice step as written; it agrees with the corrected step whenever xform leaves zero or one delta |
| Rebase.Step | frontend/js/undo.js:219-227 | the corrected step replaces s[i] by xform's pieces, keeps the deltas before and after it in place and in order, continues after the pieces, and keeps the set well formed |
| Rebase.StepPermutes | frontend/js/undo.js:219-227 | the step keeps every delta of the set except s[i], each once, and adds the pieces |
| Rebase.XformSet | frontend/js/undo.js:216-229 | the inner loop keeps the set well formed and the deltas already visited, and passes on c with its content kept and still ordered, with the corrected splice (see ## Findings) |
| Rebase.SpliceParts | frontend/js/undo.js:220-227 | the splice on the set computes Step, with the corrected splice (see ## Findings) |
| Rebase.RebaseSet | frontend/js/undo.js:216-229 | the inner for loop computes XformSet, with the corrected splice (see ## Findings) |
| Rebase.MoveOne | frontend/js/undo.js:215-233 | one outer pass rebases the set at j - 1 with XformSet: the set is removed exactly when XformSet leaves no delta, and otherwise takes XformSet's deltas and keeps its selections; the c passed on is the one XformSet leaves; the sets below are kept and the sets above move down at most one slot, with the corrected splice (see ## Findings) |
| Rebase.MoveSpec | frontend/js/undo.js:212-235 | moveDeltasByOne never adds a set and keeps every delta well formed, with the corrected splice (see ## Findings) |
| Rebase.MoveSpecShape | frontend/js/undo.js:214-233 | the sets not yet visited stay on top unchanged, and every set below them holds at least one delta |
| Rebase.MoveSetAt | frontend/js/undo.js:215-233 | the body of the outer loop computes MoveOne, with the corrected splice (see ## Findings) |
| Rebase.MoveDeltasByOne | frontend/js/undo.js:212-235 | the loop computes MoveSpec over every set, top first, with a clone of the applied delta, so the caller's delta is not changed, with the corrected splice (see ## Findings) |
| Rebase.SpliceAsWrittenDropsSuccessor | frontend/js/undo.js:222 | for a queued delete x that strictly contains an applied delete, followed by any delta y, the step as written gives [first, first, second], with no copy of y left when y is an insert; the corrected step gives [first, second, y] |
| Rebase.RebaseInsertAbove | frontend/js/undo.js:212-235 | a stack with one queued insert, rebased over an insert that starts on an earlier row, keeps its one set and its selections, and the insert moves down by the applied insert's number of line breaks |
| Rebase.FlattenOrdered | frontend/js/undo.js:203-210 | the applied deltas, read set after set, are all ordered |
| Rebase.RebaseSpec | frontend/js/undo.js:203-210 | rebaseRedoStack never adds a set, keeps every delta well formed, and leaves no empty set once it has rebased over at least one delta, with the corrected splice (see ## Findings) |
| Rebase.RebaseOverSet | frontend/js/undo.js:206-208 | the inner loop over one applied set extends the rebase by that set's deltas |
| Rebase.RebaseRedoStack | frontend/js/undo.js:203-210 | the nested loops compute RebaseSpec over every applied delta, set after set, with the corrected splice (see ## Findings) |
| Controller.PopOnto | frontend/js/undo.js:52-60 | the undo stack loses its top set and the redo stack gains it on top, emptied first when asked; putting the set back gives the old undo stack; validity is kept |
| Controller.UndoStep | frontend/js/undo.js:42-68 | undo fails exactly when every set is ignored; otherwise the undo stack shrinks by one, the redo stack gains one set on top of itself or of nothing when stale, both stay valid, and the moved set with the new undo stack is the rearranged stack |
| Controller.UndoStacks | frontend/js/undo.js:44-60 | the rearranging, the clearing and the pop and push compute UndoStep |
| Controller.RedoStep | frontend/js/undo.js:86-90 | redo fails exactly when the redo stack is empty; otherwise its top set moves onto the undo stack and everything else is kept |
| Controller.WithId | frontend/js/undo.js:83 | the first delta gets the id and keeps every other field; the other deltas and both selections are unchanged |
| Controller.Renumbered | frontend/js/undo.js:82-84 | the k-th set from the bottom gets id base + k + 1 on its first delta, and nothing else changes |
| Controller.RenumberedIdsFresh | frontend/js/undo.js:82-84 | the new ids increase strictly from bottom to top and lie above the old maxRev and at most |stack| above it |
| Controller.RenumberedValid | frontend/js/undo.js:82-84 | renumbering keeps every set valid |
| Controller.RenumberSets | frontend/js/undo.js:82-84 | the forEach computes Renumbered and leaves maxRev raised by the number of sets |
| Controller.RedoSource | frontend/js/undo.js:78-85 | the stack redo pops from is valid and no larger than the redo stack |
| Controller.RefreshRedo | frontend/js/undo.js:78-84 | a stale redo stack is rebased over the applied sets and renumbered, and maxRev grows by the number of sets left, with the corrected splice (see ## Findings) |
| Controller.UndoThenRedo | frontend/js/undo.js:42-98 | redo right after undo brings back the rearranged undo stack and the redo stack as it was, or empty when undo found it stale |
| Controller.UndoThenRedoRestores | frontend/js/undo.js:42-98 | when the top set is not ignored and the redo stack is not stale, redo right after undo restores both stacks exactly |
| Controller.UndoSkipsIgnored | frontend/js/undo.js:46-60 | with an ignored set on top of a set that is not ignored, and a swap that succeeds, undo moves the lower set's deltas to the redo stack and leaves the ignored set's deltas on the undo stack |
| Controller.UndoManager.Undo | frontend/js/undo.js:42-68 | when nothing can be undone, only lastDeltas changes and the result is null; otherwise the stacks become UndoStep's, the revisions are synced, $fromUndo ends false and the host's selection is returned; maxRev, mark, lastDelta and selections never change |
| Controller.UndoManager.Redo | frontend/js/undo.js:71-98 | a stale redo stack is refreshed, its base set to the revision and maxRev raised by the number of sets; then the top set, if any, moves to the undo stack and the revisions are synced; with an empty stack nothing else changes and the result is null, with the corrected splice (see ## Findings) |
| Controller.UndoManager.Reset | frontend/js/undo.js:100-110 | both stacks are emptied; rev, mark and maxRev become 0, the redo base equals rev, lastDeltas and lastDelta are cleared and selections emptied |

## Left out

- The exported `UndoManager` class (frontend/js/undo.js:1-40) only forwards to Ace's undo manager. Its `canUndo`, `canRedo`, `isAtBookmark`, `bookmark` and `getRevision` belong to Ace, whose code is not part of this model.
- `$syncRev`, `getDeltas`, `session.undoChanges` and `session.redoChanges` are host calls. Their results are parameters of `Undo` and `Redo`. The `session` defaulting and the `dontSelect` flag (frontend/js/undo.js:49-50, 74-75) only reach those calls.
- `ace.Range` and `Range.fromPoints` belong to a foreign library. The comparison is taken to be lexicographic on (row, column), and `fromPoints` is taken to be a span from two points (`Deltas.ShiftSpan`).
- Update in place and aliasing are not modelled. `swap`, `shift`, `xform` and `splitDelta` change the objects they are given. The model returns the new values and stores them back where the source's arrays held the objects. An object that is also referenced from elsewhere (another stack, the caller's delta list) is not updated there.
- The `deltaSet &&` test of `rearrangeUndoStack` (frontend/js/undo.js:115) guards against holes in the array. The model's stacks have no holes. Every set is taken to hold at least one delta (`Rearrange.SetsValid`), so `deltaSet[0]` is always defined.
- `lastDeltas`, `$lastDelta` and `selections` are fields whose contents the engine only clears. Their element types are modelled loosely as an optional delta list, an optional delta and a list of ranges.
- Groups.SwapGroupsRollbackRestores: proved only when every swapped pair can be swapped back (`Groups.RunRestorable`; `Groups.SwapGroupsRollbackRestoresWhen` gives a simple sufficient condition). The source's rollback does not restore the sets in general: `Swapping.SwapBackAtBoundary` shows a pair and `Groups.SwapGroupsRollbackAtBoundary` a pair of sets for which it does not.
- Transform.Xform: its contract states content, order and the number of pieces, and that outside overlapping deletes x keeps its lines and marks. The positions are stated by lemmas only for two inserts (`Transform.XformInserts`, `Transform.XformInsertAbove`) and for overlapping deletes (`Transform.XformPiecesOutsideApplied`). For the mixed insert/delete cases they are given by the definition alone.
- Deltas.SplitDelta: JavaScript's `substring` and `substr` clamp their indices (`Deltas.Prefix`, `Deltas.Suffix`). `Deltas.SplitDeltaLines` states the rejoining of the cut line only when the cut column is not negative.
- Deltas.SplitDelta: lines are sequences of Dafny characters (Unicode scalar values), while JavaScript strings and the editor's columns count UTF-16 code units. On a line holding a character outside the Basic Multilingual Plane, the model cuts at a different place than `substring`/`substr` do (frontend/js/undo.js:314-316).
- Positions.ShiftPos: the source's `dir *` products are written as two branches, one for `dir` = 1 and one for `dir` = -1. `Positions.ShiftPosCoordinates` restates the products.
- Rebase.MoveDeltasByOne: it, `Rebase.SpliceParts`, `Rebase.RebaseSet`, `Rebase.RebaseRedoStack`, `Controller.RefreshRedo` and `Controller.UndoManager.Redo` follow the corrected splice of "## Findings". When `xform` cuts a queued delete in two, they differ from frontend/js/undo.js:222 as written, which `Rebase.StepAsWritten` models.
- Rearrange.BubbleMovesTarget: states where the sets end up only when every `swapGroups` succeeds. When one fails, `Rearrange.Bubble` still models the source, which carries on and returns true.

## Findings

| source | as written | input that shows it | evidently intended | confidence | as-written member | corrected member |
|---|---|---|---|---|---|---|
| frontend/js/undo.js:222 | when `xform` cuts a queued delete in two, `deltaSet.splice(i + 1, 1, xformed[1], xformed[2])` overwrites the delta after it with both pieces, while the first piece (the same object as `deltaSet[i]`) also stays at `i` | a set [x, y] with x a delete that strictly contains an applied delete c, and y any delta: the set becomes [first, first, second], so y is lost (for y an insert, neither piece can equal it) | replace `deltaSet[i]` by the two pieces (`splice(i, 1, …)`), keeping y: [first, second, y] | not executed | Rebase.StepAsWritten, Rebase.SpliceAsWrittenDropsSuccessor | Rebase.Step |
