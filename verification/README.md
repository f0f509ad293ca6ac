# Undo/redo history of the cell editor

This project models the undo/redo engine of a terminal spreadsheet (`undo_redo_cells.c`).
The engine records each edit of a cell as a pair of texts: the cell's expression before the edit and after it.
It keeps these records in one doubly linked chain. A permanent element without data, the sentinel, cuts the chain in two:

- the **applied** segment runs from the sentinel's `next` to `last`, oldest first. `last` is the next record to undo;
- the **undone** segment runs from `first` to the sentinel's `previous`. `first` is the next record to redo.

When a segment is empty, its cursor (`first` or `last`) is null; it never points at the sentinel.

The project has these parts:

- `history.dfy` (module `EditHistory`) is the meaning of the engine. It holds a history as two sequences of edits, with pure functions for create, record (`newItem`), undo, redo and the two "can" queries.
- `history_laws.dfy` (module `HistoryLaws`) holds the laws a caller relies on across several calls:
  - a fresh history is empty;
  - recording offers undo and drops redo;
  - undo and redo round trips;
  - records are conserved;
  - repeated undo and redo walk the timeline.
- `chain.dfy` (module `EditChain`) follows the C functions statement by statement, over a heap of elements addressed by numbers. `malloc` becomes a parameter: the address it returned, or `Null` for failure. `free` removes an address from the heap.
- `teardown.dfy` (module `ChainTeardown`) states what `UNDOREDOCELLS_free` releases.

`refinement.dfy` (module `ChainRefinement`) ties the abstract history and the chain together. The predicate `Represents(c, applied, undone)` states how the chain `c` threads the elements at the addresses `applied` and `undone`, and that the heap holds nothing else. Each C operation on a represented chain yields:

- the same status and the same text as the abstract operation;
- a chain that represents the abstract result.

## Model

| member | source | states |
|---|---|---|
| EditHistory.Create | undo_redo_cells.c:63-79 | a new history has an empty timeline |
| EditHistory.CanUndo | undo_redo_cells.c:144-148 | true exactly when some edit is applied, and exactly when `Undo` would succeed |
| EditHistory.CanRedo | undo_redo_cells.c:155-159 | true exactly when some edit is undone, and exactly when `Redo` would succeed |
| EditHistory.NewItem | undo_redo_cells.c:103-137 | the status is the allocation outcome. On failure the history is unchanged. On success the timeline is the applied edits followed by the new one, and the cursor sits at its end, so nothing is left to redo |
| EditHistory.Undo | undo_redo_cells.c:167-197 | succeeds exactly when the cursor is past the start. On failure the buffer and the history are unchanged. On success the timeline is kept, the cursor moves back one, and the old expression of the edit before the cursor is handed back |
| EditHistory.Redo | undo_redo_cells.c:205-233 | succeeds exactly when the cursor is before the end. On failure the buffer and the history are unchanged. On success the timeline is kept, the cursor moves forward one, and the new expression of the edit at the cursor is handed back |
| HistoryLaws.CreateIsEmpty | undo_redo_cells.c:73-76 | a fresh history offers neither undo nor redo; both fail and change nothing |
| HistoryLaws.NewItemThenUndo | undo_redo_cells.c:110-124 | after a record, undo is possible and redo is not; the next undo hands back the recorded old expression and leaves the earlier applied edits in place |
| HistoryLaws.NewItemInvalidatesRedo | undo_redo_cells.c:126-134 | after a record nothing can be redone, whatever the length of the undone segment; the applied edits stay in order in front of the new one |
| HistoryLaws.UndoRedoRoundTrip | undo_redo_cells.c:167-233 | a successful undo followed by a redo restores the history exactly; the redo hands back the new expression of the edit just undone |
| HistoryLaws.RedoUndoRoundTrip | undo_redo_cells.c:167-233 | a successful redo followed by an undo restores the history exactly; the undo hands back the old expression of the edit just redone |
| HistoryLaws.MovesConserveRecords | undo_redo_cells.c:172-194 | undo and redo keep the number of records and the multiset of records across both segments |
| HistoryLaws.UndoTimesWalksBack | undo_redo_cells.c:167-197 | `k` undos in a row keep the timeline and move the cursor back `min(k, cursor)` steps; they hand back the old expressions from the newest applied edit backwards, one per successful undo |
| HistoryLaws.UndoTimesStuck | undo_redo_cells.c:168 | with nothing to undo, any number of undos leaves the history unchanged |
| HistoryLaws.RedoTimesWalksForward | undo_redo_cells.c:205-233 | `k` redos in a row keep the timeline and move the cursor forward `k` steps, stopping at its end; they hand back the new expressions from the next undone edit onwards, one per successful redo |
| HistoryLaws.UndoTimesThenRedoTimes | undo_redo_cells.c:167-233 | undoing `k` applied edits and then redoing `k` edits restores the history |
| HistoryLaws.RecordAllOffersOnlyUndo | undo_redo_cells.c:103-137 | after any non-empty run of records, undo is possible and redo is not; the applied edits are the earlier ones followed by the recorded ones, in order |
| HistoryLaws.Session | undo_redo_cells.c:103-233 | its texts fit their buffers, and a worked session (record, record, undo, undo, redo, record) yields the expected texts and the expected undo/redo availability at every step |
| EditChain.SetNext | undo_redo_cells.c:117 | writing a `next` link changes no text and no address |
| EditChain.SetPrevious | undo_redo_cells.c:118 | writing a `previous` link changes no text and no address |
| EditChain.Create | undo_redo_cells.c:63-79 | the handle is live exactly when both allocations succeed; the heap then holds only the sentinel, and both cursors are null |
| EditChain.CanUndo | undo_redo_cells.c:144-148 | true only on a live handle. `ChainRefinement.CanRefine` states the full answer |
| EditChain.CanRedo | undo_redo_cells.c:155-159 | true only on a live handle. `ChainRefinement.CanRefine` states the full answer |
| EditChain.DiscardRedo | undo_redo_cells.c:126-134 | the loop only ever removes addresses from the heap |
| EditChain.NewItem | undo_redo_cells.c:103-137 | succeeds exactly when the handle is live and the allocation succeeded. On failure the handle is unchanged. On success the handle stays live with the same sentinel |
| EditChain.Undo | undo_redo_cells.c:167-197 | succeeds exactly when `canUndo` holds. On failure the buffer and the handle are unchanged. On success `last`'s old expression is handed back, and only links change |
| EditChain.Redo | undo_redo_cells.c:205-233 | succeeds exactly when `canRedo` holds. On failure the buffer and the handle are unchanged. On success `first`'s new expression is handed back, and only links change |
| ChainRefinement.CreateRefines | undo_redo_cells.c:63-79 | a created chain represents the empty history |
| ChainRefinement.CanRefine | undo_redo_cells.c:144-159 | on a represented chain `canUndo`/`canRedo` give the abstract answers; on a null handle both are false |
| ChainRefinement.DiscardRedoFreesUndone | undo_redo_cells.c:126-134 | the discard loop frees exactly the undone segment, whatever its length. It leaves `first` null, clears the sentinel's `previous` and changes no other element |
| ChainRefinement.NewItemRefines | undo_redo_cells.c:103-137 | on a represented chain, `newItem` returns the abstract status. On failure the chain is unchanged. On success the chain represents the abstract result, with the new element as the applied tail and no undone segment |
| ChainRefinement.UndoKeepsRepresentation | undo_redo_cells.c:167-197 | a successful undo moves the applied tail's address to the front of the undone segment; `last` becomes null when the applied segment empties |
| ChainRefinement.UndoRefines | undo_redo_cells.c:167-197 | on a represented chain, `undo` returns the abstract status and text. The resulting chain represents the abstract result; with nothing to undo it is unchanged |
| ChainRefinement.RedoKeepsRepresentation | undo_redo_cells.c:205-233 | a successful redo moves the undone head's address to the end of the applied segment; `first` becomes null when the undone segment empties |
| ChainRefinement.RedoRefines | undo_redo_cells.c:205-233 | on a represented chain, `redo` returns the abstract status and text. The resulting chain represents the abstract result; with nothing to redo it is unchanged |
| ChainRefinement.RepresentationDeterminesChain | undo_redo_cells.c:16-30 | two chains that represent the same address segments, with the same sentinel and texts, are identical link for link |
| ChainRefinement.UndoThenRedoRestoresChain | undo_redo_cells.c:167-233 | on a represented chain, undo followed by redo gives back the very same chain, and the redo hands back the new expression of the undone element |
| ChainRefinement.RedoThenUndoRestoresChain | undo_redo_cells.c:167-233 | on a represented chain, redo followed by undo gives back the very same chain, and the undo hands back the old expression of the redone element |
| EditChain.FreeElements | undo_redo_cells.c:40-53 | the walk only ever removes addresses from the heap; `ChainTeardown.FreeElementsFreesPath` states what it frees |
| EditChain.Free | undo_redo_cells.c:86-94 | teardown as written leaves allocated only elements that were already allocated |
| EditChain.FreeAll | undo_redo_cells.c:86-94 | corrected teardown, starting at the sentinel when nothing can be redone; it too only releases elements |
| ChainTeardown.FreeElementsFreesPath | undo_redo_cells.c:40-53 | from the head of a doubly linked path ending in a null `next`, `freeElements` frees exactly the path's elements and leaves every other element untouched |
| ChainTeardown.FreeReleasesEverythingWithRedo | undo_redo_cells.c:86-94 | when something can be redone, teardown as written frees the whole heap, sentinel included |
| ChainTeardown.FreeLeaksWithoutRedo | undo_redo_cells.c:86-94 | when nothing can be redone, teardown as written frees nothing: the sentinel and every applied element stay allocated |
| ChainTeardown.FreshEngineLeaksSentinel | undo_redo_cells.c:63-94 | tearing down a freshly created engine leaves its sentinel allocated |
| ChainTeardown.FreeAllReleasesEverything | undo_redo_cells.c:86-94 | the corrected teardown frees the whole heap of every represented chain |

## Left out

- Freeing the structure itself in `UNDOREDOCELLS_free` is not modelled: only the elements live in the heap. Its handle is required to be live, since the C function dereferences it unchecked.
- `spreadsheet.c` and `graphics_instructions.c` are not part of this model. They hold the ncurses interface; their only contact with the engine is choosing menu entries from `canUndo`/`canRedo`.
- The buffer overflow of `strcpy` is not modelled. `NewItem` requires each text to fit its 60-byte buffer (`EditHistory.FitsBuffer`), as the C code silently requires. A fitting text is a C string: at most 59 characters, each a single byte other than NUL. Multi-byte encodings and texts cut short at an interior NUL are therefore outside the model.
- The caller's expression buffer is modelled as an input string that the result returns, unchanged on failure; its size is not modelled.
- `malloc`: the addresses it returns, and its failures, are parameters of `EditChain.Create` and `EditChain.NewItem`.
- Dereferencing a null or dangling pointer is undefined behaviour in C. `EditChain` reads a blank element there, and writing through such a pointer does nothing. The refinement lemmas only apply the operations to represented chains, where this never happens.
- When the freeing loops of `newItem` and `freeElements` meet a null or dangling `previous`, the model stops so that it terminates. C would go on: `free(NULL)` is a no-op, and a dangling pointer is undefined behaviour. A represented chain never reaches this case.
- `Element` (undo_redo_cells.c:16-21) holds no cell coordinate, so an edit in the model carries only the two expressions.
- `Represents` and `Abstraction` are ghost: the address sequences a chain threads are lemma parameters, not part of the chain.
- EditChain.FreeElements: its own contract says only that the heap shrinks. What it frees is stated by `ChainTeardown.FreeElementsFreesPath`.
- EditChain.DiscardRedo: its own contract says only that the heap shrinks. What the loop does to a well-formed chain is stated by `ChainRefinement.DiscardRedoFreesUndone`.
- EditChain.CanUndo: its own contract says only that a null handle cannot undo. The exact answer is stated against the abstract history by `ChainRefinement.CanRefine`.
- EditChain.CanRedo: weaker for the same reason as `CanUndo`, and stated fully by `ChainRefinement.CanRefine`.
- EditChain.NewItem: its own contract states only the status, the failure case and that the sentinel stays. That the new element becomes the applied tail and the undone segment is freed is stated, for a represented chain, by `ChainRefinement.NewItemRefines` and `ChainRefinement.DiscardRedoFreesUndone`.
- EditChain.Undo: its own contract states the status, the text handed back, and that only links change. That the applied tail becomes the undone head is stated, for a represented chain, by `ChainRefinement.UndoKeepsRepresentation` and `ChainRefinement.UndoRefines`.
- EditChain.Redo: its own contract states the status, the text handed back, and that only links change. That the undone head becomes the applied tail is stated, for a represented chain, by `ChainRefinement.RedoKeepsRepresentation` and `ChainRefinement.RedoRefines`.
- EditChain.Free: its own contract says only that the heap it leaves is part of the heap it was given. What it releases is stated, for a represented chain, by `ChainTeardown.FreeReleasesEverythingWithRedo` and `ChainTeardown.FreeLeaksWithoutRedo`.
- EditChain.FreeAll: its own contract says only that the heap it leaves is part of the heap it was given. That it releases everything is stated, for a represented chain, by `ChainTeardown.FreeAllReleasesEverything`.

## Findings

| source | as written | input that shows it | evidently intended | confidence | as-written member | corrected member |
|---|---|---|---|---|---|---|
| undo_redo_cells.c:86-94 | `UNDOREDOCELLS_free` starts freeing at `first`, which is null whenever nothing can be redone, so then it frees no element at all | create an engine, record one edit, tear it down: the sentinel and the recorded element stay allocated (`create` followed by `free` already leaks the sentinel) | free every element and the sentinel; the function's comment says it frees the queue | high; not executed | ChainTeardown.FreeLeaksWithoutRedo | ChainTeardown.FreeAllReleasesEverything |

`EditChain.Free` is the teardown as written, and `EditChain.FreeAll` is the corrected one. `FreeAll` starts at the sentinel when `first` is null: from the sentinel the `next` links reach every applied element.
