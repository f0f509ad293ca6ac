/** The abstract undo/redo history of the cell editor.

    The engine keeps one doubly linked chain cut in two by a sentinel; what it
    means is a pair of sequences:
    - `applied`: the edits in effect, oldest first; its last element is the
      next one to undo;
    - `undone`: the edits rolled back, in redo order; its first element is the
      next one to redo.
    Each edit carries only the text of the cell before and after it: the
    engine stores no cell coordinate.
 */
module EditHistory {

  /** Size of the character buffers of a record, terminator included. */
  const BufferSize: nat := 60

  /** A text `strcpy` can copy into a record buffer without overflowing it
      and without cutting it short: a C string of single-byte characters,
      none of them the terminating NUL, with room left for the terminator. */
  predicate FitsBuffer(s: string) {
    && |s| < BufferSize
    && forall i :: 0 <= i < |s| ==> 0 < s[i] as int < 256
  }

  /** One recorded edit: the cell's expression before and after it. */
  datatype Edit = Edit(oldExpression: string, newExpression: string)

  datatype History = History(applied: seq<Edit>, undone: seq<Edit>)

  /** Result of recording an edit: the status the engine returns (1 is true,
      0 is false) and the history afterwards. */
  datatype Recorded = Recorded(ok: bool, history: History)

  /** Result of an undo or a redo: the status, the caller's expression buffer
      afterwards, and the history afterwards. */
  datatype Moved = Moved(ok: bool, expression: string, history: History)

  /** Every edit ever recorded and still reachable, in chronological order.
      Undo and redo only move the split point inside it. */
  function Timeline(h: History): seq<Edit> {
    h.applied + h.undone
  }

  /** Position of the split point inside the timeline. */
  function Cursor(h: History): nat {
    |h.applied|
  }

  function Create(): (h: History)
    ensures Timeline(h) == []
  {
    History([], [])
  }

  /** Undo is possible exactly when `Undo` would succeed. */
  function CanUndo(h: History): (b: bool)
    ensures b <==> Cursor(h) > 0
    ensures forall buffer: string {:trigger Undo(h, buffer)} :: b <==> Undo(h, buffer).ok
  {
    h.applied != []
  }

  /** Redo is possible exactly when `Redo` would succeed. */
  function CanRedo(h: History): (b: bool)
    ensures b <==> Cursor(h) < |Timeline(h)|
    ensures forall buffer: string {:trigger Redo(h, buffer)} :: b <==> Redo(h, buffer).ok
  {
    h.undone != []
  }

  /** Records a new edit. `allocOk` is false when the record could not be
      allocated: the engine then reports failure and changes nothing.
      Otherwise the edit becomes the newest applied one and every undone edit
      is dropped. */
  function NewItem(h: History, oldExpression: string, newExpression: string, allocOk: bool): (r: Recorded)
    requires FitsBuffer(oldExpression) && FitsBuffer(newExpression)
    ensures r.ok == allocOk
    ensures !r.ok ==> r.history == h
    ensures r.ok ==> Timeline(r.history) == h.applied + [Edit(oldExpression, newExpression)]
    ensures r.ok ==> Cursor(r.history) == |Timeline(r.history)|
  {
    if !allocOk then Recorded(false, h)
    else Recorded(true, History(h.applied + [Edit(oldExpression, newExpression)], []))
  }

  /** Undoes the newest applied edit: yields its old expression and moves it
      to the front of the undone edits. With nothing to undo it fails and
      leaves both the history and the caller's buffer as they were. */
  function Undo(h: History, buffer: string): (r: Moved)
    ensures r.ok <==> Cursor(h) > 0
    ensures !r.ok ==> r.expression == buffer && r.history == h
    ensures r.ok ==> Timeline(r.history) == Timeline(h) && Cursor(r.history) == Cursor(h) - 1
    ensures r.ok ==> r.expression == Timeline(h)[Cursor(h) - 1].oldExpression
  {
    if h.applied == [] then Moved(false, buffer, h)
    else
      var e := h.applied[|h.applied| - 1];
      Moved(true, e.oldExpression, History(h.applied[..|h.applied| - 1], [e] + h.undone))
  }

  /** Redoes the next undone edit: yields its new expression and appends it to
      the applied edits. With nothing to redo it fails and leaves both the
      history and the caller's buffer as they were. */
  function Redo(h: History, buffer: string): (r: Moved)
    ensures r.ok <==> Cursor(h) < |Timeline(h)|
    ensures !r.ok ==> r.expression == buffer && r.history == h
    ensures r.ok ==> Timeline(r.history) == Timeline(h) && Cursor(r.history) == Cursor(h) + 1
    ensures r.ok ==> r.expression == Timeline(h)[Cursor(h)].newExpression
  {
    if h.undone == [] then Moved(false, buffer, h)
    else
      var e := h.undone[0];
      Moved(true, e.newExpression, History(h.applied + [e], h.undone[1..]))
  }
}
