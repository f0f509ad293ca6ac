/** Laws of the abstract undo/redo history: what a caller of the engine may
    rely on across several calls. */
module HistoryLaws {
  import opened EditHistory

  /** A history is fully described by its timeline and its cursor. */
  lemma SplitTimeline(h: History)
    ensures h == History(Timeline(h)[..Cursor(h)], Timeline(h)[Cursor(h)..])
  {
    assert Timeline(h)[..Cursor(h)] == h.applied;
    assert Timeline(h)[Cursor(h)..] == h.undone;
  }

  /** Two histories with the same timeline and cursor are the same history. */
  lemma {:induction false} SameTimelineSameHistory(h: History, g: History)
    requires Timeline(h) == Timeline(g) && Cursor(h) == Cursor(g)
    ensures h == g
  {
    SplitTimeline(h);
    SplitTimeline(g);
  }

  /** A freshly created history offers neither undo nor redo. */
  lemma CreateIsEmpty(buffer: string)
    ensures !CanUndo(Create()) && !CanRedo(Create())
    ensures Undo(Create(), buffer) == Moved(false, buffer, Create())
    ensures Redo(Create(), buffer) == Moved(false, buffer, Create())
  {
  }

  /** After a successful record, the next undo hands back the recorded old
      expression and nothing can be redone before it. */
  lemma NewItemThenUndo(h: History, oldExpression: string, newExpression: string, buffer: string)
    requires FitsBuffer(oldExpression) && FitsBuffer(newExpression)
    ensures var g := NewItem(h, oldExpression, newExpression, true).history;
      && CanUndo(g) && !CanRedo(g)
      && Undo(g, buffer) == Moved(true, oldExpression, History(h.applied, [Edit(oldExpression, newExpression)]))
  {
    var g := NewItem(h, oldExpression, newExpression, true).history;
    SplitTimeline(g);
    assert g.applied[..|g.applied| - 1] == h.applied;
  }

  /** Recording drops the whole redo segment, however long, and keeps the
      applied edits in order in front of the new one. */
  lemma {:induction false} NewItemInvalidatesRedo(h: History, oldExpression: string, newExpression: string)
    requires FitsBuffer(oldExpression) && FitsBuffer(newExpression)
    ensures var g := NewItem(h, oldExpression, newExpression, true).history;
      && !CanRedo(g)
      && g.applied[..|h.applied|] == h.applied
      && g.applied[|h.applied|] == Edit(oldExpression, newExpression)
  {
    var g := NewItem(h, oldExpression, newExpression, true).history;
    SplitTimeline(g);
  }

  /** Undo then redo puts the history back exactly, and the redo hands back
      the new expression of the edit just undone. */
  lemma {:induction false} UndoRedoRoundTrip(h: History, buffer: string, buffer': string)
    requires CanUndo(h)
    ensures var u := Undo(h, buffer);
      var r := Redo(u.history, buffer');
      && r.ok
      && r.history == h
      && r.expression == h.applied[|h.applied| - 1].newExpression
  {
    var u := Undo(h, buffer);
    var r := Redo(u.history, buffer');
    SameTimelineSameHistory(r.history, h);
  }

  /** Redo then undo puts the history back exactly, and the undo hands back
      the old expression of the edit just redone. */
  lemma {:induction false} RedoUndoRoundTrip(h: History, buffer: string, buffer': string)
    requires CanRedo(h)
    ensures var r := Redo(h, buffer);
      var u := Undo(r.history, buffer');
      && u.ok
      && u.history == h
      && u.expression == h.undone[0].oldExpression
  {
    var r := Redo(h, buffer);
    var u := Undo(r.history, buffer');
    SameTimelineSameHistory(u.history, h);
  }

  /** Undo and redo never create nor lose a record. */
  lemma {:induction false} MovesConserveRecords(h: History, buffer: string)
    ensures var u := Undo(h, buffer).history;
      |u.applied| + |u.undone| == |h.applied| + |h.undone|
      && multiset(u.applied + u.undone) == multiset(h.applied + h.undone)
    ensures var r := Redo(h, buffer).history;
      |r.applied| + |r.undone| == |h.applied| + |h.undone|
      && multiset(r.applied + r.undone) == multiset(h.applied + h.undone)
  {
    assert Timeline(Undo(h, buffer).history) == Timeline(h);
    assert Timeline(Redo(h, buffer).history) == Timeline(h);
  }

  /** `k` undos in a row (failed ones included). */
  function UndoTimes(h: History, k: nat): History
    decreases k
  {
    if k == 0 then h else UndoTimes(Undo(h, "").history, k - 1)
  }

  /** The expressions handed back by `k` undos in a row, one per successful undo. */
  function UndoOutputs(h: History, k: nat): seq<string>
    decreases k
  {
    if k == 0 || !CanUndo(h) then []
    else [Undo(h, "").expression] + UndoOutputs(Undo(h, "").history, k - 1)
  }

  /** `k` redos in a row (failed ones included). */
  function RedoTimes(h: History, k: nat): History
    decreases k
  {
    if k == 0 then h else RedoTimes(Redo(h, "").history, k - 1)
  }

  /** The expressions handed back by `k` redos in a row, one per successful redo. */
  function RedoOutputs(h: History, k: nat): seq<string>
    decreases k
  {
    if k == 0 || !CanRedo(h) then []
    else [Redo(h, "").expression] + RedoOutputs(Redo(h, "").history, k - 1)
  }

  function Min(a: int, b: int): int {
    if a <= b then a else b
  }

  /** Undoing `k` times walks the cursor back `k` steps, stopping at the
      start of the timeline, and hands back the old expressions from the
      newest applied edit backwards. */
  lemma {:induction false} UndoTimesWalksBack(h: History, k: nat)
    ensures Timeline(UndoTimes(h, k)) == Timeline(h)
    ensures Cursor(UndoTimes(h, k)) == if k <= Cursor(h) then Cursor(h) - k else 0
    ensures |UndoOutputs(h, k)| == Min(k, Cursor(h))
    ensures forall i :: 0 <= i < |UndoOutputs(h, k)| ==>
      UndoOutputs(h, k)[i] == Timeline(h)[Cursor(h) - 1 - i].oldExpression
    decreases k
  {
    if k == 0 || !CanUndo(h) {
      if k != 0 {
        UndoTimesStuck(h, k);
      }
    } else {
      var g := Undo(h, "").history;
      UndoTimesWalksBack(g, k - 1);
    }
  }

  /** With nothing to undo, undoing again changes nothing. */
  lemma {:induction false} UndoTimesStuck(h: History, k: nat)
    requires !CanUndo(h)
    ensures UndoTimes(h, k) == h
    decreases k
  {
    if k != 0 {
      UndoTimesStuck(Undo(h, "").history, k - 1);
    }
  }

  /** Redoing `k` times walks the cursor forward `k` steps, stopping at the
      end of the timeline, and hands back the new expressions from the next
      undone edit onwards. */
  lemma {:induction false} RedoTimesWalksForward(h: History, k: nat)
    ensures Timeline(RedoTimes(h, k)) == Timeline(h)
    ensures Cursor(RedoTimes(h, k)) == Min(Cursor(h) + k, |Timeline(h)|)
    ensures |RedoOutputs(h, k)| == Min(k, |Timeline(h)| - Cursor(h))
    ensures forall i :: 0 <= i < |RedoOutputs(h, k)| ==>
      RedoOutputs(h, k)[i] == Timeline(h)[Cursor(h) + i].newExpression
    decreases k
  {
    if k != 0 {
      RedoTimesWalksForward(Redo(h, "").history, k - 1);
    }
  }

  /** Undoing `k` edits and redoing `k` edits restores the history. */
  lemma UndoTimesThenRedoTimes(h: History, k: nat)
    requires k <= |h.applied|
    ensures RedoTimes(UndoTimes(h, k), k) == h
  {
    UndoTimesWalksBack(h, k);
    RedoTimesWalksForward(UndoTimes(h, k), k);
    SameTimelineSameHistory(RedoTimes(UndoTimes(h, k), k), h);
  }

  /** Records a sequence of edits with no undo in between (allocation
      always succeeding). */
  function RecordAll(h: History, edits: seq<Edit>): History
    requires forall i :: 0 <= i < |edits| ==>
      FitsBuffer(edits[i].oldExpression) && FitsBuffer(edits[i].newExpression)
    decreases |edits|
  {
    if edits == [] then h
    else RecordAll(NewItem(h, edits[0].oldExpression, edits[0].newExpression, true).history, edits[1..])
  }

  /** After any non-empty run of records, undo is possible and redo is not,
      and the recorded edits follow the ones applied before, in order. */
  lemma {:induction false} RecordAllOffersOnlyUndo(h: History, edits: seq<Edit>)
    requires forall i :: 0 <= i < |edits| ==>
      FitsBuffer(edits[i].oldExpression) && FitsBuffer(edits[i].newExpression)
    requires edits != []
    ensures CanUndo(RecordAll(h, edits)) && !CanRedo(RecordAll(h, edits))
    ensures RecordAll(h, edits).applied == h.applied + edits
    decreases |edits|
  {
    var g := NewItem(h, edits[0].oldExpression, edits[0].newExpression, true).history;
    SplitTimeline(g);
    if |edits| == 1 {
      assert RecordAll(g, edits[1..]) == g;
    } else {
      RecordAllOffersOnlyUndo(g, edits[1..]);
      assert g.applied + edits[1..] == h.applied + edits;
    }
  }

  /** The worked session of the editor: two records of the same cell, two
      undos, a redo and a fresh record. */
  lemma Session()
    ensures FitsBuffer("") && FitsBuffer("=1+2") && FitsBuffer("=3+4") && FitsBuffer("=5")
    ensures var h0 := Create();
      var h1 := NewItem(h0, "", "=1+2", true).history;
      var h2 := NewItem(h1, "=1+2", "=3+4", true).history;
      var d := Undo(h2, "");
      var e := Undo(d.history, "");
      var f := Redo(e.history, "");
      var h6 := NewItem(f.history, "=1+2", "=5", true).history;
      && !CanUndo(h0) && !CanRedo(h0)
      && CanUndo(h1) && !CanRedo(h1)
      && CanUndo(h2) && !CanRedo(h2)
      && d.expression == "=1+2" && CanUndo(d.history) && CanRedo(d.history)
      && e.expression == "" && !CanUndo(e.history) && CanRedo(e.history)
      && f.expression == "=1+2" && CanUndo(f.history) && CanRedo(f.history)
      && CanUndo(h6) && !CanRedo(h6)
  {
  }
}
