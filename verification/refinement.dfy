/** The linked chain means the abstract history.

    `Represents(c, applied, undone)` says that the chain `c` threads the
    elements at the addresses `applied` (oldest first) and `undone` (redo
    order) exactly as the engine's comments describe, with nothing else in
    its heap but the sentinel. Each lemma below shows that a C operation,
    run on a chain that represents some history, yields a chain that
    represents what the abstract operation yields, and returns the same
    status and text.
 */
module ChainRefinement {
  import EditHistory
  import opened EditChain

  function Addresses(ids: seq<nat>): set<nat> {
    set a | a in ids
  }

  predicate NoDuplicates(ids: seq<nat>) {
    forall i, j :: 0 <= i < j < |ids| ==> ids[i] != ids[j]
  }

  /** Where `previous` of the `i`th applied element must point. */
  function AppliedPrevious(s: nat, applied: seq<nat>, i: nat): Ptr
    requires i < |applied|
  {
    if i == 0 then Ref(s) else Ref(applied[i - 1])
  }

  /** Where `next` of the `i`th applied element must point. */
  function AppliedNext(applied: seq<nat>, i: nat): Ptr
    requires i < |applied|
  {
    if i == |applied| - 1 then Null else Ref(applied[i + 1])
  }

  /** Where `previous` of the `i`th undone element must point. */
  function UndonePrevious(undone: seq<nat>, i: nat): Ptr
    requires i < |undone|
  {
    if i == 0 then Null else Ref(undone[i - 1])
  }

  /** Where `next` of the `i`th undone element must point. */
  function UndoneNext(s: nat, undone: seq<nat>, i: nat): Ptr
    requires i < |undone|
  {
    if i == |undone| - 1 then Ref(s) else Ref(undone[i + 1])
  }

  /** The applied segment: from the sentinel's `next` to `last`, linked both ways. */
  ghost predicate AppliedSegment(h: Heap, last: Ptr, s: nat, applied: seq<nat>) {
    && s in h
    && (forall i :: 0 <= i < |applied| ==> applied[i] in h)
    && last == (if applied == [] then Null else Ref(applied[|applied| - 1]))
    && h[s].next == (if applied == [] then Null else Ref(applied[0]))
    && (forall i :: 0 <= i < |applied| ==> h[applied[i]].previous == AppliedPrevious(s, applied, i))
    && (forall i :: 0 <= i < |applied| ==> h[applied[i]].next == AppliedNext(applied, i))
  }

  /** The undone segment: from `first` to the sentinel's `previous`, linked
      both ways, with `first->previous` null and the innermost `next` at the
      sentinel. */
  ghost predicate UndoneSegment(h: Heap, first: Ptr, s: nat, undone: seq<nat>) {
    && s in h
    && (forall i :: 0 <= i < |undone| ==> undone[i] in h)
    && first == (if undone == [] then Null else Ref(undone[0]))
    && h[s].previous == (if undone == [] then Null else Ref(undone[|undone| - 1]))
    && (forall i :: 0 <= i < |undone| ==> h[undone[i]].previous == UndonePrevious(undone, i))
    && (forall i :: 0 <= i < |undone| ==> h[undone[i]].next == UndoneNext(s, undone, i))
  }

  /** The representation invariant in the form the proofs use: the heap's
      addresses are exactly the threaded ones and the sentinel. */
  ghost predicate Threads(c: Chain, applied: seq<nat>, undone: seq<nat>) {
    && NoDuplicates(applied + undone)
    && c.sentinel !in applied + undone
    && c.heap.Keys == Addresses(applied + undone) + {c.sentinel}
    && AppliedSegment(c.heap, c.last, c.sentinel, applied)
    && UndoneSegment(c.heap, c.first, c.sentinel, undone)
  }

  /** The representation invariant of the engine: both segments are threaded
      as described, no address is threaded twice nor is the sentinel, and the
      heap holds nothing else, having one element per threaded address plus
      the sentinel. */
  ghost predicate Represents(c: Chain, applied: seq<nat>, undone: seq<nat>) {
    && NoDuplicates(applied + undone)
    && c.sentinel !in applied + undone
    && |c.heap| == |applied| + |undone| + 1
    && AppliedSegment(c.heap, c.last, c.sentinel, applied)
    && UndoneSegment(c.heap, c.first, c.sentinel, undone)
  }

  /** Distinct addresses make a set of the same size. */
  lemma {:induction false} AddressesCount(ids: seq<nat>)
    requires NoDuplicates(ids)
    ensures |Addresses(ids)| == |ids|
    decreases |ids|
  {
    if ids == [] {
      assert Addresses(ids) == {};
    } else {
      var n := |ids| - 1;
      var prefix := ids[..n];
      assert NoDuplicates(prefix);
      AddressesCount(prefix);
      assert Addresses(ids) == Addresses(prefix) + {ids[n]};
      forall a | a in Addresses(prefix)
        ensures a != ids[n]
      {
        var k :| 0 <= k < n && prefix[k] == a;
        assert ids[k] == a;
      }
    }
  }

  /** A subset as large as its superset is the whole superset. */
  lemma SubsetOfSameSize(x: set<nat>, y: set<nat>)
    requires x <= y && |x| == |y|
    ensures x == y
  {
    var rest := y - x;
    assert y == x + rest;
    assert x * rest == {};
  }

  /** Every threaded address and the sentinel are in the heap. */
  lemma ThreadedInHeap(c: Chain, applied: seq<nat>, undone: seq<nat>)
    requires AppliedSegment(c.heap, c.last, c.sentinel, applied)
    requires UndoneSegment(c.heap, c.first, c.sentinel, undone)
    ensures Addresses(applied + undone) + {c.sentinel} <= c.heap.Keys
  {
    forall a | a in Addresses(applied + undone)
      ensures a in c.heap
    {
      var k :| 0 <= k < |applied + undone| && (applied + undone)[k] == a;
      if k < |applied| {
        assert applied[k] == a;
      } else {
        assert undone[k - |applied|] == a;
      }
    }
  }

  /** Counting the heap's elements is the same as listing its addresses. */
  lemma RepresentsIsThreads(c: Chain, applied: seq<nat>, undone: seq<nat>)
    ensures Represents(c, applied, undone) <==> Threads(c, applied, undone)
  {
    if Represents(c, applied, undone) || Threads(c, applied, undone) {
      var keys := Addresses(applied + undone) + {c.sentinel};
      AddressesCount(applied + undone);
      assert |keys| == |applied| + |undone| + 1;
      ThreadedInHeap(c, applied, undone);
      assert |c.heap| == |c.heap.Keys|;
      if Represents(c, applied, undone) {
        SubsetOfSameSize(keys, c.heap.Keys);
      }
    }
  }

  /** The edits stored at `ids`, in order. */
  function Edits(h: Heap, ids: seq<nat>): seq<EditHistory.Edit>
    requires forall i :: 0 <= i < |ids| ==> ids[i] in h
  {
    seq(|ids|, i requires 0 <= i < |ids| =>
      EditHistory.Edit(h[ids[i]].oldExpression, h[ids[i]].newExpression))
  }

  /** The abstract history a chain represents. */
  ghost function Abstraction(c: Chain, applied: seq<nat>, undone: seq<nat>): EditHistory.History
    requires Represents(c, applied, undone)
  {
    EditHistory.History(Edits(c.heap, applied), Edits(c.heap, undone))
  }

  /** Two heaps that store the same texts at `ids` hold the same edits there. */
  lemma EditsAgree(h: Heap, h': Heap, ids: seq<nat>)
    requires forall i :: 0 <= i < |ids| ==> ids[i] in h && ids[i] in h'
    requires forall i :: 0 <= i < |ids| ==>
      h'[ids[i]].oldExpression == h[ids[i]].oldExpression && h'[ids[i]].newExpression == h[ids[i]].newExpression
    ensures Edits(h', ids) == Edits(h, ids)
  {
  }

  /** Relinking keeps the edits stored at every address. */
  lemma EditsKeepTexts(h: Heap, h': Heap, ids: seq<nat>)
    requires forall i :: 0 <= i < |ids| ==> ids[i] in h
    requires SameTexts(h, h')
    ensures forall i :: 0 <= i < |ids| ==> ids[i] in h'
    ensures Edits(h', ids) == Edits(h, ids)
  {
    EditsAgree(h, h', ids);
  }

  /** `Edits` distributes over concatenation. */
  lemma EditsAppend(h: Heap, ids: seq<nat>, ids': seq<nat>)
    requires forall i :: 0 <= i < |ids| ==> ids[i] in h
    requires forall i :: 0 <= i < |ids'| ==> ids'[i] in h
    ensures forall i :: 0 <= i < |ids + ids'| ==> (ids + ids')[i] in h
    ensures Edits(h, ids + ids') == Edits(h, ids) + Edits(h, ids')
  {
  }

  /** `Edits` commutes with taking a prefix. */
  lemma EditsPrefix(h: Heap, ids: seq<nat>, k: nat)
    requires forall i :: 0 <= i < |ids| ==> ids[i] in h
    requires k <= |ids|
    ensures Edits(h, ids[..k]) == Edits(h, ids)[..k]
  {
  }

  /** A fresh engine represents the empty history. */
  lemma CreateRefines(structOk: bool, sentinelBlock: Ptr)
    ensures var hd := Create(structOk, sentinelBlock);
      hd.Live? ==> Represents(hd.chain, [], []) && Abstraction(hd.chain, [], []) == EditHistory.Create()
  {
    var hd := Create(structOk, sentinelBlock);
    if hd.Live? {
      assert |hd.chain.heap| == |hd.chain.heap.Keys|;
    }
  }

  /** `canUndo`/`canRedo` answer the abstract questions; a null handle can do
      neither. */
  lemma CanRefine(hd: Handle, applied: seq<nat>, undone: seq<nat>)
    requires hd.Live? ==> Represents(hd.chain, applied, undone)
    ensures hd.Nil? ==> !CanUndo(hd) && !CanRedo(hd)
    ensures hd.Live? ==> CanUndo(hd) == EditHistory.CanUndo(Abstraction(hd.chain, applied, undone))
    ensures hd.Live? ==> CanRedo(hd) == EditHistory.CanRedo(Abstraction(hd.chain, applied, undone))
  {
  }

  /** Where one turn of the discard loop moves `first`. */
  function NextFirst(s: nat, undone: seq<nat>): Ptr
    requires undone != []
  {
    if |undone| == 1 then Ref(s) else Ref(undone[1])
  }

  /** The heap after one turn of the discard loop. */
  function HeapAfterDiscardTurn(h: Heap, s: nat, undone: seq<nat>): Heap
    requires undone != []
  {
    SetPrevious(h - {undone[0]}, NextFirst(s, undone), Null)
  }

  /** One turn of the discard loop frees the head of the undone segment. */
  lemma DiscardTurn(h: Heap, first: Ptr, s: nat, undone: seq<nat>)
    requires UndoneSegment(h, first, s, undone)
    requires NoDuplicates(undone) && s !in undone && undone != []
    ensures DiscardRedo(h, first, s)
      == DiscardRedo(HeapAfterDiscardTurn(h, s, undone), if |undone| == 1 then Null else NextFirst(s, undone), s)
  {
    var u := undone[0];
    assert first == Ref(u) && u in h;
    assert h[u].next == UndoneNext(s, undone, 0);
    var next := Deref(h, first).next;
    assert next == NextFirst(s, undone);
    if |undone| > 1 {
      assert h[undone[1]].previous == UndonePrevious(undone, 1);
    }
    assert Deref(h, next).previous == Ref(u);
  }

  /** After one turn of the discard loop the rest of the undone segment is
      still a well-formed undone segment. */
  lemma DiscardTurnKeepsSegment(h: Heap, first: Ptr, s: nat, undone: seq<nat>)
    requires UndoneSegment(h, first, s, undone)
    requires NoDuplicates(undone) && s !in undone && undone != []
    ensures UndoneSegment(HeapAfterDiscardTurn(h, s, undone),
      if |undone| == 1 then Null else NextFirst(s, undone), s, undone[1..])
  {
    var u := undone[0];
    var h2 := HeapAfterDiscardTurn(h, s, undone);
    var rest := undone[1..];
    forall i | 0 <= i < |rest|
      ensures rest[i] in h2
      ensures h2[rest[i]].previous == UndonePrevious(rest, i)
      ensures h2[rest[i]].next == UndoneNext(s, rest, i)
    {
      assert rest[i] == undone[i + 1] && rest[i] != u;
      assert h[undone[i + 1]].next == UndoneNext(s, undone, i + 1);
    }
    if |undone| > 1 {
      assert undone[|undone| - 1] != u;
    }
  }

  /** The loop of `newItem` frees exactly the undone segment, leaves `first`
      null and clears the sentinel's `previous`; nothing else changes. */
  lemma {:induction false} DiscardRedoFreesUndone(h: Heap, first: Ptr, s: nat, undone: seq<nat>)
    requires UndoneSegment(h, first, s, undone)
    requires NoDuplicates(undone) && s !in undone
    ensures var (h', first') := DiscardRedo(h, first, s);
      && first' == Null
      && h'.Keys == h.Keys - Addresses(undone)
      && s in h' && h'[s] == h[s].(previous := Null)
      && forall a :: a in h' && a != s ==> h'[a] == h[a]
    decreases |undone|
  {
    if undone == [] {
      assert Addresses(undone) == {};
    } else {
      var u := undone[0];
      var h2 := HeapAfterDiscardTurn(h, s, undone);
      var first2 := if |undone| == 1 then Null else NextFirst(s, undone);
      var rest := undone[1..];
      DiscardTurn(h, first, s, undone);
      DiscardTurnKeepsSegment(h, first, s, undone);
      assert NoDuplicates(rest);
      DiscardRedoFreesUndone(h2, first2, s, rest);
      assert Addresses(undone) == {u} + Addresses(rest);
    }
  }

  /** The addresses of the two segments after an undo. */
  function UndoneAddresses(applied: seq<nat>, undone: seq<nat>): (seq<nat>, seq<nat>) {
    if applied == [] then (applied, undone)
    else (applied[..|applied| - 1], [applied[|applied| - 1]] + undone)
  }

  /** The heap after an undo onto an empty undone segment, written out:
      `x` is the element undone and `last` its applied predecessor. */
  function HeapAfterUndoOntoEmpty(h: Heap, s: nat, x: nat, last: nat): (h': Heap)
    requires x in h && s in h && last in h
    ensures h'.Keys == h.Keys
  {
    var h1 := h[x := h[x].(next := Ref(s), previous := Null)];
    var h2 := h1[s := h1[s].(previous := Ref(x))];
    h2[last := h2[last].(next := Null)]
  }

  /** The heap after an undo onto a non-empty undone segment whose head is `u`. */
  function HeapAfterUndoOntoRedo(h: Heap, x: nat, u: nat, last: nat): (h': Heap)
    requires x in h && u in h && last in h
    ensures h'.Keys == h.Keys
  {
    var h1 := h[u := h[u].(previous := Ref(x))];
    var h2 := h1[x := h1[x].(next := Ref(u), previous := Null)];
    h2[last := h2[last].(next := Null)]
  }

  /** What `undo` computes when the undone segment is empty, in terms of the
      four pointers it reads. */
  lemma UndoOntoEmptyComputes(c: Chain, buffer: string, x: nat, last: nat)
    requires c.first == Null && c.last == Ref(x) && x != c.sentinel && x != last
    requires x in c.heap && last in c.heap && c.sentinel in c.heap
    requires c.heap[x].previous == Ref(last) && c.heap[last].next == Ref(x)
    ensures Undo(Live(c), buffer) == ChainMoved(true, c.heap[x].oldExpression,
      Live(Chain(HeapAfterUndoOntoEmpty(c.heap, c.sentinel, x, last), Ref(x),
        if last == c.sentinel then Null else Ref(last), c.sentinel)))
  {
  }

  /** What `undo` computes when the undone segment starts at `u`. */
  lemma UndoOntoRedoComputes(c: Chain, buffer: string, x: nat, u: nat, last: nat)
    requires c.first == Ref(u) && c.last == Ref(x) && x != u && x != last && u != last
    requires x in c.heap && last in c.heap && u in c.heap
    requires c.heap[x].previous == Ref(last) && c.heap[last].next == Ref(x)
    ensures Undo(Live(c), buffer) == ChainMoved(true, c.heap[x].oldExpression,
      Live(Chain(HeapAfterUndoOntoRedo(c.heap, x, u, last), Ref(x),
        if last == c.sentinel then Null else Ref(last), c.sentinel)))
  {
  }

  /** The applied predecessor of the applied tail: the element before it,
      or the sentinel. */
  lemma AppliedTailLinks(c: Chain, applied: seq<nat>, undone: seq<nat>)
    requires Threads(c, applied, undone) && applied != []
    ensures var n := |applied|;
      var last := if n == 1 then c.sentinel else applied[n - 2];
      && c.last == Ref(applied[n - 1])
      && applied[n - 1] in c.heap && last in c.heap
      && applied[n - 1] != c.sentinel && applied[n - 1] != last
      && c.heap[applied[n - 1]].previous == Ref(last)
      && c.heap[last].next == Ref(applied[n - 1])
  {
    var n := |applied|;
    assert (applied + undone)[n - 1] == applied[n - 1];
    assert c.heap[applied[n - 1]].previous == AppliedPrevious(c.sentinel, applied, n - 1);
    if n > 1 {
      assert (applied + undone)[n - 2] == applied[n - 2];
      assert c.heap[applied[n - 2]].next == AppliedNext(applied, n - 2);
    }
  }

  /** Dropping the tail of an applied segment: if every other element keeps
      its links, except that the new tail's `next` is cleared (the
      sentinel's, when the segment empties), the rest is an applied segment. */
  lemma AppliedSegmentDropTail(h: Heap, h': Heap, s: nat, applied: seq<nat>)
    requires applied != [] && AppliedSegment(h, Ref(applied[|applied| - 1]), s, applied)
    requires NoDuplicates(applied) && s !in applied
    requires s in h' && h'[s].next == (if |applied| == 1 then Null else h[s].next)
    requires forall i :: 0 <= i < |applied| - 1 ==> applied[i] in h'
    requires forall i :: 0 <= i < |applied| - 1 ==> h'[applied[i]].previous == h[applied[i]].previous
    requires forall i :: 0 <= i < |applied| - 2 ==> h'[applied[i]].next == h[applied[i]].next
    requires |applied| >= 2 ==> h'[applied[|applied| - 2]].next == Null
    ensures AppliedSegment(h', if |applied| == 1 then Null else Ref(applied[|applied| - 2]), s,
      applied[..|applied| - 1])
  {
    var rest := applied[..|applied| - 1];
    forall i | 0 <= i < |rest|
      ensures h'[rest[i]].previous == AppliedPrevious(s, rest, i)
      ensures h'[rest[i]].next == AppliedNext(rest, i)
    {
      assert rest[i] == applied[i];
      assert h[applied[i]].next == AppliedNext(applied, i);
      assert h[applied[i]].previous == AppliedPrevious(s, applied, i);
    }
  }

  /** Pushing `x` in front of an undone segment: if `x` links to the old head
      (or to the sentinel), the old head links back to `x` (or the
      sentinel's `previous` does), and everything else keeps its links, the
      result is an undone segment. */
  lemma UndoneSegmentPush(h: Heap, h': Heap, first: Ptr, s: nat, undone: seq<nat>, x: nat)
    requires UndoneSegment(h, first, s, undone)
    requires NoDuplicates(undone) && s !in undone && x !in undone && x != s
    requires x in h' && h'[x].previous == Null
    requires h'[x].next == (if undone == [] then Ref(s) else Ref(undone[0]))
    requires s in h' && h'[s].previous == (if undone == [] then Ref(x) else h[s].previous)
    requires forall i :: 0 <= i < |undone| ==> undone[i] in h'
    requires forall i :: 0 <= i < |undone| ==> h'[undone[i]].next == h[undone[i]].next
    requires forall i :: 1 <= i < |undone| ==> h'[undone[i]].previous == h[undone[i]].previous
    requires undone != [] ==> h'[undone[0]].previous == Ref(x)
    ensures UndoneSegment(h', Ref(x), s, [x] + undone)
  {
    var undone' := [x] + undone;
    forall i | 0 <= i < |undone'|
      ensures undone'[i] in h'
      ensures h'[undone'[i]].previous == UndonePrevious(undone', i)
      ensures h'[undone'[i]].next == UndoneNext(s, undone', i)
    {
      if i > 0 {
        assert undone'[i] == undone[i - 1];
        assert h[undone[i - 1]].next == UndoneNext(s, undone, i - 1);
        assert h[undone[i - 1]].previous == UndonePrevious(undone, i - 1);
      }
    }
  }

  /** The parts of a duplicate-free concatenation are duplicate-free and disjoint. */
  lemma NoDuplicatesSplit(applied: seq<nat>, undone: seq<nat>)
    requires NoDuplicates(applied + undone)
    ensures NoDuplicates(applied) && NoDuplicates(undone)
    ensures forall i, j :: 0 <= i < |applied| && 0 <= j < |undone| ==> applied[i] != undone[j]
  {
    forall i, j | 0 <= i < j < |undone|
      ensures undone[i] != undone[j]
    {
      assert (applied + undone)[|applied| + i] == undone[i];
      assert (applied + undone)[|applied| + j] == undone[j];
    }
    forall i, j | 0 <= i < |applied| && 0 <= j < |undone|
      ensures applied[i] != undone[j]
    {
      assert (applied + undone)[i] == applied[i];
      assert (applied + undone)[|applied| + j] == undone[j];
    }
    forall i, j | 0 <= i < j < |applied|
      ensures applied[i] != applied[j]
    {
      assert (applied + undone)[i] == applied[i];
      assert (applied + undone)[j] == applied[j];
    }
  }

  /** Moving the applied tail to the front of the undone addresses keeps
      their concatenation. */
  lemma MoveTailKeepsOrder<T>(applied: seq<T>, undone: seq<T>)
    requires applied != []
    ensures applied[..|applied| - 1] + ([applied[|applied| - 1]] + undone) == applied + undone
  {
    assert applied[..|applied| - 1] + [applied[|applied| - 1]] == applied;
  }

  /** Which links of which elements an undo onto an empty undone segment
      changes. */
  lemma HeapAfterUndoOntoEmptyFrame(h: Heap, s: nat, x: nat, last: nat)
    requires x in h && s in h && last in h && x != s && x != last
    ensures var h' := HeapAfterUndoOntoEmpty(h, s, x, last);
      && (forall a :: a in h && a != x && a != s ==> h'[a].previous == h[a].previous)
      && (forall a :: a in h && a != x && a != last ==> h'[a].next == h[a].next)
      && h'[x].previous == Null && h'[x].next == Ref(s)
      && h'[s].previous == Ref(x)
      && h'[s].next == (if last == s then Null else h[s].next)
      && h'[last].next == Null
  {
  }

  /** Which links of which elements an undo onto a non-empty undone segment
      changes. */
  lemma HeapAfterUndoOntoRedoFrame(h: Heap, s: nat, x: nat, u: nat, last: nat)
    requires x in h && u in h && last in h && s in h && x != u && x != last && u != last && u != s && x != s
    ensures var h' := HeapAfterUndoOntoRedo(h, x, u, last);
      && (forall a :: a in h && a != x && a != u ==> h'[a].previous == h[a].previous)
      && (forall a :: a in h && a != x && a != last ==> h'[a].next == h[a].next)
      && h'[x].previous == Null && h'[x].next == Ref(u)
      && h'[u].previous == Ref(x)
      && h'[s].previous == h[s].previous
      && h'[s].next == (if last == s then Null else h[s].next)
      && h'[last].next == Null
  {
  }

  /** Putting a representation back together from its parts, when the
      addresses of the two segments, in order, are unchanged. */
  lemma RepresentsFromSegments(c: Chain, applied: seq<nat>, undone: seq<nat>, c': Chain,
                               applied': seq<nat>, undone': seq<nat>)
    requires Threads(c, applied, undone)
    requires applied' + undone' == applied + undone
    requires c'.sentinel == c.sentinel && c'.heap.Keys == c.heap.Keys
    requires AppliedSegment(c'.heap, c'.last, c'.sentinel, applied')
    requires UndoneSegment(c'.heap, c'.first, c'.sentinel, undone')
    ensures Threads(c', applied', undone')
  {
  }

  /** The chain an undo onto an empty undone segment leaves behind. */
  function ChainAfterUndoOntoEmpty(c: Chain, applied: seq<nat>): Chain
    requires applied != []
    requires c.sentinel in c.heap && applied[|applied| - 1] in c.heap
    requires |applied| > 1 ==> applied[|applied| - 2] in c.heap
  {
    var n := |applied|;
    var last := if n == 1 then c.sentinel else applied[n - 2];
    Chain(HeapAfterUndoOntoEmpty(c.heap, c.sentinel, applied[n - 1], last), Ref(applied[n - 1]),
      if n == 1 then Null else Ref(last), c.sentinel)
  }

  /** The chain an undo onto a non-empty undone segment leaves behind. */
  function ChainAfterUndoOntoRedo(c: Chain, applied: seq<nat>, undone: seq<nat>): Chain
    requires applied != [] && undone != []
    requires c.sentinel in c.heap && applied[|applied| - 1] in c.heap && undone[0] in c.heap
    requires |applied| > 1 ==> applied[|applied| - 2] in c.heap
  {
    var n := |applied|;
    var last := if n == 1 then c.sentinel else applied[n - 2];
    Chain(HeapAfterUndoOntoRedo(c.heap, applied[n - 1], undone[0], last), Ref(applied[n - 1]),
      if n == 1 then Null else Ref(last), c.sentinel)
  }

  /** The applied segment left by an undo onto an empty undone segment. */
  lemma UndoOntoEmptyApplied(h: Heap, s: nat, applied: seq<nat>)
    requires applied != [] && AppliedSegment(h, Ref(applied[|applied| - 1]), s, applied)
    requires NoDuplicates(applied) && s !in applied
    ensures var n := |applied|;
      var last := if n == 1 then s else applied[n - 2];
      var h' := HeapAfterUndoOntoEmpty(h, s, applied[n - 1], last);
      AppliedSegment(h', if n == 1 then Null else Ref(last), s, applied[..n - 1])
  {
    var n := |applied|;
    var x := applied[n - 1];
    var last := if n == 1 then s else applied[n - 2];
    assert h[x].previous == AppliedPrevious(s, applied, n - 1);
    var h' := HeapAfterUndoOntoEmpty(h, s, x, last);
    HeapAfterUndoOntoEmptyFrame(h, s, x, last);
    forall i | 0 <= i < n - 1
      ensures applied[i] in h && applied[i] != x && applied[i] != s
      ensures i < n - 2 ==> applied[i] != last
    {
    }
    AppliedSegmentDropTail(h, h', s, applied);
  }

  /** The segments left by an undo onto an empty undone segment. */
  lemma UndoOntoEmptySegments(h: Heap, s: nat, applied: seq<nat>)
    requires applied != [] && AppliedSegment(h, Ref(applied[|applied| - 1]), s, applied)
    requires UndoneSegment(h, Null, s, [])
    requires NoDuplicates(applied) && s !in applied
    ensures var n := |applied|;
      var last := if n == 1 then s else applied[n - 2];
      var h' := HeapAfterUndoOntoEmpty(h, s, applied[n - 1], last);
      && AppliedSegment(h', if n == 1 then Null else Ref(last), s, applied[..n - 1])
      && UndoneSegment(h', Ref(applied[n - 1]), s, [applied[n - 1]])
  {
    var n := |applied|;
    var x := applied[n - 1];
    var last := if n == 1 then s else applied[n - 2];
    assert h[x].previous == AppliedPrevious(s, applied, n - 1);
    UndoOntoEmptyApplied(h, s, applied);
    UndoOntoEmptyUndone(h, s, x, last);
  }

  /** The undone segment left by an undo onto an empty undone segment holds
      only the element undone. */
  lemma UndoOntoEmptyUndone(h: Heap, s: nat, x: nat, last: nat)
    requires x in h && s in h && last in h && x != s && x != last
    ensures UndoneSegment(HeapAfterUndoOntoEmpty(h, s, x, last), Ref(x), s, [x])
  {
    HeapAfterUndoOntoEmptyFrame(h, s, x, last);
    assert UndonePrevious([x], 0) == Null && UndoneNext(s, [x], 0) == Ref(s);
  }

  /** The chain left by an undo onto an empty undone segment represents the
      moved history. */
  lemma UndoOntoEmptyRepresents(c: Chain, applied: seq<nat>)
    requires Threads(c, applied, []) && applied != []
    ensures Threads(ChainAfterUndoOntoEmpty(c, applied), applied[..|applied| - 1], [applied[|applied| - 1]])
  {
    var n := |applied|;
    NoDuplicatesSplit(applied, []);
    assert applied + [] == applied;
    UndoOntoEmptySegments(c.heap, c.sentinel, applied);
    MoveTailKeepsOrder(applied, []);
    RepresentsFromSegments(c, applied, [], ChainAfterUndoOntoEmpty(c, applied), applied[..n - 1], [applied[n - 1]]);
  }

  /** What `undo` computes on a chain that represents a history with
      something to undo. */
  lemma UndoComputes(c: Chain, applied: seq<nat>, undone: seq<nat>, buffer: string)
    requires Threads(c, applied, undone) && applied != []
    ensures applied[|applied| - 1] in c.heap && c.sentinel in c.heap
    ensures |applied| > 1 ==> applied[|applied| - 2] in c.heap
    ensures undone != [] ==> undone[0] in c.heap
    ensures Undo(Live(c), buffer) == ChainMoved(true, c.heap[applied[|applied| - 1]].oldExpression,
      Live(if undone == [] then ChainAfterUndoOntoEmpty(c, applied)
           else ChainAfterUndoOntoRedo(c, applied, undone)))
  {
    var n := |applied|;
    var last := if n == 1 then c.sentinel else applied[n - 2];
    AppliedTailLinks(c, applied, undone);
    if undone == [] {
      UndoOntoEmptyComputes(c, buffer, applied[n - 1], last);
    } else {
      NoDuplicatesSplit(applied, undone);
      assert (applied + undone)[n] == undone[0];
      assert applied[n - 1] != undone[0];
      if n > 1 {
        assert applied[n - 2] != undone[0];
      }
      UndoOntoRedoComputes(c, buffer, applied[n - 1], undone[0], last);
    }
  }

  /** The segments left by an undo onto a non-empty undone segment. */
  lemma UndoOntoRedoSegments(h: Heap, s: nat, applied: seq<nat>, undone: seq<nat>)
    requires applied != [] && AppliedSegment(h, Ref(applied[|applied| - 1]), s, applied)
    requires undone != [] && UndoneSegment(h, Ref(undone[0]), s, undone)
    requires NoDuplicates(applied) && NoDuplicates(undone) && s !in applied && s !in undone
    requires forall i, j :: 0 <= i < |applied| && 0 <= j < |undone| ==> applied[i] != undone[j]
    ensures var n := |applied|;
      var last := if n == 1 then s else applied[n - 2];
      var h' := HeapAfterUndoOntoRedo(h, applied[n - 1], undone[0], last);
      && AppliedSegment(h', if n == 1 then Null else Ref(last), s, applied[..n - 1])
      && UndoneSegment(h', Ref(applied[n - 1]), s, [applied[n - 1]] + undone)
  {
    var n := |applied|;
    var x := applied[n - 1];
    var u := undone[0];
    var last := if n == 1 then s else applied[n - 2];
    assert h[x].previous == AppliedPrevious(s, applied, n - 1);
    assert x != u;
    assert n > 1 ==> last != u;
    var h' := HeapAfterUndoOntoRedo(h, x, u, last);
    HeapAfterUndoOntoRedoFrame(h, s, x, u, last);
    forall i | 0 <= i < n - 1
      ensures applied[i] in h && applied[i] != x && applied[i] != s && applied[i] != u
      ensures i < n - 2 ==> applied[i] != last
    {
    }
    AppliedSegmentDropTail(h, h', s, applied);
    forall i | 0 <= i < |undone|
      ensures undone[i] in h && undone[i] != x && undone[i] != last
      ensures i >= 1 ==> undone[i] != u
    {
      assert applied[n - 1] != undone[i];
      if n > 1 {
        assert applied[n - 2] != undone[i];
      }
    }
    UndoneSegmentPush(h, h', Ref(u), s, undone, x);
  }

  /** The chain left by an undo onto a non-empty undone segment represents
      the moved history. */
  lemma UndoOntoRedoRepresents(c: Chain, applied: seq<nat>, undone: seq<nat>)
    requires Threads(c, applied, undone) && applied != [] && undone != []
    ensures Threads(ChainAfterUndoOntoRedo(c, applied, undone),
      applied[..|applied| - 1], [applied[|applied| - 1]] + undone)
  {
    var n := |applied|;
    NoDuplicatesSplit(applied, undone);
    UndoOntoRedoSegments(c.heap, c.sentinel, applied, undone);
    MoveTailKeepsOrder(applied, undone);
    RepresentsFromSegments(c, applied, undone, ChainAfterUndoOntoRedo(c, applied, undone),
      applied[..n - 1], [applied[n - 1]] + undone);
  }

  /** A successful undo keeps the representation: the applied tail moves to
      the front of the undone segment and its old expression is handed back. */
  lemma UndoKeepsRepresentation(c: Chain, applied: seq<nat>, undone: seq<nat>, buffer: string)
    requires Represents(c, applied, undone) && applied != []
    ensures var r := Undo(Live(c), buffer);
      && r.ok && r.handle.Live?
      && r.expression == c.heap[applied[|applied| - 1]].oldExpression
      && Represents(r.handle.chain, applied[..|applied| - 1], [applied[|applied| - 1]] + undone)
  {
    RepresentsIsThreads(c, applied, undone);
    UndoKeepsThreads(c, applied, undone, buffer);
    RepresentsIsThreads(Undo(Live(c), buffer).handle.chain, applied[..|applied| - 1], [applied[|applied| - 1]] + undone);
  }

  /** `UndoKeepsRepresentation` in the form the proofs use. */
  lemma UndoKeepsThreads(c: Chain, applied: seq<nat>, undone: seq<nat>, buffer: string)
    requires Threads(c, applied, undone) && applied != []
    ensures var r := Undo(Live(c), buffer);
      && r.ok && r.handle.Live?
      && r.expression == c.heap[applied[|applied| - 1]].oldExpression
      && Threads(r.handle.chain, applied[..|applied| - 1], [applied[|applied| - 1]] + undone)
  {
    UndoComputes(c, applied, undone, buffer);
    if undone == [] {
      UndoOntoEmptyRepresents(c, applied);
      assert [applied[|applied| - 1]] + undone == [applied[|applied| - 1]];
    } else {
      UndoOntoRedoRepresents(c, applied, undone);
    }
  }

  /** Moving the applied tail's address to the front of the undone addresses
      moves its edit the same way. */
  lemma UndoAbstracts(h: Heap, h': Heap, applied: seq<nat>, undone: seq<nat>, buffer: string)
    requires applied != []
    requires forall i :: 0 <= i < |applied| ==> applied[i] in h
    requires forall i :: 0 <= i < |undone| ==> undone[i] in h
    requires SameTexts(h, h')
    ensures var n := |applied|;
      var a := EditHistory.Undo(EditHistory.History(Edits(h, applied), Edits(h, undone)), buffer);
      && a.ok
      && a.expression == h[applied[n - 1]].oldExpression
      && a.history == EditHistory.History(Edits(h', applied[..n - 1]), Edits(h', [applied[n - 1]] + undone))
  {
    var n := |applied|;
    EditsKeepTexts(h, h', applied[..n - 1]);
    EditsKeepTexts(h, h', [applied[n - 1]] + undone);
    EditsPrefix(h, applied, n - 1);
    EditsAppend(h, [applied[n - 1]], undone);
  }

  /** `undo` on the chain is the abstract undo: same status, same text handed
      back, and a chain that represents the abstract result. On a history with
      nothing to undo it changes nothing. */
  lemma UndoRefines(c: Chain, applied: seq<nat>, undone: seq<nat>, buffer: string)
    requires Represents(c, applied, undone)
    ensures var r := Undo(Live(c), buffer);
      var a := EditHistory.Undo(Abstraction(c, applied, undone), buffer);
      var (applied', undone') := UndoneAddresses(applied, undone);
      && r.ok == a.ok && r.expression == a.expression
      && r.handle.Live?
      && Represents(r.handle.chain, applied', undone')
      && Abstraction(r.handle.chain, applied', undone') == a.history
  {
    if applied != [] {
      UndoKeepsRepresentation(c, applied, undone, buffer);
      UndoAbstracts(c.heap, Undo(Live(c), buffer).handle.chain.heap, applied, undone, buffer);
    }
  }

  /** The addresses of the two segments after a redo. */
  function RedoneAddresses(applied: seq<nat>, undone: seq<nat>): (seq<nat>, seq<nat>) {
    if undone == [] then (applied, undone)
    else (applied + [undone[0]], undone[1..])
  }

  /** Appending `x` to an applied segment: if `x` links back to the old tail
      (or to the sentinel), the old tail (or the sentinel) links forward to
      `x`, and everything else keeps its links, the result is an applied
      segment ending at `x`. */
  lemma AppliedSegmentPush(h: Heap, h': Heap, last: Ptr, s: nat, applied: seq<nat>, x: nat)
    requires AppliedSegment(h, last, s, applied)
    requires NoDuplicates(applied) && s !in applied && x !in applied && x != s
    requires x in h' && h'[x].next == Null
    requires h'[x].previous == (if applied == [] then Ref(s) else Ref(applied[|applied| - 1]))
    requires s in h' && h'[s].next == (if applied == [] then Ref(x) else h[s].next)
    requires forall i :: 0 <= i < |applied| ==> applied[i] in h'
    requires forall i :: 0 <= i < |applied| ==> h'[applied[i]].previous == h[applied[i]].previous
    requires forall i :: 0 <= i < |applied| - 1 ==> h'[applied[i]].next == h[applied[i]].next
    requires applied != [] ==> h'[applied[|applied| - 1]].next == Ref(x)
    ensures AppliedSegment(h', Ref(x), s, applied + [x])
  {
    var applied' := applied + [x];
    forall i | 0 <= i < |applied'|
      ensures applied'[i] in h'
      ensures h'[applied'[i]].previous == AppliedPrevious(s, applied', i)
      ensures h'[applied'[i]].next == AppliedNext(applied', i)
    {
      if i < |applied| {
        assert applied'[i] == applied[i];
        assert h[applied[i]].next == AppliedNext(applied, i);
        assert h[applied[i]].previous == AppliedPrevious(s, applied, i);
      }
    }
  }

  /** Taking the head off an undone segment: if the new head's `previous` is
      cleared (the sentinel's, when the segment empties) and everything else
      keeps its links, the rest is an undone segment. */
  lemma UndoneSegmentPop(h: Heap, h': Heap, s: nat, undone: seq<nat>)
    requires undone != [] && UndoneSegment(h, Ref(undone[0]), s, undone)
    requires NoDuplicates(undone) && s !in undone
    requires s in h' && h'[s].previous == (if |undone| == 1 then Null else h[s].previous)
    requires forall i :: 1 <= i < |undone| ==> undone[i] in h'
    requires forall i :: 1 <= i < |undone| ==> h'[undone[i]].next == h[undone[i]].next
    requires forall i :: 2 <= i < |undone| ==> h'[undone[i]].previous == h[undone[i]].previous
    requires |undone| >= 2 ==> h'[undone[1]].previous == Null
    ensures UndoneSegment(h', if |undone| == 1 then Null else Ref(undone[1]), s, undone[1..])
  {
    var rest := undone[1..];
    forall i | 0 <= i < |rest|
      ensures rest[i] in h'
      ensures h'[rest[i]].previous == UndonePrevious(rest, i)
      ensures h'[rest[i]].next == UndoneNext(s, rest, i)
    {
      assert rest[i] == undone[i + 1];
      assert h[undone[i + 1]].next == UndoneNext(s, undone, i + 1);
      assert h[undone[i + 1]].previous == UndonePrevious(undone, i + 1);
    }
  }

  /** The heap after a redo onto an empty applied segment: `u` is the element
      redone and `nf` its undone successor (or the sentinel). */
  function HeapAfterRedoOntoEmpty(h: Heap, s: nat, u: nat, nf: nat): (h': Heap)
    requires u in h && s in h && nf in h
    ensures h'.Keys == h.Keys
  {
    var h1 := h[u := h[u].(previous := Ref(s), next := Null)];
    var h2 := h1[s := h1[s].(next := Ref(u))];
    h2[nf := h2[nf].(previous := Null)]
  }

  /** The heap after a redo onto an applied segment whose tail is `t`. */
  function HeapAfterRedoOntoApplied(h: Heap, t: nat, u: nat, nf: nat): (h': Heap)
    requires t in h && u in h && nf in h
    ensures h'.Keys == h.Keys
  {
    var h1 := h[t := h[t].(next := Ref(u))];
    var h2 := h1[u := h1[u].(previous := Ref(t), next := Null)];
    h2[nf := h2[nf].(previous := Null)]
  }

  /** Which links of which elements a redo onto an empty applied segment changes. */
  lemma HeapAfterRedoOntoEmptyFrame(h: Heap, s: nat, u: nat, nf: nat)
    requires u in h && s in h && nf in h && u != s && u != nf
    ensures var h' := HeapAfterRedoOntoEmpty(h, s, u, nf);
      && (forall a :: a in h && a != u && a != nf ==> h'[a].previous == h[a].previous)
      && (forall a :: a in h && a != u && a != s ==> h'[a].next == h[a].next)
      && h'[u].previous == Ref(s) && h'[u].next == Null
      && h'[s].next == Ref(u)
      && h'[nf].previous == Null
  {
  }

  /** Which links of which elements a redo onto a non-empty applied segment changes. */
  lemma HeapAfterRedoOntoAppliedFrame(h: Heap, s: nat, t: nat, u: nat, nf: nat)
    requires t in h && u in h && nf in h && s in h && t != u && u != nf && t != nf && t != s && u != s
    ensures var h' := HeapAfterRedoOntoApplied(h, t, u, nf);
      && (forall a :: a in h && a != u && a != nf ==> h'[a].previous == h[a].previous)
      && (forall a :: a in h && a != u && a != t ==> h'[a].next == h[a].next)
      && h'[u].previous == Ref(t) && h'[u].next == Null
      && h'[t].next == Ref(u)
      && h'[nf].previous == Null
  {
  }

  /** What `redo` computes when the applied segment is empty, in terms of the
      pointers it reads. */
  lemma RedoOntoEmptyComputes(c: Chain, buffer: string, u: nat, nf: nat)
    requires c.last == Null && c.first == Ref(u) && u != c.sentinel && u != nf
    requires u in c.heap && nf in c.heap && c.sentinel in c.heap
    requires c.heap[u].next == Ref(nf) && c.heap[nf].previous == Ref(u)
    ensures Redo(Live(c), buffer) == ChainMoved(true, c.heap[u].newExpression,
      Live(Chain(HeapAfterRedoOntoEmpty(c.heap, c.sentinel, u, nf),
        if nf == c.sentinel then Null else Ref(nf), Ref(u), c.sentinel)))
  {
  }

  /** What `redo` computes when the applied segment ends at `t`. */
  lemma RedoOntoAppliedComputes(c: Chain, buffer: string, t: nat, u: nat, nf: nat)
    requires c.last == Ref(t) && c.first == Ref(u) && t != u && u != nf && t != nf
    requires t in c.heap && u in c.heap && nf in c.heap
    requires c.heap[u].next == Ref(nf) && c.heap[nf].previous == Ref(u)
    ensures Redo(Live(c), buffer) == ChainMoved(true, c.heap[u].newExpression,
      Live(Chain(HeapAfterRedoOntoApplied(c.heap, t, u, nf),
        if nf == c.sentinel then Null else Ref(nf), Ref(u), c.sentinel)))
  {
  }

  /** The undone successor of the undone head: the next undone element, or
      the sentinel. */
  lemma UndoneHeadLinks(c: Chain, applied: seq<nat>, undone: seq<nat>)
    requires Threads(c, applied, undone) && undone != []
    ensures var nf := if |undone| == 1 then c.sentinel else undone[1];
      && c.first == Ref(undone[0])
      && undone[0] in c.heap && nf in c.heap
      && undone[0] != c.sentinel && undone[0] != nf
      && c.heap[undone[0]].next == Ref(nf)
      && c.heap[nf].previous == Ref(undone[0])
  {
    var n := |applied|;
    assert (applied + undone)[n] == undone[0];
    assert c.heap[undone[0]].next == UndoneNext(c.sentinel, undone, 0);
    if |undone| > 1 {
      assert (applied + undone)[n + 1] == undone[1];
      assert c.heap[undone[1]].previous == UndonePrevious(undone, 1);
    }
  }

  /** The chain a redo onto an empty applied segment leaves behind. */
  function ChainAfterRedoOntoEmpty(c: Chain, undone: seq<nat>): Chain
    requires undone != []
    requires c.sentinel in c.heap && undone[0] in c.heap
    requires |undone| > 1 ==> undone[1] in c.heap
  {
    var nf := if |undone| == 1 then c.sentinel else undone[1];
    Chain(HeapAfterRedoOntoEmpty(c.heap, c.sentinel, undone[0], nf),
      if |undone| == 1 then Null else Ref(nf), Ref(undone[0]), c.sentinel)
  }

  /** The chain a redo onto a non-empty applied segment leaves behind. */
  function ChainAfterRedoOntoApplied(c: Chain, applied: seq<nat>, undone: seq<nat>): Chain
    requires applied != [] && undone != []
    requires c.sentinel in c.heap && applied[|applied| - 1] in c.heap && undone[0] in c.heap
    requires |undone| > 1 ==> undone[1] in c.heap
  {
    var nf := if |undone| == 1 then c.sentinel else undone[1];
    Chain(HeapAfterRedoOntoApplied(c.heap, applied[|applied| - 1], undone[0], nf),
      if |undone| == 1 then Null else Ref(nf), Ref(undone[0]), c.sentinel)
  }

  /** What `redo` computes on a chain that represents a history with
      something to redo. */
  lemma RedoComputes(c: Chain, applied: seq<nat>, undone: seq<nat>, buffer: string)
    requires Threads(c, applied, undone) && undone != []
    ensures undone[0] in c.heap && c.sentinel in c.heap
    ensures |undone| > 1 ==> undone[1] in c.heap
    ensures applied != [] ==> applied[|applied| - 1] in c.heap
    ensures Redo(Live(c), buffer) == ChainMoved(true, c.heap[undone[0]].newExpression,
      Live(if applied == [] then ChainAfterRedoOntoEmpty(c, undone)
           else ChainAfterRedoOntoApplied(c, applied, undone)))
  {
    var nf := if |undone| == 1 then c.sentinel else undone[1];
    UndoneHeadLinks(c, applied, undone);
    if applied == [] {
      RedoOntoEmptyComputes(c, buffer, undone[0], nf);
    } else {
      var n := |applied|;
      NoDuplicatesSplit(applied, undone);
      assert (applied + undone)[n - 1] == applied[n - 1];
      assert applied[n - 1] != undone[0];
      if |undone| > 1 {
        assert applied[n - 1] != undone[1];
      }
      RedoOntoAppliedComputes(c, buffer, applied[n - 1], undone[0], nf);
    }
  }

  /** The segments left by a redo onto an empty applied segment. */
  lemma RedoOntoEmptySegments(h: Heap, s: nat, undone: seq<nat>)
    requires AppliedSegment(h, Null, s, [])
    requires undone != [] && UndoneSegment(h, Ref(undone[0]), s, undone)
    requires NoDuplicates(undone) && s !in undone
    ensures var nf := if |undone| == 1 then s else undone[1];
      var h' := HeapAfterRedoOntoEmpty(h, s, undone[0], nf);
      && AppliedSegment(h', Ref(undone[0]), s, [undone[0]])
      && UndoneSegment(h', if |undone| == 1 then Null else Ref(nf), s, undone[1..])
  {
    var u := undone[0];
    var nf := if |undone| == 1 then s else undone[1];
    var h' := HeapAfterRedoOntoEmpty(h, s, u, nf);
    HeapAfterRedoOntoEmptyFrame(h, s, u, nf);
    AppliedSegmentPush(h, h', Null, s, [], u);
    assert [] + [u] == [u];
    forall i | 1 <= i < |undone|
      ensures undone[i] in h && undone[i] != u && undone[i] != s
      ensures i >= 2 ==> undone[i] != nf
    {
    }
    UndoneSegmentPop(h, h', s, undone);
  }

  /** The segments left by a redo onto a non-empty applied segment. */
  lemma RedoOntoAppliedSegments(h: Heap, s: nat, applied: seq<nat>, undone: seq<nat>)
    requires applied != [] && AppliedSegment(h, Ref(applied[|applied| - 1]), s, applied)
    requires undone != [] && UndoneSegment(h, Ref(undone[0]), s, undone)
    requires NoDuplicates(applied) && NoDuplicates(undone) && s !in applied && s !in undone
    requires forall i, j :: 0 <= i < |applied| && 0 <= j < |undone| ==> applied[i] != undone[j]
    ensures var nf := if |undone| == 1 then s else undone[1];
      var h' := HeapAfterRedoOntoApplied(h, applied[|applied| - 1], undone[0], nf);
      && AppliedSegment(h', Ref(undone[0]), s, applied + [undone[0]])
      && UndoneSegment(h', if |undone| == 1 then Null else Ref(nf), s, undone[1..])
  {
    var n := |applied|;
    var t := applied[n - 1];
    var u := undone[0];
    var nf := if |undone| == 1 then s else undone[1];
    assert t != u;
    assert |undone| > 1 ==> t != nf;
    var h' := HeapAfterRedoOntoApplied(h, t, u, nf);
    HeapAfterRedoOntoAppliedFrame(h, s, t, u, nf);
    forall i | 0 <= i < n
      ensures applied[i] in h && applied[i] != u && applied[i] != nf && applied[i] != s
      ensures i < n - 1 ==> applied[i] != t
    {
      assert applied[i] != undone[0];
      if |undone| > 1 {
        assert applied[i] != undone[1];
      }
    }
    assert u !in applied by {
      forall i | 0 <= i < n
        ensures applied[i] != u
      {
        assert applied[i] != undone[0];
      }
    }
    AppliedSegmentPush(h, h', Ref(t), s, applied, u);
    forall i | 1 <= i < |undone|
      ensures undone[i] in h && undone[i] != u && undone[i] != s && undone[i] != t
      ensures i >= 2 ==> undone[i] != nf
    {
      assert applied[n - 1] != undone[i];
    }
    UndoneSegmentPop(h, h', s, undone);
  }

  /** Appending the undone head's address to the applied addresses keeps
      their concatenation. */
  lemma MoveHeadKeepsOrder<T>(applied: seq<T>, undone: seq<T>)
    requires undone != []
    ensures (applied + [undone[0]]) + undone[1..] == applied + undone
  {
    assert [undone[0]] + undone[1..] == undone;
  }

  /** The chain left by a redo represents the moved history. */
  lemma RedoRepresents(c: Chain, applied: seq<nat>, undone: seq<nat>)
    requires Threads(c, applied, undone) && undone != []
    ensures undone[0] in c.heap && c.sentinel in c.heap
    ensures |undone| > 1 ==> undone[1] in c.heap
    ensures applied != [] ==> applied[|applied| - 1] in c.heap
    ensures Threads(if applied == [] then ChainAfterRedoOntoEmpty(c, undone)
        else ChainAfterRedoOntoApplied(c, applied, undone),
      applied + [undone[0]], undone[1..])
  {
    UndoneHeadLinks(c, applied, undone);
    NoDuplicatesSplit(applied, undone);
    MoveHeadKeepsOrder(applied, undone);
    if applied == [] {
      assert [] + undone == undone;
      RedoOntoEmptySegments(c.heap, c.sentinel, undone);
      assert [] + [undone[0]] == [undone[0]];
      RepresentsFromSegments(c, applied, undone, ChainAfterRedoOntoEmpty(c, undone),
        applied + [undone[0]], undone[1..]);
    } else {
      RedoOntoAppliedSegments(c.heap, c.sentinel, applied, undone);
      RepresentsFromSegments(c, applied, undone, ChainAfterRedoOntoApplied(c, applied, undone),
        applied + [undone[0]], undone[1..]);
    }
  }

  /** Moving the undone head's address to the end of the applied addresses
      moves its edit the same way. */
  lemma RedoAbstracts(h: Heap, h': Heap, applied: seq<nat>, undone: seq<nat>, buffer: string)
    requires undone != []
    requires forall i :: 0 <= i < |applied| ==> applied[i] in h
    requires forall i :: 0 <= i < |undone| ==> undone[i] in h
    requires SameTexts(h, h')
    ensures var a := EditHistory.Redo(EditHistory.History(Edits(h, applied), Edits(h, undone)), buffer);
      && a.ok
      && a.expression == h[undone[0]].newExpression
      && a.history == EditHistory.History(Edits(h', applied + [undone[0]]), Edits(h', undone[1..]))
  {
    EditsKeepTexts(h, h', applied + [undone[0]]);
    EditsKeepTexts(h, h', undone[1..]);
    EditsAppend(h, applied, [undone[0]]);
    assert Edits(h, undone[1..]) == Edits(h, undone)[1..];
  }

  /** `redo` on the chain is the abstract redo: same status, same text handed
      back, and a chain that represents the abstract result. On a history with
      nothing to redo it changes nothing. */
  lemma RedoRefines(c: Chain, applied: seq<nat>, undone: seq<nat>, buffer: string)
    requires Represents(c, applied, undone)
    ensures var r := Redo(Live(c), buffer);
      var a := EditHistory.Redo(Abstraction(c, applied, undone), buffer);
      var (applied', undone') := RedoneAddresses(applied, undone);
      && r.ok == a.ok && r.expression == a.expression
      && r.handle.Live?
      && Represents(r.handle.chain, applied', undone')
      && Abstraction(r.handle.chain, applied', undone') == a.history
  {
    if undone != [] {
      RedoKeepsRepresentation(c, applied, undone, buffer);
      RedoAbstracts(c.heap, Redo(Live(c), buffer).handle.chain.heap, applied, undone, buffer);
    }
  }

  /** The heap after `newItem` links the new element `x` behind `anchor`
      (the applied tail, or the sentinel when nothing is applied), before the
      undone segment is freed. */
  function HeapAfterAppend(h: Heap, anchor: nat, x: nat, oldExpression: string, newExpression: string): (h': Heap)
    requires anchor in h && x !in h
    ensures h'.Keys == h.Keys + {x}
  {
    var h0 := h[x := Element(oldExpression, newExpression, Null, Null)];
    var h1 := h0[anchor := h0[anchor].(next := Ref(x))];
    h1[x := h1[x].(previous := Ref(anchor))]
  }

  /** Which links of which elements linking in the new element changes. */
  lemma HeapAfterAppendFrame(h: Heap, anchor: nat, x: nat, oldExpression: string, newExpression: string)
    requires anchor in h && x !in h
    ensures var h' := HeapAfterAppend(h, anchor, x, oldExpression, newExpression);
      && (forall a :: a in h && a != anchor ==> h'[a] == h[a])
      && h'[anchor] == h[anchor].(next := Ref(x))
      && h'[x] == Element(oldExpression, newExpression, Null, Ref(anchor))
  {
  }

  /** What `newItem` computes on a live chain when allocation succeeds. */
  lemma NewItemComputes(c: Chain, oldExpression: string, newExpression: string, x: nat, anchor: nat)
    requires EditHistory.FitsBuffer(oldExpression) && EditHistory.FitsBuffer(newExpression)
    requires x !in c.heap && anchor in c.heap && c.sentinel in c.heap
    requires c.last == (if anchor == c.sentinel then Null else Ref(anchor))
    ensures var h1 := HeapAfterAppend(c.heap, anchor, x, oldExpression, newExpression);
      var (h2, first) := DiscardRedo(h1, c.first, c.sentinel);
      NewItem(Live(c), oldExpression, newExpression, Ref(x)) == ChainRecorded(true, Live(Chain(h2, first, Ref(x), c.sentinel)))
  {
  }

  /** An undone segment whose elements and sentinel `previous` keep their
      links stays an undone segment. */
  lemma UndoneSegmentFrame(h: Heap, h': Heap, first: Ptr, s: nat, undone: seq<nat>)
    requires UndoneSegment(h, first, s, undone)
    requires s in h' && h'[s].previous == h[s].previous
    requires forall i :: 0 <= i < |undone| ==> undone[i] in h' && h'[undone[i]] == h[undone[i]]
    ensures UndoneSegment(h', first, s, undone)
  {
  }

  /** An applied segment whose elements and sentinel `next` keep their links
      stays an applied segment. */
  lemma AppliedSegmentFrame(h: Heap, h': Heap, last: Ptr, s: nat, applied: seq<nat>)
    requires AppliedSegment(h, last, s, applied)
    requires s in h' && h'[s].next == h[s].next
    requires forall i :: 0 <= i < |applied| ==> applied[i] in h' && h'[applied[i]] == h[applied[i]]
    ensures AppliedSegment(h', last, s, applied)
  {
  }

  /** The applied segment after the new element is linked in. */
  lemma AppendAppliedSegment(h: Heap, s: nat, applied: seq<nat>, x: nat,
                             oldExpression: string, newExpression: string)
    requires AppliedSegment(h, if applied == [] then Null else Ref(applied[|applied| - 1]), s, applied)
    requires NoDuplicates(applied) && s !in applied && x !in h
    ensures x !in applied
    ensures var anchor := if applied == [] then s else applied[|applied| - 1];
      AppliedSegment(HeapAfterAppend(h, anchor, x, oldExpression, newExpression), Ref(x), s, applied + [x])
  {
    var n := |applied|;
    var anchor := if applied == [] then s else applied[n - 1];
    var h1 := HeapAfterAppend(h, anchor, x, oldExpression, newExpression);
    HeapAfterAppendFrame(h, anchor, x, oldExpression, newExpression);
    forall i | 0 <= i < n
      ensures applied[i] in h && applied[i] != x && applied[i] != s
      ensures i < n - 1 ==> applied[i] != anchor
    {
    }
    AppliedSegmentPush(h, h1, if applied == [] then Null else Ref(applied[n - 1]), s, applied, x);
  }

  /** The undone segment is untouched by linking in the new element. */
  lemma AppendUndoneSegment(h: Heap, s: nat, anchor: nat, undone: seq<nat>, x: nat,
                            oldExpression: string, newExpression: string)
    requires UndoneSegment(h, if undone == [] then Null else Ref(undone[0]), s, undone)
    requires anchor in h && x !in h && anchor !in undone
    ensures UndoneSegment(HeapAfterAppend(h, anchor, x, oldExpression, newExpression),
      if undone == [] then Null else Ref(undone[0]), s, undone)
  {
    var h1 := HeapAfterAppend(h, anchor, x, oldExpression, newExpression);
    HeapAfterAppendFrame(h, anchor, x, oldExpression, newExpression);
    forall i | 0 <= i < |undone|
      ensures undone[i] in h && undone[i] != x && undone[i] != anchor
    {
    }
    UndoneSegmentFrame(h, h1, if undone == [] then Null else Ref(undone[0]), s, undone);
  }

  /** No applied address is an undone address. */
  lemma DisjointMembership(applied: seq<nat>, undone: seq<nat>)
    requires forall i, j :: 0 <= i < |applied| && 0 <= j < |undone| ==> applied[i] != undone[j]
    ensures forall i :: 0 <= i < |applied| ==> applied[i] !in undone
  {
    forall i | 0 <= i < |applied|
      ensures applied[i] !in undone
    {
      forall j | 0 <= j < |undone|
        ensures applied[i] != undone[j]
      {
      }
    }
  }

  /** The segments once `newItem` has freed the undone segment: the applied
      segment ends at the new element and the undone segment is empty. */
  lemma NewItemSegments(h: Heap, s: nat, applied: seq<nat>, undone: seq<nat>, x: nat,
                        oldExpression: string, newExpression: string)
    requires AppliedSegment(h, if applied == [] then Null else Ref(applied[|applied| - 1]), s, applied)
    requires UndoneSegment(h, if undone == [] then Null else Ref(undone[0]), s, undone)
    requires NoDuplicates(applied) && NoDuplicates(undone) && s !in applied && s !in undone && x !in h
    requires forall i, j :: 0 <= i < |applied| && 0 <= j < |undone| ==> applied[i] != undone[j]
    ensures var anchor := if applied == [] then s else applied[|applied| - 1];
      var h1 := HeapAfterAppend(h, anchor, x, oldExpression, newExpression);
      var (h2, first) := DiscardRedo(h1, if undone == [] then Null else Ref(undone[0]), s);
      && first == Null
      && h2.Keys == h1.Keys - Addresses(undone)
      && AppliedSegment(h2, Ref(x), s, applied + [x])
      && UndoneSegment(h2, Null, s, [])
      && forall i :: 0 <= i < |applied + [x]| ==> (applied + [x])[i] in h2 && h2[(applied + [x])[i]] == h1[(applied + [x])[i]]
  {
    var anchor := if applied == [] then s else applied[|applied| - 1];
    var h1 := HeapAfterAppend(h, anchor, x, oldExpression, newExpression);
    var first := if undone == [] then Null else Ref(undone[0]);
    AppendAppliedSegment(h, s, applied, x, oldExpression, newExpression);
    DisjointMembership(applied, undone);
    if applied != [] {
      assert applied[|applied| - 1] !in undone;
    }
    AppendUndoneSegment(h, s, anchor, undone, x, oldExpression, newExpression);
    DiscardRedoFreesUndone(h1, first, s, undone);
    var (h2, first') := DiscardRedo(h1, first, s);
    var applied' := applied + [x];
    forall i | 0 <= i < |applied'|
      ensures applied'[i] in h2 && h2[applied'[i]] == h1[applied'[i]]
    {
      if i < |applied| {
        assert applied'[i] == applied[i];
      } else {
        assert applied'[i] == x;
        assert x !in undone by {
          forall j | 0 <= j < |undone|
            ensures undone[j] != x
          {
            assert undone[j] in h;
          }
        }
      }
    }
    AppliedSegmentFrame(h1, h2, Ref(x), s, applied');
  }

  /** The heap after `newItem` holds exactly the applied addresses, the new
      element and the sentinel. */
  lemma NewItemKeys(applied: seq<nat>, undone: seq<nat>, s: nat, x: nat, keys: set<nat>)
    requires keys == Addresses(applied + undone) + {s}
    requires x !in keys && s !in undone
    requires forall i, j :: 0 <= i < |applied| && 0 <= j < |undone| ==> applied[i] != undone[j]
    ensures (keys + {x}) - Addresses(undone) == Addresses((applied + [x]) + []) + {s}
  {
    forall a | a in Addresses(applied)
      ensures a !in Addresses(undone)
    {
      var i :| 0 <= i < |applied| && applied[i] == a;
      forall j | 0 <= j < |undone|
        ensures undone[j] != a
      {
      }
    }
    assert Addresses(applied + undone) == Addresses(applied) + Addresses(undone);
    assert Addresses((applied + [x]) + []) == Addresses(applied) + {x};
  }

  /** The chain `newItem` leaves behind represents the applied addresses
      followed by the new one, with nothing undone. */
  lemma NewItemRepresents(c: Chain, applied: seq<nat>, undone: seq<nat>,
                          oldExpression: string, newExpression: string, x: nat)
    requires Threads(c, applied, undone) && x !in c.heap
    ensures var anchor := if applied == [] then c.sentinel else applied[|applied| - 1];
      && anchor in c.heap
      && var h1 := HeapAfterAppend(c.heap, anchor, x, oldExpression, newExpression);
      var (h2, first) := DiscardRedo(h1, c.first, c.sentinel);
      && first == Null
      && Threads(Chain(h2, first, Ref(x), c.sentinel), applied + [x], [])
      && forall i :: 0 <= i < |applied + [x]| ==> (applied + [x])[i] in h2 && h2[(applied + [x])[i]] == h1[(applied + [x])[i]]
  {
    var s := c.sentinel;
    var h := c.heap;
    NoDuplicatesSplit(applied, undone);
    NewItemSegments(h, s, applied, undone, x, oldExpression, newExpression);
    NewItemKeys(applied, undone, s, x, h.Keys);
    AppendAppliedSegment(h, s, applied, x, oldExpression, newExpression);
    var applied' := applied + [x];
    assert applied' + [] == applied';
    assert NoDuplicates(applied') by {
      forall i, j | 0 <= i < j < |applied'|
        ensures applied'[i] != applied'[j]
      {
        if j < |applied| {
          assert applied'[i] == applied[i] && applied'[j] == applied[j];
        }
      }
    }
  }

  /** The edits stored after `newItem` are the old applied edits followed by
      the new one. */
  lemma NewItemAbstracts(h: Heap, h2: Heap, anchor: nat, applied: seq<nat>, x: nat,
                         oldExpression: string, newExpression: string)
    requires anchor in h && x !in h
    requires forall i :: 0 <= i < |applied| ==> applied[i] in h
    requires forall i :: 0 <= i < |applied + [x]| ==>
      ((applied + [x])[i] in h2
       && h2[(applied + [x])[i]] == HeapAfterAppend(h, anchor, x, oldExpression, newExpression)[(applied + [x])[i]])
    ensures Edits(h2, applied + [x]) == Edits(h, applied) + [EditHistory.Edit(oldExpression, newExpression)]
  {
    var applied' := applied + [x];
    HeapAfterAppendFrame(h, anchor, x, oldExpression, newExpression);
    forall i | 0 <= i < |applied|
      ensures applied[i] in h2
      ensures h2[applied[i]].oldExpression == h[applied[i]].oldExpression
      ensures h2[applied[i]].newExpression == h[applied[i]].newExpression
    {
      assert applied'[i] == applied[i];
    }
    assert applied'[|applied|] == x;
    EditsAgree(h, h2, applied);
    EditsAppend(h2, applied, [x]);
  }

  /** `newItem` on a live chain is the abstract record: same status, and on
      success a chain that represents the abstract result, with the new
      element as the applied tail and the undone segment freed. On
      allocation failure nothing changes. */
  lemma NewItemRefines(c: Chain, applied: seq<nat>, undone: seq<nat>,
                       oldExpression: string, newExpression: string, block: Ptr)
    requires Represents(c, applied, undone)
    requires EditHistory.FitsBuffer(oldExpression) && EditHistory.FitsBuffer(newExpression)
    requires block.Ref? ==> block.addr !in c.heap
    ensures var r := NewItem(Live(c), oldExpression, newExpression, block);
      var a := EditHistory.NewItem(Abstraction(c, applied, undone), oldExpression, newExpression, block.Ref?);
      && r.ok == a.ok
      && r.handle.Live?
      && (!r.ok ==> r.handle == Live(c))
      && (r.ok ==> Represents(r.handle.chain, applied + [block.addr], [])
                   && Abstraction(r.handle.chain, applied + [block.addr], []) == a.history)
  {
    if block.Ref? {
      var x := block.addr;
      var anchor := if applied == [] then c.sentinel else applied[|applied| - 1];
      RepresentsIsThreads(c, applied, undone);
      NewItemRepresents(c, applied, undone, oldExpression, newExpression, x);
      NewItemComputes(c, oldExpression, newExpression, x, anchor);
      var h1 := HeapAfterAppend(c.heap, anchor, x, oldExpression, newExpression);
      var (h2, first) := DiscardRedo(h1, c.first, c.sentinel);
      RepresentsIsThreads(Chain(h2, first, Ref(x), c.sentinel), applied + [x], []);
      NewItemAbstracts(c.heap, h2, anchor, applied, x, oldExpression, newExpression);
    }
  }

  /** Where the links of one element of a represented chain point is fixed by
      its position: the element at `applied[i]`. */
  lemma AppliedLinksFixed(c: Chain, c': Chain, applied: seq<nat>, undone: seq<nat>, i: nat)
    requires Threads(c, applied, undone) && Threads(c', applied, undone)
    requires c.sentinel == c'.sentinel && i < |applied|
    ensures c.heap[applied[i]].next == c'.heap[applied[i]].next
    ensures c.heap[applied[i]].previous == c'.heap[applied[i]].previous
  {
    assert c.heap[applied[i]].next == AppliedNext(applied, i);
    assert c'.heap[applied[i]].next == AppliedNext(applied, i);
  }

  /** The same for the element at `undone[j]`. */
  lemma UndoneLinksFixed(c: Chain, c': Chain, applied: seq<nat>, undone: seq<nat>, j: nat)
    requires Threads(c, applied, undone) && Threads(c', applied, undone)
    requires c.sentinel == c'.sentinel && j < |undone|
    ensures c.heap[undone[j]].next == c'.heap[undone[j]].next
    ensures c.heap[undone[j]].previous == c'.heap[undone[j]].previous
  {
    assert c.heap[undone[j]].next == UndoneNext(c.sentinel, undone, j);
    assert c'.heap[undone[j]].next == UndoneNext(c.sentinel, undone, j);
  }

  /** The addresses of the two segments, the sentinel and the texts fix the
      whole chain: every link is determined by the representation. */
  lemma RepresentationDeterminesChain(c: Chain, c': Chain, applied: seq<nat>, undone: seq<nat>)
    requires Represents(c, applied, undone) && Represents(c', applied, undone)
    requires c.sentinel == c'.sentinel && SameTexts(c.heap, c'.heap)
    ensures c == c'
  {
    RepresentsIsThreads(c, applied, undone);
    var s := c.sentinel;
    forall a | a in c.heap
      ensures c'.heap[a] == c.heap[a]
    {
      if a != s {
        assert a in Addresses(applied + undone);
        var k :| 0 <= k < |applied + undone| && (applied + undone)[k] == a;
        if k < |applied| {
          assert applied[k] == a;
          AppliedLinksFixed(c, c', applied, undone, k);
        } else {
          assert undone[k - |applied|] == a;
          UndoneLinksFixed(c, c', applied, undone, k - |applied|);
        }
      }
    }
    assert c.heap == c'.heap;
  }

  /** A successful redo keeps the representation: the undone head moves to
      the end of the applied segment and its new expression is handed back. */
  lemma RedoKeepsRepresentation(c: Chain, applied: seq<nat>, undone: seq<nat>, buffer: string)
    requires Represents(c, applied, undone) && undone != []
    ensures var r := Redo(Live(c), buffer);
      && r.ok && r.handle.Live?
      && r.expression == c.heap[undone[0]].newExpression
      && Represents(r.handle.chain, applied + [undone[0]], undone[1..])
  {
    RepresentsIsThreads(c, applied, undone);
    RepresentsIsThreads(Redo(Live(c), buffer).handle.chain, applied + [undone[0]], undone[1..]);
    RedoComputes(c, applied, undone, buffer);
    RedoRepresents(c, applied, undone);
  }

  /** Undo then redo keeps every text and the sentinel. */
  lemma UndoThenRedoKeepsTexts(c: Chain, buffer: string, buffer': string)
    requires CanUndo(Live(c))
    ensures var u := Undo(Live(c), buffer);
      var r := Redo(u.handle, buffer');
      && u.ok && u.handle.Live?
      && (r.ok ==> r.handle.Live? && r.handle.chain.sentinel == c.sentinel
                   && SameTexts(c.heap, r.handle.chain.heap)
                   && SameTexts(c.heap, u.handle.chain.heap))
  {
  }

  /** Redo then undo keeps every text and the sentinel. */
  lemma RedoThenUndoKeepsTexts(c: Chain, buffer: string, buffer': string)
    requires CanRedo(Live(c))
    ensures var r := Redo(Live(c), buffer);
      var u := Undo(r.handle, buffer');
      && r.ok && r.handle.Live?
      && (u.ok ==> u.handle.Live? && u.handle.chain.sentinel == c.sentinel
                   && SameTexts(c.heap, u.handle.chain.heap)
                   && SameTexts(c.heap, r.handle.chain.heap))
  {
  }

  /** Moving the last applied address to the undone side and back again
      restores both sequences. */
  lemma UndoneThenRedone<T>(applied: seq<T>, undone: seq<T>)
    requires applied != []
    ensures var n := |applied|;
      && ([applied[n - 1]] + undone)[0] == applied[n - 1]
      && applied[..n - 1] + [applied[n - 1]] == applied
      && ([applied[n - 1]] + undone)[1..] == undone
  {
  }

  /** Moving the first undone address to the applied side and back again
      restores both sequences. */
  lemma RedoneThenUndone<T>(applied: seq<T>, undone: seq<T>)
    requires undone != []
    ensures var applied' := applied + [undone[0]];
      && applied'[|applied'| - 1] == undone[0]
      && applied'[..|applied'| - 1] == applied
      && [undone[0]] + undone[1..] == undone
  {
    assert (applied + [undone[0]])[..|applied|] == applied;
  }

  /** Undo then redo comes back to the same addresses in the same segments. */
  lemma UndoThenRedoAddresses(c: Chain, applied: seq<nat>, undone: seq<nat>, buffer: string, buffer': string)
    requires Represents(c, applied, undone) && applied != []
    ensures var u := Undo(Live(c), buffer);
      var r := Redo(u.handle, buffer');
      && u.ok && u.handle.Live? && r.ok && r.handle.Live?
      && Represents(r.handle.chain, applied, undone)
      && r.expression == u.handle.chain.heap[applied[|applied| - 1]].newExpression
  {
    var n := |applied|;
    UndoKeepsRepresentation(c, applied, undone, buffer);
    var c1 := Undo(Live(c), buffer).handle.chain;
    UndoneThenRedone(applied, undone);
    RedoKeepsRepresentation(c1, applied[..n - 1], [applied[n - 1]] + undone, buffer');
  }

  /** Redo then undo comes back to the same addresses in the same segments. */
  lemma RedoThenUndoAddresses(c: Chain, applied: seq<nat>, undone: seq<nat>, buffer: string, buffer': string)
    requires Represents(c, applied, undone) && undone != []
    ensures var r := Redo(Live(c), buffer);
      var u := Undo(r.handle, buffer');
      && r.ok && r.handle.Live? && u.ok && u.handle.Live?
      && Represents(u.handle.chain, applied, undone)
      && u.expression == r.handle.chain.heap[undone[0]].oldExpression
  {
    RedoKeepsRepresentation(c, applied, undone, buffer);
    var c1 := Redo(Live(c), buffer).handle.chain;
    RedoneThenUndone(applied, undone);
    UndoKeepsRepresentation(c1, applied + [undone[0]], undone[1..], buffer');
  }

  /** Undo followed by redo puts the chain back exactly as it was, link for
      link, and the redo hands back the new expression of the edit undone. */
  lemma UndoThenRedoRestoresChain(c: Chain, applied: seq<nat>, undone: seq<nat>, buffer: string, buffer': string)
    requires Represents(c, applied, undone) && applied != []
    ensures var u := Undo(Live(c), buffer);
      var r := Redo(u.handle, buffer');
      && u.ok && r.ok
      && r.handle == Live(c)
      && r.expression == c.heap[applied[|applied| - 1]].newExpression
  {
    UndoThenRedoAddresses(c, applied, undone, buffer, buffer');
    UndoThenRedoKeepsTexts(c, buffer, buffer');
    var r := Redo(Undo(Live(c), buffer).handle, buffer');
    RepresentationDeterminesChain(c, r.handle.chain, applied, undone);
  }

  /** Redo followed by undo puts the chain back exactly as it was, link for
      link, and the undo hands back the old expression of the edit redone. */
  lemma RedoThenUndoRestoresChain(c: Chain, applied: seq<nat>, undone: seq<nat>, buffer: string, buffer': string)
    requires Represents(c, applied, undone) && undone != []
    ensures var r := Redo(Live(c), buffer);
      var u := Undo(r.handle, buffer');
      && r.ok && u.ok
      && u.handle == Live(c)
      && u.expression == c.heap[undone[0]].oldExpression
  {
    RedoThenUndoAddresses(c, applied, undone, buffer, buffer');
    RedoThenUndoKeepsTexts(c, buffer, buffer');
    var u := Undo(Redo(Live(c), buffer).handle, buffer');
    RepresentationDeterminesChain(c, u.handle.chain, applied, undone);
  }
}
