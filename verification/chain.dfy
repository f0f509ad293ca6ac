/** The engine as written: a doubly linked chain of elements in a heap, cut in
    two by a dataless sentinel element.

    - The applied segment runs from the sentinel's `next` through `next` links
      to `last`; walking `previous` from `last` leads back to the sentinel.
    - The undone segment runs from `first` through `next` links to the
      sentinel; the sentinel's `previous` is its innermost element.
    - `first` and `last` are null when their segment is empty; they never
      point at the sentinel between operations.

    Each operation below follows the statements of its C function one by one.
    Pointers are heap addresses; `malloc` is a parameter (the address it
    returned, or `Null` when it failed); `free` removes an address from the
    heap. Dereferencing a null or dangling pointer is undefined behaviour in
    C; here it reads a blank element and writing through it changes nothing.
 */
module EditChain {
  import EditHistory

  datatype Ptr = Null | Ref(addr: nat)

  /** One chain element. The sentinel is an element whose texts are never read. */
  datatype Element = Element(oldExpression: string, newExpression: string, next: Ptr, previous: Ptr)

  type Heap = map<nat, Element>

  /** The engine's structure: the heap it owns, its two cursors and its sentinel. */
  datatype Chain = Chain(heap: Heap, first: Ptr, last: Ptr, sentinel: nat)

  /** What the caller holds: a pointer to the structure, possibly null. */
  datatype Handle = Nil | Live(chain: Chain)

  datatype ChainRecorded = ChainRecorded(ok: bool, handle: Handle)

  datatype ChainMoved = ChainMoved(ok: bool, expression: string, handle: Handle)

  /** The element `p` points at; blank when `p` is null or dangling. */
  function Deref(h: Heap, p: Ptr): Element {
    if p.Ref? && p.addr in h then h[p.addr] else Element("", "", Null, Null)
  }

  /** `h'` holds the elements of `h` with the same texts: only links differ. */
  predicate SameTexts(h: Heap, h': Heap) {
    && h'.Keys == h.Keys
    && forall a :: a in h ==>
      h'[a].oldExpression == h[a].oldExpression && h'[a].newExpression == h[a].newExpression
  }

  /** `p->next = q`. */
  function SetNext(h: Heap, p: Ptr, q: Ptr): (h': Heap)
    ensures SameTexts(h, h')
  {
    if p.Ref? && p.addr in h then h[p.addr := h[p.addr].(next := q)] else h
  }

  /** `p->previous = q`. */
  function SetPrevious(h: Heap, p: Ptr, q: Ptr): (h': Heap)
    ensures SameTexts(h, h')
  {
    if p.Ref? && p.addr in h then h[p.addr := h[p.addr].(previous := q)] else h
  }

  /** `UNDOREDOCELLS_create`: `structOk` says whether the structure itself
      could be allocated, `sentinelBlock` is the sentinel's allocation. */
  function Create(structOk: bool, sentinelBlock: Ptr): (hd: Handle)
    ensures hd.Live? <==> structOk && sentinelBlock.Ref?
    ensures hd.Live? ==>
      (hd.chain.heap.Keys == {hd.chain.sentinel} && hd.chain.first == Null && hd.chain.last == Null)
  {
    if !structOk then Nil
    else if sentinelBlock.Null? then Nil
    else Live(Chain(map[sentinelBlock.addr := Element("", "", Null, Null)], Null, Null, sentinelBlock.addr))
  }

  /** `UNDOREDOCELLS_canUndo`. */
  function CanUndo(hd: Handle): (b: bool)
    ensures b ==> hd.Live?
  {
    hd.Live? && hd.chain.last != Null
  }

  /** `UNDOREDOCELLS_canRedo`. */
  function CanRedo(hd: Handle): (b: bool)
    ensures b ==> hd.Live?
  {
    hd.Live? && hd.chain.first != Null
  }

  /** The loop of `UNDOREDOCELLS_newItem` that frees the undone segment,
      from `first` up to the sentinel. When the element to free is null or
      not in the heap the model stops, so that it terminates; a represented
      chain never reaches this case. */
  function DiscardRedo(h: Heap, first: Ptr, sentinel: nat): (r: (Heap, Ptr))
    ensures r.0.Keys <= h.Keys
    decreases |h.Keys|
  {
    if first.Null? then (h, first)
    else
      var first := Deref(h, first).next;
      var victim := Deref(h, first).previous;
      if victim.Null? || victim.addr !in h then (h, first)
      else
        var h1 := h - {victim.addr};
        assert h1.Keys == h.Keys - {victim.addr};
        var h2 := SetPrevious(h1, first, Null);
        var first := if first == Ref(sentinel) then Null else first;
        DiscardRedo(h2, first, sentinel)
  }

  /** `UNDOREDOCELLS_newItem`: `block` is the address `malloc` returned for
      the new element, or `Null` when it failed. */
  function NewItem(hd: Handle, oldExpression: string, newExpression: string, block: Ptr): (r: ChainRecorded)
    requires EditHistory.FitsBuffer(oldExpression) && EditHistory.FitsBuffer(newExpression)
    requires hd.Live? && block.Ref? ==> block.addr !in hd.chain.heap
    ensures r.ok <==> hd.Live? && block.Ref?
    ensures !r.ok ==> r.handle == hd
    ensures r.ok ==> r.handle.Live? && r.handle.chain.sentinel == hd.chain.sentinel
  {
    if hd.Nil? then ChainRecorded(false, hd)
    else if block.Null? then ChainRecorded(false, hd)
    else
      var c := hd.chain;
      var s := Ref(c.sentinel);
      var newElement := block;
      var h := c.heap[newElement.addr := Element(oldExpression, newExpression, Null, Null)];
      var (h, last) :=
        if c.last.Null? then
          var last := newElement;
          var h := SetNext(h, s, newElement);
          var h := SetPrevious(h, newElement, s);
          (h, last)
        else
          var h := SetNext(h, c.last, newElement);
          var h := SetPrevious(h, newElement, c.last);
          var last := Deref(h, c.last).next;
          (h, last);
      var (h, first) := DiscardRedo(h, c.first, c.sentinel);
      ChainRecorded(true, Live(Chain(h, first, last, c.sentinel)))
  }

  /** `UNDOREDOCELLS_undo`: on success `expression` is what `strcpy` wrote into
      the caller's buffer; on failure it is the buffer unchanged. */
  function Undo(hd: Handle, buffer: string): (r: ChainMoved)
    ensures r.ok <==> CanUndo(hd)
    ensures !r.ok ==> r.expression == buffer && r.handle == hd
    ensures r.ok ==> r.expression == Deref(hd.chain.heap, hd.chain.last).oldExpression
    ensures r.ok ==>
      (r.handle.Live? && r.handle.chain.sentinel == hd.chain.sentinel
       && SameTexts(hd.chain.heap, r.handle.chain.heap))
  {
    if hd.Nil? || hd.chain.last.Null? then ChainMoved(false, buffer, hd)
    else
      var c := hd.chain;
      var s := Ref(c.sentinel);
      var expression := Deref(c.heap, c.last).oldExpression;
      var last := Deref(c.heap, c.last).previous;
      var (h, first) :=
        if c.first.Null? then
          var first := Deref(c.heap, last).next;
          var h := SetNext(c.heap, first, s);
          var h := SetPrevious(h, first, Null);
          var h := SetPrevious(h, s, first);
          (h, first)
        else
          var h := SetPrevious(c.heap, c.first, Deref(c.heap, last).next);
          var h := SetNext(h, Deref(h, c.first).previous, c.first);
          var first := Deref(h, c.first).previous;
          var h := SetPrevious(h, first, Null);
          (h, first);
      var h := SetNext(h, last, Null);
      var last := if last == s then Null else last;
      ChainMoved(true, expression, Live(Chain(h, first, last, c.sentinel)))
  }

  /** `UNDOREDOCELLS_redo`: on success `expression` is what `strcpy` wrote into
      the caller's buffer; on failure it is the buffer unchanged. */
  function Redo(hd: Handle, buffer: string): (r: ChainMoved)
    ensures r.ok <==> CanRedo(hd)
    ensures !r.ok ==> r.expression == buffer && r.handle == hd
    ensures r.ok ==> r.expression == Deref(hd.chain.heap, hd.chain.first).newExpression
    ensures r.ok ==>
      (r.handle.Live? && r.handle.chain.sentinel == hd.chain.sentinel
       && SameTexts(hd.chain.heap, r.handle.chain.heap))
  {
    if hd.Nil? || hd.chain.first.Null? then ChainMoved(false, buffer, hd)
    else
      var c := hd.chain;
      var s := Ref(c.sentinel);
      var expression := Deref(c.heap, c.first).newExpression;
      var first := Deref(c.heap, c.first).next;
      var (h, last) :=
        if c.last.Null? then
          var last := Deref(c.heap, first).previous;
          var h := SetPrevious(c.heap, last, s);
          var h := SetNext(h, last, Null);
          var h := SetNext(h, s, last);
          (h, last)
        else
          var h := SetNext(c.heap, c.last, Deref(c.heap, first).previous);
          var h := SetPrevious(h, Deref(h, c.last).next, c.last);
          var last := Deref(h, c.last).next;
          var h := SetNext(h, last, Null);
          (h, last);
      var h := SetPrevious(h, first, Null);
      var first := if first == s then Null else first;
      ChainMoved(true, expression, Live(Chain(h, first, last, c.sentinel)))
  }

  /** `UNDOREDOCELLS_freeElements`: frees `element` and every element after
      it along `next` links, freeing each one through its successor's
      `previous`. The C function always returns null, so only the heap it
      leaves is modelled. A null or dangling `previous` stops the walk, so
      that it terminates, as in `DiscardRedo`; a doubly linked path never
      reaches this case. */
  function FreeElements(h: Heap, element: Ptr): (r: Heap)
    ensures r.Keys <= h.Keys
    decreases |h.Keys|
  {
    if element.Null? then h
    else if Deref(h, element).next.Ref? then
      var element := Deref(h, element).next;
      var victim := Deref(h, element).previous;
      if victim.Null? || victim.addr !in h then h
      else
        var h1 := h - {victim.addr};
        assert h1.Keys == h.Keys - {victim.addr};
        var h2 := SetPrevious(h1, element, Null);
        FreeElements(h2, element)
    else if element.addr in h then h - {element.addr}
    else h
  }

  /** `UNDOREDOCELLS_free` as written: it frees the elements from `first` on
      and then the structure itself, whose memory is not part of the heap
      here. The result is the heap left allocated. The C function
      dereferences the handle without checking it. */
  function Free(hd: Handle): (leaked: Heap)
    requires hd.Live?
    ensures leaked.Keys <= hd.chain.heap.Keys
  {
    FreeElements(hd.chain.heap, hd.chain.first)
  }

  /** Teardown that starts from `first` when there is something to redo and
      from the sentinel otherwise, so that the walk always reaches every
      element. */
  function FreeAll(hd: Handle): (leaked: Heap)
    requires hd.Live?
    ensures leaked.Keys <= hd.chain.heap.Keys
  {
    var start := if hd.chain.first.Ref? then hd.chain.first else Ref(hd.chain.sentinel);
    FreeElements(hd.chain.heap, start)
  }
}
