/** Tearing the engine down.

    `UNDOREDOCELLS_free` hands `first` to `UNDOREDOCELLS_freeElements`, which
    walks `next` links and frees every element it passes. On a represented
    chain the walk from `first` runs through the undone segment, the sentinel
    and the applied segment, so everything is freed when something can be
    redone. When nothing can be redone, `first` is null and nothing at all is
    freed. `FreeAll` starts from the sentinel in that case, and frees
    everything on every represented chain.
 */
module ChainTeardown {
  import opened EditChain
  import opened ChainRefinement

  /** Where `next` of the `i`th element of a path must point. */
  function PathNext(path: seq<nat>, i: nat): Ptr
    requires i < |path|
  {
    if i == |path| - 1 then Null else Ref(path[i + 1])
  }

  /** Where `previous` of the `i`th element of a path must point; the first
      element's `previous` is not constrained. */
  function PathPrevious(path: seq<nat>, i: nat): Ptr
    requires 0 < i < |path|
  {
    Ref(path[i - 1])
  }

  /** `path` lists distinct elements of `h` linked both ways, the last one
      with a null `next`. */
  predicate Path(h: Heap, path: seq<nat>) {
    && NoDuplicates(path)
    && (forall i :: 0 <= i < |path| ==> path[i] in h)
    && (forall i :: 0 <= i < |path| ==> h[path[i]].next == PathNext(path, i))
    && (forall i :: 0 < i < |path| ==> h[path[i]].previous == PathPrevious(path, i))
  }

  /** After one element is freed and its successor's `previous` cleared, the
      rest of the path is still a path. */
  lemma PathTail(h: Heap, path: seq<nat>)
    requires Path(h, path) && |path| > 1
    ensures Path(SetPrevious(h - {path[0]}, Ref(path[1]), Null), path[1..])
  {
    var h2 := SetPrevious(h - {path[0]}, Ref(path[1]), Null);
    var rest := path[1..];
    forall i | 0 <= i < |rest|
      ensures rest[i] in h2 && h2[rest[i]].next == PathNext(rest, i)
    {
      assert rest[i] == path[i + 1] && path[i + 1] != path[0];
      assert h[path[i + 1]].next == PathNext(path, i + 1);
    }
    forall i | 0 < i < |rest|
      ensures h2[rest[i]].previous == PathPrevious(rest, i)
    {
      assert rest[i] == path[i + 1] && path[i + 1] != path[1];
      assert h[path[i + 1]].previous == PathPrevious(path, i + 1);
    }
  }

  /** `freeElements` on a path of one element frees that element. */
  lemma FreeElementsLast(h: Heap, path: seq<nat>)
    requires Path(h, path) && |path| == 1
    ensures FreeElements(h, Ref(path[0])) == h - {path[0]}
  {
    assert h[path[0]].next == PathNext(path, 0);
  }

  /** One call of `freeElements` on a longer path frees its head, clears the
      successor's `previous` and recurses on the successor. */
  lemma FreeElementsStep(h: Heap, path: seq<nat>)
    requires Path(h, path) && |path| > 1
    ensures FreeElements(h, Ref(path[0]))
      == FreeElements(SetPrevious(h - {path[0]}, Ref(path[1]), Null), Ref(path[1]))
  {
    assert h[path[0]].next == PathNext(path, 0);
    assert h[path[1]].previous == PathPrevious(path, 1);
  }

  /** Freeing the head and then the rest of a path frees the whole path. */
  lemma FreedInTurn(h: Heap, path: seq<nat>)
    requires |path| > 1 && path[0] in h && path[1] in h && path[0] != path[1]
    ensures SetPrevious(h - {path[0]}, Ref(path[1]), Null) - Addresses(path[1..]) == h - Addresses(path)
  {
    var rest := path[1..];
    assert Addresses(path) == {path[0]} + Addresses(rest);
    assert path[1] in Addresses(rest);
  }

  /** `freeElements` from the head of a path frees exactly the path and
      leaves every other element as it was. */
  lemma {:induction false} FreeElementsFreesPath(h: Heap, path: seq<nat>)
    requires Path(h, path) && path != []
    ensures FreeElements(h, Ref(path[0])) == h - Addresses(path)
    decreases |path|
  {
    if |path| == 1 {
      FreeElementsLast(h, path);
      assert Addresses(path) == {path[0]};
    } else {
      FreeElementsStep(h, path);
      PathTail(h, path);
      FreeElementsFreesPath(SetPrevious(h - {path[0]}, Ref(path[1]), Null), path[1..]);
      FreedInTurn(h, path);
    }
  }

  /** The order `freeElements` visits a represented chain in, when it starts
      from the outermost undone element (or from the sentinel when nothing
      is undone). */
  function TeardownOrder(s: nat, applied: seq<nat>, undone: seq<nat>): seq<nat> {
    undone + [s] + applied
  }

  /** The visiting order lists each element once. */
  lemma TeardownOrderDistinct(s: nat, applied: seq<nat>, undone: seq<nat>)
    requires NoDuplicates(applied + undone) && s !in applied + undone
    ensures NoDuplicates(TeardownOrder(s, applied, undone))
  {
    var path := TeardownOrder(s, applied, undone);
    var both := applied + undone;
    var u := |undone|;
    forall i, j | 0 <= i < j < |path|
      ensures path[i] != path[j]
    {
      if i < u && j < u {
        assert path[i] == both[|applied| + i] && path[j] == both[|applied| + j];
      } else if i < u && j == u {
        assert path[i] == both[|applied| + i];
      } else if i < u {
        assert path[i] == both[|applied| + i] && path[j] == both[j - u - 1];
      } else if i == u {
        assert path[j] == both[j - u - 1];
      } else {
        assert path[i] == both[i - u - 1] && path[j] == both[j - u - 1];
      }
    }
  }

  /** Where the visiting order puts each element. */
  lemma TeardownOrderPositions(s: nat, applied: seq<nat>, undone: seq<nat>)
    ensures var path := TeardownOrder(s, applied, undone);
      && |path| == |undone| + 1 + |applied|
      && path[|undone|] == s
      && (forall i :: 0 <= i < |undone| ==> path[i] == undone[i])
      && (forall k :: 0 <= k < |applied| ==> path[|undone| + 1 + k] == applied[k])
  {
  }

  /** The links of the `i`th undone element follow the visiting order. */
  lemma UndoneStepInOrder(h: Heap, first: Ptr, s: nat, applied: seq<nat>, undone: seq<nat>, i: nat)
    requires UndoneSegment(h, first, s, undone) && i < |undone|
    ensures var path := TeardownOrder(s, applied, undone);
      && path[i] in h
      && h[path[i]].next == PathNext(path, i)
      && (i > 0 ==> h[path[i]].previous == PathPrevious(path, i))
  {
    TeardownOrderPositions(s, applied, undone);
    assert h[undone[i]].next == UndoneNext(s, undone, i);
    assert h[undone[i]].previous == UndonePrevious(undone, i);
  }

  /** The sentinel's links follow the visiting order. */
  lemma SentinelStepInOrder(h: Heap, first: Ptr, last: Ptr, s: nat, applied: seq<nat>, undone: seq<nat>)
    requires AppliedSegment(h, last, s, applied) && UndoneSegment(h, first, s, undone)
    ensures var path := TeardownOrder(s, applied, undone);
      && path[|undone|] in h
      && h[path[|undone|]].next == PathNext(path, |undone|)
      && (|undone| > 0 ==> h[path[|undone|]].previous == PathPrevious(path, |undone|))
  {
    TeardownOrderPositions(s, applied, undone);
  }

  /** The links of the `k`th applied element follow the visiting order. */
  lemma AppliedStepInOrder(h: Heap, last: Ptr, s: nat, applied: seq<nat>, undone: seq<nat>, k: nat)
    requires AppliedSegment(h, last, s, applied) && k < |applied|
    ensures var path := TeardownOrder(s, applied, undone);
      var i := |undone| + 1 + k;
      && path[i] in h
      && h[path[i]].next == PathNext(path, i)
      && h[path[i]].previous == PathPrevious(path, i)
  {
    TeardownOrderPositions(s, applied, undone);
    assert h[applied[k]].next == AppliedNext(applied, k);
    assert h[applied[k]].previous == AppliedPrevious(s, applied, k);
  }

  /** Every link of a represented chain follows the visiting order. */
  lemma TeardownOrderLinks(c: Chain, applied: seq<nat>, undone: seq<nat>)
    requires AppliedSegment(c.heap, c.last, c.sentinel, applied)
    requires UndoneSegment(c.heap, c.first, c.sentinel, undone)
    ensures var path := TeardownOrder(c.sentinel, applied, undone);
      && (forall i :: 0 <= i < |path| ==> path[i] in c.heap && c.heap[path[i]].next == PathNext(path, i))
      && (forall i :: 0 < i < |path| ==> c.heap[path[i]].previous == PathPrevious(path, i))
  {
    var path := TeardownOrder(c.sentinel, applied, undone);
    var u := |undone|;
    forall i | 0 <= i < |path|
      ensures path[i] in c.heap && c.heap[path[i]].next == PathNext(path, i)
      ensures i > 0 ==> c.heap[path[i]].previous == PathPrevious(path, i)
    {
      if i < u {
        UndoneStepInOrder(c.heap, c.first, c.sentinel, applied, undone, i);
      } else if i == u {
        SentinelStepInOrder(c.heap, c.first, c.last, c.sentinel, applied, undone);
      } else {
        AppliedStepInOrder(c.heap, c.last, c.sentinel, applied, undone, i - u - 1);
      }
    }
  }

  /** The visiting order lists the threaded addresses and the sentinel. */
  lemma TeardownOrderAddresses(s: nat, applied: seq<nat>, undone: seq<nat>)
    ensures Addresses(TeardownOrder(s, applied, undone)) == Addresses(applied + undone) + {s}
  {
    var path := TeardownOrder(s, applied, undone);
    forall a | a in Addresses(path)
      ensures a in Addresses(applied + undone) + {s}
    {
      var k :| 0 <= k < |path| && path[k] == a;
      if k < |undone| {
        assert (applied + undone)[|applied| + k] == a;
      } else if k > |undone| {
        assert (applied + undone)[k - |undone| - 1] == a;
      }
    }
    forall a | a in Addresses(applied + undone) + {s}
      ensures a in Addresses(path)
    {
      if a == s {
        assert path[|undone|] == a;
      } else {
        var k :| 0 <= k < |applied + undone| && (applied + undone)[k] == a;
        if k < |applied| {
          assert path[|undone| + 1 + k] == a;
        } else {
          assert path[k - |applied|] == a;
        }
      }
    }
  }

  /** A represented chain is one path, in the visiting order, that covers
      the whole heap. */
  lemma TeardownOrderIsPath(c: Chain, applied: seq<nat>, undone: seq<nat>)
    requires Represents(c, applied, undone)
    ensures Path(c.heap, TeardownOrder(c.sentinel, applied, undone))
    ensures c.heap.Keys == Addresses(TeardownOrder(c.sentinel, applied, undone))
  {
    TeardownOrderDistinct(c.sentinel, applied, undone);
    TeardownOrderLinks(c, applied, undone);
    RepresentsIsThreads(c, applied, undone);
    TeardownOrderAddresses(c.sentinel, applied, undone);
  }

  /** Walking a path that covers the whole heap frees everything. */
  lemma FreeElementsFreesCoveringPath(h: Heap, path: seq<nat>)
    requires Path(h, path) && path != [] && h.Keys == Addresses(path)
    ensures FreeElements(h, Ref(path[0])) == map[]
  {
    FreeElementsFreesPath(h, path);
    assert (h - Addresses(path)).Keys == {};
  }

  /** The corrected teardown frees every element and the sentinel of any
      represented chain. */
  lemma FreeAllReleasesEverything(c: Chain, applied: seq<nat>, undone: seq<nat>)
    requires Represents(c, applied, undone)
    ensures FreeAll(Live(c)) == map[]
  {
    var path := TeardownOrder(c.sentinel, applied, undone);
    TeardownOrderIsPath(c, applied, undone);
    assert path[0] == if undone != [] then undone[0] else c.sentinel;
    FreeElementsFreesCoveringPath(c.heap, path);
  }

  /** Teardown as written frees everything when something can be redone. */
  lemma FreeReleasesEverythingWithRedo(c: Chain, applied: seq<nat>, undone: seq<nat>)
    requires Represents(c, applied, undone) && undone != []
    ensures Free(Live(c)) == map[]
  {
    FreeAllReleasesEverything(c, applied, undone);
  }

  /** Teardown as written frees nothing when nothing can be redone: the
      sentinel and every applied element stay allocated. */
  lemma FreeLeaksWithoutRedo(c: Chain, applied: seq<nat>)
    requires Represents(c, applied, [])
    ensures Free(Live(c)) == c.heap
    ensures c.sentinel in Free(Live(c))
    ensures forall i :: 0 <= i < |applied| ==> applied[i] in Free(Live(c))
  {
  }

  /** The smallest case: tearing down a freshly created engine leaves its
      sentinel allocated. */
  lemma FreshEngineLeaksSentinel(a: nat)
    ensures Free(Create(true, Ref(a))) == map[a := Element("", "", Null, Null)]
  {
  }
}
