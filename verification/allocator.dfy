/** `heap_allocate`: take the head of the free list, collecting first when
    the list is empty. */
module Allocator {
  import opened Wrappers
  import opened Heap
  import opened Collector
  import opened Faults

  /** The collector an allocation runs when the free list is empty: go_vm
      and mark_sweep_gc keep the marks below the bottom, compiler.js clears
      them. */
  datatype Gc =
    | KeepLowMarks(bottom: int)
    | ClearLowMarks(bottom: int)

  function Collect(h: Heap, gc: Gc, roots: seq<int>): (r: Heap)
    ensures r.size == h.size && r.slots.Keys == h.slots.Keys
  {
    match gc
    case KeepLowMarks(bottom) => MarkSweep(h, roots, bottom)
    case ClearLowMarks(bottom) => MarkSweepClear(h, roots, bottom)
  }

  /** The error each variant raises when a collection frees nothing. */
  function ExhaustedFault(gc: Gc): Fault {
    if gc.KeepLowMarks? then HeapExhausted else OutOfMemory
  }

  /** Allocates a node of `size` words with the given tag, collecting from
      `roots` first if the free list is empty. */
  function Allocate(h: Heap, gc: Gc, tag: Tag, size: int, roots: seq<int>): (r: Result<(Heap, int), Fault>)
    ensures size > NodeSize ==> r == Err(NodeTooLarge)
    ensures size <= NodeSize && h.free != EndOfFreeList && h.free in h.slots ==> r == Ok(TakeFree(h, tag, size).value)
    ensures r.Err? ==> r.error == NodeTooLarge || r.error == ExhaustedFault(gc)
    ensures r.Ok? ==>
              var (h', a) := r.value;
              && HasTag(h', a, tag) && h'.slots[a].size == size && !h'.slots[a].marked
              && h'.size == h.size && h'.slots.Keys == h.slots.Keys
  {
    if size > NodeSize then Err(NodeTooLarge) else Attempt(h, gc, tag, size, roots, false)
  }

  /** The two attempts of an allocation: the first takes the head of the
      free list; when the list is empty, the second takes the head of the
      list the collector leaves. Keeping the collection inside the second
      attempt means a proof about an allocation from a non-empty list never
      sees the collector. */
  function Attempt(h: Heap, gc: Gc, tag: Tag, size: int, roots: seq<int>, collected: bool): (r: Result<(Heap, int), Fault>)
    ensures r.Err? ==> r.error == ExhaustedFault(gc)
    ensures r.Ok? ==>
              var (h', a) := r.value;
              && HasTag(h', a, tag) && h'.slots[a].size == size && !h'.slots[a].marked
              && h'.size == h.size && h'.slots.Keys == h.slots.Keys
    decreases !collected
  {
    if !collected && h.free == EndOfFreeList then Attempt(h, gc, tag, size, roots, true)
    else
      var h1 := if collected then Collect(h, gc, roots) else h;
      match TakeFree(h1, tag, size)
      case None => Err(ExhaustedFault(gc))
      case Some(p) => Ok(p)
  }

  /** With an empty free list, an allocation succeeds exactly when the
      collection frees a slot, and then takes the head of the freed list. */
  lemma AllocateCollects(h: Heap, gc: Gc, tag: Tag, size: int, roots: seq<int>)
    requires size <= NodeSize && h.free == EndOfFreeList
    ensures var r := Allocate(h, gc, tag, size, roots);
            var c := Collect(h, gc, roots);
            && (r.Ok? <==> c.free in c.slots)
            && (r.Ok? ==> r.value == TakeFree(c, tag, size).value)
  {
    assert Allocate(h, gc, tag, size, roots) == Attempt(h, gc, tag, size, roots, false);
    assert Attempt(h, gc, tag, size, roots, false) == Attempt(h, gc, tag, size, roots, true);
  }

  /** The free list an allocation leaves behind. */
  ghost function FreeListAfter(h: Heap, gc: Gc, roots: seq<int>, xs: seq<int>): seq<int> {
    if h.free != EndOfFreeList then (if xs == [] then [] else xs[1..])
    else
      var f := FreedFrom(MarkEach(h, roots), gc.bottom);
      if f == [] then [] else f[1..]
  }

  /** Every node the roots reach in `h` is still there in `h'` with the
      same contents, apart from its mark. */
  ghost predicate KeepsReachable(h: Heap, h': Heap, roots: seq<int>) {
    forall b :: Reachable(h, roots, b) ==>
      IsNode(h', b) && h'.slots[b] == h.slots[b].(marked := h'.slots[b].marked)
  }

  /** An allocation keeps every node reachable from the roots it was given,
      with its contents, and hands out a slot that none of them occupies;
      the free list stays a free list. This is the collector's soundness
      relative to the roots each caller passes. */
  lemma AllocateKeepsReachable(h: Heap, gc: Gc, tag: Tag, size: int, roots: seq<int>, xs: seq<int>)
    requires WellFormed(h) && Closed(h) && IsFreeList(h, h.free, xs)
    requires Allocate(h, gc, tag, size, roots).Ok?
    ensures var (h', a) := Allocate(h, gc, tag, size, roots).value;
            && !Reachable(h, roots, a)
            && KeepsReachable(h, h', roots)
            && IsFreeList(h', h'.free, FreeListAfter(h, gc, roots, xs))
  {
    var (h', a) := Allocate(h, gc, tag, size, roots).value;
    if h.free != EndOfFreeList {
      TakeFreeKeepsFreeList(h, tag, size, xs);
    } else {
      AllocateAfterCollection(h, gc, tag, size, roots);
    }
  }

  lemma AllocateAfterCollection(h: Heap, gc: Gc, tag: Tag, size: int, roots: seq<int>)
    requires Closed(h) && h.free == EndOfFreeList && EndOfFreeList !in h.slots
    requires Allocate(h, gc, tag, size, roots).Ok?
    ensures var (h', a) := Allocate(h, gc, tag, size, roots).value;
            && !Reachable(h, roots, a)
            && KeepsReachable(h, h', roots)
            && IsFreeList(h', h'.free, FreeListAfter(h, gc, roots, []))
  {
    var c := Collect(h, gc, roots);
    var f := FreedFrom(MarkEach(h, roots), gc.bottom);
    CollectFreeList(h, gc, roots);
    AllocateCollects(h, gc, tag, size, roots);
    TakeFreeKeepsFreeList(c, tag, size, f);
    forall b | Reachable(h, roots, b)
      ensures IsNode(c, b) && c.slots[b] == h.slots[b].(marked := c.slots[b].marked)
    {
      CollectKeepsReachable(h, gc, roots, b);
    }
  }

  /** After a collection that starts from an empty free list, the list is
      empty or starts with a slot that marking did not reach. */
  lemma CollectFreeList(h: Heap, gc: Gc, roots: seq<int>)
    requires Closed(h) && h.free == EndOfFreeList && EndOfFreeList !in h.slots
    ensures var c := Collect(h, gc, roots);
            var f := FreedFrom(MarkEach(h, roots), gc.bottom);
            && IsFreeList(c, c.free, f)
            && (c.free in c.slots ==> f != [] && !Reachable(h, roots, c.free))
  {
    var c := Collect(h, gc, roots);
    var m := MarkEach(h, roots);
    var f := FreedFrom(m, gc.bottom);
    MarkSweepFreeList(h, roots, gc.bottom);
    if c.free in c.slots {
      assert f != [] && c.free == f[0];
      assert !IsMarked(m, c.free);
      if Reachable(h, roots, c.free) {
        MarkEachMarksReachable(h, roots, c.free);
      }
    }
  }

  lemma CollectKeepsReachable(h: Heap, gc: Gc, roots: seq<int>, b: int)
    requires Closed(h) && Reachable(h, roots, b)
    ensures var c := Collect(h, gc, roots);
            IsNode(c, b) && c.slots[b] == h.slots[b].(marked := c.slots[b].marked)
  {
    if gc.KeepLowMarks? {
      MarkSweepKeepsReachable(h, roots, gc.bottom, b);
    } else {
      MarkSweepClearKeepsReachable(h, roots, gc.bottom, b);
    }
  }

  /** Collecting keeps the heap well formed. */
  lemma CollectWellFormed(h: Heap, gc: Gc, roots: seq<int>)
    requires WellFormed(h)
    ensures WellFormed(Collect(h, gc, roots))
  {
    var m := MarkEach(h, roots);
    SweepFromEffect(m, gc.bottom);
    var s := SweepFrom(m, gc.bottom);
    assert WellFormed(s);
  }

  /** Allocating keeps the heap well formed. */
  lemma AllocateWellFormed(h: Heap, gc: Gc, tag: Tag, size: int, roots: seq<int>)
    ensures WellFormed(h) && Allocate(h, gc, tag, size, roots).Ok? ==>
              WellFormed(Allocate(h, gc, tag, size, roots).value.0)
  {
    if WellFormed(h) && size <= NodeSize {
      CollectWellFormed(h, gc, roots);
      if h.free == EndOfFreeList {
        AllocateCollects(h, gc, tag, size, roots);
      }
      var c := Collect(h, gc, roots);
      if h.free == EndOfFreeList && TakeFree(c, tag, size).Some? {
        TakeFreeWellFormed(c, tag, size);
      } else if TakeFree(h, tag, size).Some? {
        TakeFreeWellFormed(h, tag, size);
      }
    }
  }

  /** An allocation leaves a free list behind, whatever the roots: the old
      list without its head, or the slots the collection freed without the
      one handed out. */
  lemma AllocateFreeList(h: Heap, gc: Gc, tag: Tag, size: int, roots: seq<int>, xs: seq<int>)
    requires WellFormed(h) && IsFreeList(h, h.free, xs)
    requires Allocate(h, gc, tag, size, roots).Ok?
    ensures var (h', a) := Allocate(h, gc, tag, size, roots).value;
            IsFreeList(h', h'.free, FreeListAfter(h, gc, roots, xs))
  {
    if h.free != EndOfFreeList {
      TakeFreeKeepsFreeList(h, tag, size, xs);
    } else {
      var c := Collect(h, gc, roots);
      var f := FreedFrom(MarkEach(h, roots), gc.bottom);
      MarkSweepFreeList(h, roots, gc.bottom);
      AllocateCollects(h, gc, tag, size, roots);
      assert IsFreeList(c, c.free, f);
      TakeFreeKeepsFreeList(c, tag, size, f);
    }
  }

  /** Once the free list lies at or above the bottom, an allocation hands
      out a slot at or above it, leaves every node below it in place apart
      from its mark, and keeps the list above it. The canonical literals,
      the builtins and the constants live below the bottom. */
  lemma AllocateKeepsLowNodes(h: Heap, gc: Gc, tag: Tag, size: int, roots: seq<int>, xs: seq<int>)
    requires WellFormed(h) && IsFreeList(h, h.free, xs)
    requires forall x :: x in xs ==> x >= gc.bottom
    requires Allocate(h, gc, tag, size, roots).Ok?
    ensures var (h', a) := Allocate(h, gc, tag, size, roots).value;
            && a >= gc.bottom
            && (forall b :: b < gc.bottom && IsNode(h, b) ==>
                  IsNode(h', b) && h'.slots[b] == h.slots[b].(marked := h'.slots[b].marked))
            && (forall x :: x in FreeListAfter(h, gc, roots, xs) ==> x >= gc.bottom)
  {
    if h.free != EndOfFreeList {
      assert xs != [] && xs[0] in xs;
      TakeFreeKeepsFreeList(h, tag, size, xs);
      assert forall x :: x in xs[1..] ==> x in xs;
    } else {
      CollectionKeepsLowNodes(h, gc, tag, size, roots);
    }
  }

  lemma CollectionKeepsLowNodes(h: Heap, gc: Gc, tag: Tag, size: int, roots: seq<int>)
    requires WellFormed(h) && h.free == EndOfFreeList
    requires Allocate(h, gc, tag, size, roots).Ok?
    ensures var (h', a) := Allocate(h, gc, tag, size, roots).value;
            && a >= gc.bottom
            && (forall b :: b < gc.bottom && IsNode(h, b) ==>
                  IsNode(h', b) && h'.slots[b] == h.slots[b].(marked := h'.slots[b].marked))
            && (forall x :: x in FreeListAfter(h, gc, roots, []) ==> x >= gc.bottom)
  {
    var c := Collect(h, gc, roots);
    var f := FreedFrom(MarkEach(h, roots), gc.bottom);
    MarkSweepFreeList(h, roots, gc.bottom);
    AllocateCollects(h, gc, tag, size, roots);
    assert f != [];
    TakeFreeKeepsFreeList(c, tag, size, f);
    assert forall x :: x in f[1..] ==> x in f && Swept(h.size, gc.bottom, x);
    CollectKeepsLowNodes(h, gc, roots);
  }

  lemma CollectKeepsLowNodes(h: Heap, gc: Gc, roots: seq<int>)
    ensures var c := Collect(h, gc, roots);
            forall b :: b < gc.bottom && IsNode(h, b) ==>
              IsNode(c, b) && c.slots[b] == h.slots[b].(marked := c.slots[b].marked)
  {
    var m := MarkEach(h, roots);
    SweepFromEffect(m, gc.bottom);
  }

  /** compiler.js never leaves a mark behind: a heap with no marks still has
      none after an allocation, with or without a collection, so every
      collection it runs starts from closed marks. */
  lemma ClearingAllocateKeepsNoMarks(h: Heap, bottom: int, tag: Tag, size: int, roots: seq<int>)
    requires WellFormed(h) && bottom % NodeSize == 0
    requires forall x :: !IsMarked(h, x)
    requires Allocate(h, ClearLowMarks(bottom), tag, size, roots).Ok?
    ensures forall x :: !IsMarked(Allocate(h, ClearLowMarks(bottom), tag, size, roots).value.0, x)
  {
    var c := Collect(h, ClearLowMarks(bottom), roots);
    if h.free == EndOfFreeList {
      MarkSweepClearLeavesNoMark(h, roots, bottom);
      AllocateCollects(h, ClearLowMarks(bottom), tag, size, roots);
      TakeFreeKeepsNoMarks(c, tag, size);
    } else {
      assert Allocate(h, ClearLowMarks(bottom), tag, size, roots).value == TakeFree(h, tag, size).value;
      TakeFreeKeepsNoMarks(h, tag, size);
    }
  }

  lemma TakeFreeKeepsNoMarks(h: Heap, tag: Tag, size: int)
    requires forall x :: !IsMarked(h, x)
    requires TakeFree(h, tag, size).Some?
    ensures forall x :: !IsMarked(TakeFree(h, tag, size).value.0, x)
  {
    var (h', a) := TakeFree(h, tag, size).value;
    forall x | x in h'.slots && x != a
      ensures !IsMarked(h', x)
    {
      assert h'.slots[x] == h.slots[x];
      assert !IsMarked(h, x);
    }
  }

  /** go_vm and mark_sweep_gc keep the low marks closed across every
      allocation, with or without a collection, and hand out a slot at or
      above the bottom. So each collection they run starts from closed
      marks, which is what AllocateKeepsReachable assumes, as long as the
      machine's own writes keep the state too (SetChildKeepsLowMarksClosed). */
  lemma AllocateKeepsLowMarksClosed(h: Heap, bottom: int, tag: Tag, size: int, roots: seq<int>, xs: seq<int>)
    requires WellFormed(h) && bottom % NodeSize == 0 && LowMarksClosed(h, bottom)
    requires IsFreeList(h, h.free, xs)
    requires Allocate(h, KeepLowMarks(bottom), tag, size, roots).Ok?
    ensures var (h', a) := Allocate(h, KeepLowMarks(bottom), tag, size, roots).value;
            a >= bottom && LowMarksClosed(h', bottom)
  {
    var gc := KeepLowMarks(bottom);
    if h.free != EndOfFreeList {
      TakeFreeKeepsLowMarksClosed(h, bottom, tag, size, xs);
    } else {
      var c := Collect(h, gc, roots);
      var f := FreedFrom(MarkEach(h, roots), bottom);
      MarkSweepKeepsLowMarksClosed(h, roots, bottom);
      MarkSweepFreeList(h, roots, bottom);
      AllocateCollects(h, gc, tag, size, roots);
      TakeFreeKeepsLowMarksClosed(c, bottom, tag, size, f);
    }
  }

  /** The head of a free list lies at or above the bottom, since every slot
      below it holds a node; the node written there is unmarked, so taking
      it keeps the low marks closed. */
  lemma TakeFreeKeepsLowMarksClosed(h: Heap, bottom: int, tag: Tag, size: int, xs: seq<int>)
    requires LowMarksClosed(h, bottom) && IsFreeList(h, h.free, xs) && xs != []
    ensures TakeFree(h, tag, size).Some?
    ensures var (h', a) := TakeFree(h, tag, size).value;
            a >= bottom && LowMarksClosed(h', bottom)
  {
    TakeFreeKeepsFreeList(h, tag, size, xs);
    var (h', a) := TakeFree(h, tag, size).value;
    forall x | x in h'.slots && x != a
      ensures Children(h', x) == Children(h, x)
    {
      SameSlotSameChildren(h, h', x);
    }
    forall x | IsMarked(h', x)
      ensures x != a && x < bottom
    {
      assert IsMarked(h, x);
    }
    forall x | IsMarked(h', x)
      ensures ChildrenMarked(h', x)
    {
      assert IsMarked(h, x) && ChildrenMarked(h, x);
      forall c | c in Children(h', x) && Traceable(h', c)
        ensures IsMarked(h', c)
      {
        assert c < bottom && Traceable(h, c);
      }
    }
  }

  /** Writing a payload word of a slot at or above the bottom keeps the low
      marks closed: such a slot carries no mark, and no low node changes.
      Every write the machines make into a node they have just allocated
      (a pair, a closure, a frame, an extended environment), and ASSIGN into
      any frame above the bottom, is such a write. ASSIGN into a frame below
      the bottom is not (AssignBelowBottomOpensMarks). */
  lemma SetChildKeepsLowMarksClosed(h: Heap, bottom: int, a: int, i: int, v: int)
    requires LowMarksClosed(h, bottom) && a >= bottom
    ensures LowMarksClosed(SetChild(h, a, i, v), bottom)
  {
    var r := SetChild(h, a, i, v);
    forall x | x in r.slots && x != a
      ensures Children(r, x) == Children(h, x)
    {
      SameSlotSameChildren(h, r, x);
    }
    forall x | IsMarked(r, x)
      ensures IsMarked(h, x) && x < bottom
    {
      if x == a {
        assert h.slots[a].marked == r.slots[a].marked;
      }
      assert IsMarked(h, x);
    }
    forall x | IsMarked(r, x)
      ensures ChildrenMarked(r, x)
    {
      assert IsMarked(h, x) && ChildrenMarked(h, x);
      forall c | c in Children(r, x) && Traceable(r, c)
        ensures IsMarked(r, c)
      {
        assert c < bottom && Traceable(h, c);
      }
    }
  }
}
