/** The mark-and-sweep collector shared by the three machines.

    Marking follows children recursively from a root sequence, skipping
    words that are not nodes of the heap, nodes already marked and Number
    payloads. Sweeping visits every slot from a bottom address upward in
    steps of ten: marked slots are unmarked, every other slot is pushed on
    the free list. Nothing is said here about which words are roots; each
    machine supplies the roots it scans. */
module Collector {
  import opened Heap

  /** Marking considers only nodes below the heap size. */
  predicate Traceable(h: Heap, a: int) {
    IsNode(h, a) && a < h.size
  }

  /** The nodes whose mark is still clear. */
  function Unmarked(h: Heap): set<int> {
    set a | a in h.slots && h.slots[a].NodeSlot? && !h.slots[a].marked
  }

  /** `r` is `h` with possibly different mark bits and nothing else. */
  ghost predicate SameButMarks(h: Heap, r: Heap) {
    && r.size == h.size
    && r.free == h.free
    && r.slots.Keys == h.slots.Keys
    && (forall x :: x in h.slots ==>
          if h.slots[x].NodeSlot? then r.slots[x].NodeSlot? && r.slots[x] == h.slots[x].(marked := r.slots[x].marked)
          else r.slots[x] == h.slots[x])
  }

  /** Every traceable child of `x` is marked. */
  ghost predicate ChildrenMarked(h: Heap, x: int) {
    forall c :: c in Children(h, x) && Traceable(h, c) ==> IsMarked(h, c)
  }

  /** The marked nodes are closed under the child relation. */
  ghost predicate Closed(h: Heap) {
    forall x :: IsMarked(h, x) ==> ChildrenMarked(h, x)
  }

  /** Every node that `r` marks and `h` did not has its children marked. */
  ghost predicate NewlyMarkedClosed(h: Heap, r: Heap) {
    forall x :: IsMarked(r, x) && !IsMarked(h, x) ==> ChildrenMarked(r, x)
  }

  function SetMark(h: Heap, a: int): (r: Heap)
    requires IsNode(h, a) && !h.slots[a].marked
    ensures SameButMarks(h, r) && IsMarked(r, a)
    ensures forall x :: x != a ==> IsMarked(r, x) == IsMarked(h, x)
    ensures Unmarked(r) == Unmarked(h) - {a}
  {
    h.(slots := h.slots[a := h.slots[a].(marked := true)])
  }

  lemma SameButMarksChildren(h: Heap, r: Heap)
    requires SameButMarks(h, r)
    ensures forall x {:trigger Children(r, x)} :: Children(r, x) == Children(h, x)
    ensures forall x {:trigger Traceable(r, x)} :: Traceable(r, x) == Traceable(h, x)
  {
    forall x ensures Children(r, x) == Children(h, x) {
      if IsNode(h, x) {
        assert r.slots[x] == h.slots[x].(marked := r.slots[x].marked);
      }
    }
  }

  lemma SameButMarksTransitive(h: Heap, m: Heap, r: Heap)
    requires SameButMarks(h, m) && SameButMarks(m, r)
    ensures SameButMarks(h, r)
  {
  }

  /** Marks `a` and everything reachable from it through unmarked nodes. */
  function Mark(h: Heap, a: int): (r: Heap)
    ensures SameButMarks(h, r)
    ensures forall x :: IsMarked(h, x) ==> IsMarked(r, x)
    ensures Traceable(h, a) ==> IsMarked(r, a)
    ensures NewlyMarkedClosed(h, r)
    ensures Unmarked(r) <= Unmarked(h)
    decreases |Unmarked(h)|, 0
  {
    if !Traceable(h, a) || h.slots[a].marked then h
    else
      var h1 := SetMark(h, a);
      assert a in Unmarked(h);
      var r := MarkEach(h1, Children(h1, a));
      SameButMarksChildren(h1, r);
      SameButMarksTransitive(h, h1, r);
      r
  }

  /** `mark` as go_vm and mark_sweep_gc write it, for one root word. Its
      only guard is `node >= heap_size`, which JavaScript `undefined` (here
      NoValue) passes, and DataView reads and writes at an offset computed
      from `undefined` at byte 0 of the heap: the tag byte of slot 0, where
      boot puts the canonical False. The mark-bit test reads that tag,
      finds False's code 0, which is also UNMARKED, and writes MARKED, 1,
      which is True's code. The child loop that follows reaches slot 0
      again through the same aliasing and only sets its mark. Any other
      word is marked as Mark does; Mark itself skips every word that is
      not a node. */
  function MarkRootAsWritten(h: Heap, w: int): (r: Heap)
    ensures w != NoValue ==> r == Mark(h, w)
    ensures w == NoValue && HasTag(h, 0, FalseTag) ==>
              && HasTag(r, 0, TrueTag) && IsMarked(r, 0)
              && r.slots[0].words == h.slots[0].words
              && (forall x :: x in h.slots && x != 0 ==> x in r.slots && r.slots[x] == h.slots[x])
    ensures w == NoValue && !HasTag(h, 0, FalseTag) ==> r == h
  {
    if w != NoValue then Mark(h, w)
    else if HasTag(h, 0, FalseTag) then h.(slots := h.slots[0 := h.slots[0].(tag := TrueTag, marked := true)])
    else h
  }

  /** Marks every word of `xs` in turn. */
  function MarkEach(h: Heap, xs: seq<int>): (r: Heap)
    ensures SameButMarks(h, r)
    ensures forall x :: IsMarked(h, x) ==> IsMarked(r, x)
    ensures forall x :: x in xs && Traceable(h, x) ==> IsMarked(r, x)
    ensures NewlyMarkedClosed(h, r)
    ensures Unmarked(r) <= Unmarked(h)
    decreases |Unmarked(h)|, |xs|
  {
    if xs == [] then h
    else
      var h1 := Mark(h, xs[0]);
      SubsetCard(Unmarked(h1), Unmarked(h));
      var r := MarkEach(h1, xs[1..]);
      SameButMarksChildren(h, h1);
      SameButMarksChildren(h1, r);
      SameButMarksTransitive(h, h1, r);
      assert forall x :: x in xs && x != xs[0] ==> x in xs[1..];
      r
  }

  lemma SubsetCard(a: set<int>, b: set<int>)
    requires a <= b
    ensures |a| <= |b|
  {
    assert b == a + (b - a);
  }

  /** Marking from roots keeps the marked nodes closed under children. */
  lemma MarkEachKeepsClosed(h: Heap, roots: seq<int>)
    requires Closed(h)
    ensures Closed(MarkEach(h, roots))
  {
    var r := MarkEach(h, roots);
    SameButMarksChildren(h, r);
  }

  /** A path from node to node along child words. */
  ghost predicate IsPath(h: Heap, p: seq<int>) {
    && |p| > 0
    && (forall i :: 0 <= i < |p| ==> Traceable(h, p[i]))
    && (forall i :: 0 <= i < |p| - 1 ==> p[i + 1] in Children(h, p[i]))
  }

  /** `a` can be reached from one of `roots` along child words. */
  ghost predicate Reachable(h: Heap, roots: seq<int>, a: int) {
    exists p :: IsPath(h, p) && p[0] in roots && p[|p| - 1] == a
  }

  /** In a heap whose marks are closed, a path that starts at a marked
      node ends at a marked node. */
  lemma {:induction false} ClosedMarksPath(h: Heap, p: seq<int>)
    requires Closed(h) && IsPath(h, p) && IsMarked(h, p[0])
    ensures IsMarked(h, p[|p| - 1])
    decreases |p|
  {
    if |p| > 1 {
      assert p[1] in Children(h, p[0]);
      assert IsPath(h, p[1..]);
      ClosedMarksPath(h, p[1..]);
    }
  }

  /** Soundness of marking: starting from closed marks, every node reachable
      from the roots ends up marked. */
  lemma MarkEachMarksReachable(h: Heap, roots: seq<int>, a: int)
    requires Closed(h) && Reachable(h, roots, a)
    ensures IsMarked(MarkEach(h, roots), a)
  {
    var r := MarkEach(h, roots);
    MarkEachKeepsClosed(h, roots);
    SameButMarksChildren(h, r);
    var p :| IsPath(h, p) && p[0] in roots && p[|p| - 1] == a;
    assert IsPath(r, p);
    ClosedMarksPath(r, p);
  }

  /** A sweep from `v` over a heap of `size` words visits the slots `v`,
      `v + 10`, … below `size`. */
  predicate Swept(size: int, v: int, x: int) {
    v <= x < size && (x - v) % NodeSize == 0
  }

  lemma SweptStep(size: int, v: int)
    requires v < size
    ensures forall x :: Swept(size, v, x) && x != v ==> Swept(size, v + NodeSize, x)
    ensures forall x :: Swept(size, v + NodeSize, x) ==> Swept(size, v, x) && x != v
  {
    forall x | Swept(size, v + NodeSize, x) ensures Swept(size, v, x) && x != v {
      var k := (x - v - 10) / 10;
      assert x - v - 10 == 10 * k;
      assert x - v == 10 * (k + 1);
    }
    forall x | Swept(size, v, x) && x != v ensures Swept(size, v + NodeSize, x) {
      var k := (x - v) / 10;
      assert x - v == 10 * k;
      assert x - v - 10 == 10 * (k - 1);
    }
    assert forall x :: Swept(size, v + NodeSize, x) ==> Swept(size, v, x) && x != v;
  }

  function Unmark(h: Heap, a: int): (r: Heap)
    requires IsMarked(h, a)
    ensures SameButMarks(h, r) && IsNode(r, a) && !IsMarked(r, a)
    ensures forall x :: x != a && x in h.slots ==> r.slots[x] == h.slots[x]
  {
    h.(slots := h.slots[a := h.slots[a].(marked := false)])
  }

  /** Sweeps the slots from `v` upward: a marked slot is unmarked and keeps
      its contents, any other slot is pushed on the free list. */
  function SweepFrom(h: Heap, v: int): (r: Heap)
    ensures r.size == h.size && r.slots.Keys == h.slots.Keys
    decreases h.size - v
  {
    if v >= h.size then h else SweepFrom(SweepSlot(h, v), v + NodeSize)
  }

  /** The sweep leaves the slots it does not visit alone, unmarks the marked
      ones it visits and frees every other one it visits. */
  lemma {:induction false} SweepFromEffect(h: Heap, v: int)
    ensures var r := SweepFrom(h, v);
            && (forall x :: x in h.slots && !Swept(h.size, v, x) ==> r.slots[x] == h.slots[x])
            && (forall x :: x in h.slots && Swept(h.size, v, x) && IsMarked(h, x) ==>
                  r.slots[x] == h.slots[x].(marked := false))
            && (forall x :: x in h.slots && Swept(h.size, v, x) && !IsMarked(h, x) ==>
                  r.slots[x].FreeSlot? && r.slots[x].words == h.slots[x].words)
    decreases h.size - v
  {
    if v < h.size {
      SweptStep(h.size, v);
      SweepFromEffect(SweepSlot(h, v), v + NodeSize);
    }
  }

  /** The sweep's action on the one slot at `v`. */
  function SweepSlot(h: Heap, v: int): (r: Heap)
    ensures r.size == h.size && r.slots.Keys == h.slots.Keys
    ensures forall x :: x in h.slots && x != v ==> r.slots[x] == h.slots[x]
  {
    if v !in h.slots then h else if IsMarked(h, v) then Unmark(h, v) else FreeSlotAt(h, v)
  }

  /** No slot the sweep visits stays marked. */
  lemma SweepLeavesNoMark(h: Heap, v: int)
    ensures forall x :: Swept(h.size, v, x) ==> !IsMarked(SweepFrom(h, v), x)
  {
    SweepFromEffect(h, v);
  }

  /** The slots the sweep frees, highest address first. */
  function FreedFrom(h: Heap, v: int): seq<int>
    decreases h.size - v
  {
    if v >= h.size then []
    else FreedFrom(h, v + NodeSize) + (if v in h.slots && !IsMarked(h, v) then [v] else [])
  }

  /** The sweep frees exactly the unmarked slots it visits. */
  lemma {:induction false} FreedFromIsUnmarked(h: Heap, v: int)
    ensures forall x :: x in FreedFrom(h, v) <==> x in h.slots && Swept(h.size, v, x) && !IsMarked(h, x)
    decreases h.size - v
  {
    if v < h.size {
      SweptStep(h.size, v);
      FreedFromIsUnmarked(h, v + NodeSize);
    }
  }

  lemma {:induction false} FreedFromFrame(h: Heap, h': Heap, v: int)
    requires h'.size == h.size
    requires forall x :: x >= v ==> (x in h.slots <==> x in h'.slots)
    requires forall x :: x >= v && x in h.slots ==> h'.slots[x] == h.slots[x]
    ensures FreedFrom(h', v) == FreedFrom(h, v)
    decreases h.size - v
  {
    if v < h.size {
      FreedFromFrame(h, h', v + NodeSize);
    }
  }

  /** After a sweep the free list holds exactly the freed slots, highest
      first, in front of whatever list there was below `v`. */
  lemma {:induction false} SweepFreeList(h: Heap, v: int, xs: seq<int>)
    requires IsFreeList(h, h.free, xs)
    requires forall x :: x in xs ==> x < v
    ensures IsFreeList(SweepFrom(h, v), SweepFrom(h, v).free, FreedFrom(h, v) + xs)
    decreases h.size - v
  {
    if v < h.size {
      var h1 := SweepSlot(h, v);
      var freed := if v in h.slots && !IsMarked(h, v) then [v] else [];
      var ys := freed + xs;
      SweepSlotFreeList(h, v, xs);
      FreedFromFrame(h, h1, v + NodeSize);
      assert FreedFrom(h, v) == FreedFrom(h1, v + NodeSize) + freed;
      SweepFreeList(h1, v + NodeSize, ys);
      assert SweepFrom(h, v) == SweepFrom(h1, v + NodeSize);
      SeqAssoc(FreedFrom(h1, v + NodeSize), freed, xs);
    } else {
      assert SweepFrom(h, v) == h && FreedFrom(h, v) + xs == xs;
    }
  }

  lemma SeqAssoc(a: seq<int>, b: seq<int>, c: seq<int>)
    ensures (a + b) + c == a + (b + c)
  {
  }

  /** Sweeping one slot pushes it on the free list exactly when it is freed. */
  lemma SweepSlotFreeList(h: Heap, v: int, xs: seq<int>)
    requires IsFreeList(h, h.free, xs)
    requires forall x :: x in xs ==> x < v
    ensures IsFreeList(SweepSlot(h, v), SweepSlot(h, v).free,
                       (if v in h.slots && !IsMarked(h, v) then [v] else []) + xs)
  {
    FreeListSlotsAreFree(h, h.free, xs);
    if v in h.slots && IsMarked(h, v) {
      FreeListFrame(h, SweepSlot(h, v), h.free, xs);
      assert [] + xs == xs;
    } else if v in h.slots {
      FreeSlotAtExtendsFreeList(h, v, xs);
    } else {
      assert [] + xs == xs;
    }
  }

  /** One collection of go_vm and mark_sweep_gc: mark from the roots, then
      sweep from the bottom. Marks below the bottom are never cleared. */
  function MarkSweep(h: Heap, roots: seq<int>, bottom: int): (r: Heap)
    ensures r.size == h.size && r.slots.Keys == h.slots.Keys
  {
    SweepFrom(MarkEach(h, roots), bottom)
  }

  /** Clears the mark of every node below `bottom`. */
  function ClearMarksBelow(h: Heap, bottom: int): (r: Heap)
    ensures r.size == h.size && r.free == h.free && r.slots.Keys == h.slots.Keys
    ensures forall x :: x in h.slots && x < bottom && h.slots[x].NodeSlot? ==>
              r.slots[x] == h.slots[x].(marked := false)
    ensures forall x :: x in h.slots && !(x < bottom && h.slots[x].NodeSlot?) ==> r.slots[x] == h.slots[x]
  {
    var slots := map x | x in h.slots ::
                   if x < bottom && h.slots[x].NodeSlot? then h.slots[x].(marked := false) else h.slots[x];
    Heap(slots, h.size, h.free)
  }

  /** One collection of compiler.js: mark from the roots, sweep from the
      fixed bottom, then clear the marks below it. */
  function MarkSweepClear(h: Heap, roots: seq<int>, bottom: int): (r: Heap)
    ensures r.size == h.size && r.slots.Keys == h.slots.Keys
  {
    ClearMarksBelow(SweepFrom(MarkEach(h, roots), bottom), bottom)
  }

  /** Soundness of a collection relative to its roots: from closed marks,
      every node reachable from the roots survives with its contents. */
  lemma MarkSweepKeepsReachable(h: Heap, roots: seq<int>, bottom: int, a: int)
    requires Closed(h) && Reachable(h, roots, a)
    ensures IsNode(MarkSweep(h, roots, bottom), a)
    ensures MarkSweep(h, roots, bottom).slots[a] == h.slots[a].(marked := MarkSweep(h, roots, bottom).slots[a].marked)
  {
    var m := MarkEach(h, roots);
    MarkEachMarksReachable(h, roots, a);
    SweepFromEffect(m, bottom);
  }

  /** The same soundness for the collection that clears low marks. */
  lemma MarkSweepClearKeepsReachable(h: Heap, roots: seq<int>, bottom: int, a: int)
    requires Closed(h) && Reachable(h, roots, a)
    ensures IsNode(MarkSweepClear(h, roots, bottom), a)
    ensures MarkSweepClear(h, roots, bottom).slots[a] == h.slots[a].(marked := MarkSweepClear(h, roots, bottom).slots[a].marked)
  {
    var m := MarkEach(h, roots);
    MarkEachMarksReachable(h, roots, a);
    SweepFromEffect(m, bottom);
  }

  /** Starting from an empty free list, a collection leaves on the free list
      exactly the swept slots that marking did not reach, highest first; the
      list is empty again only when every swept slot was marked. */
  lemma MarkSweepFreeList(h: Heap, roots: seq<int>, bottom: int)
    requires h.free == EndOfFreeList
    ensures var m := MarkEach(h, roots);
            && IsFreeList(MarkSweep(h, roots, bottom), MarkSweep(h, roots, bottom).free, FreedFrom(m, bottom))
            && IsFreeList(MarkSweepClear(h, roots, bottom), MarkSweepClear(h, roots, bottom).free, FreedFrom(m, bottom))
            && (forall x :: x in FreedFrom(m, bottom) <==> x in h.slots && Swept(h.size, bottom, x) && !IsMarked(m, x))
  {
    var m := MarkEach(h, roots);
    assert IsFreeList(m, m.free, []);
    SweepFreeList(m, bottom, []);
    assert FreedFrom(m, bottom) + [] == FreedFrom(m, bottom);
    var s := SweepFrom(m, bottom);
    FreeListSlotsAreFree(s, s.free, FreedFrom(m, bottom));
    FreeListFrame(s, ClearMarksBelow(s, bottom), s.free, FreedFrom(m, bottom));
    FreedFromIsUnmarked(m, bottom);
  }

  /** compiler.js leaves no node marked after a collection, so the next
      collection starts from closed marks whatever the program did. */
  lemma MarkSweepClearLeavesNoMark(h: Heap, roots: seq<int>, bottom: int)
    requires WellFormed(h) && bottom % NodeSize == 0
    ensures forall x :: !IsMarked(MarkSweepClear(h, roots, bottom), x)
    ensures Closed(MarkSweepClear(h, roots, bottom))
  {
    var m := MarkEach(h, roots);
    SweepFromEffect(m, bottom);
    var s := SweepFrom(m, bottom);
    var r := ClearMarksBelow(s, bottom);
    forall x | x in r.slots
      ensures !IsMarked(r, x)
    {
      if x >= bottom {
        assert IsSlotAddress(h.size, x);
        AlignedDifference(x, bottom);
        assert Swept(h.size, bottom, x);
        assert r.slots[x] == s.slots[x];
      }
    }
  }

  lemma AlignedDifference(x: int, b: int)
    requires x % NodeSize == 0 && b % NodeSize == 0
    ensures (x - b) % NodeSize == 0
  {
    assert x - b == NodeSize * (x / NodeSize - b / NodeSize);
  }

  /** go_vm and mark_sweep_gc keep every mark below the bottom. */
  lemma MarkSweepKeepsLowMarks(h: Heap, roots: seq<int>, bottom: int)
    ensures forall x :: x < bottom && IsMarked(MarkEach(h, roots), x) ==> IsMarked(MarkSweep(h, roots, bottom), x)
  {
    SweepFromEffect(MarkEach(h, roots), bottom);
  }

  /** Because those marks stay, a collection is sound only while the
      marked nodes are closed: a node below the bottom that is already
      marked hides its child, which is swept although reachable. */
  lemma StaleMarkHidesChild()
    ensures var words := [10, 0, 0, 0, 0, 0, 0, 0, 0];
            var h := Heap(map[0 := NodeSlot(FrameTag, 2, true, 0, 0, words),
                              10 := NodeSlot(NumberTag, 2, false, 0, 0, words)], 20, EndOfFreeList);
            && Reachable(h, [0], 10)
            && !IsNode(MarkSweep(h, [0], 10), 10)
  {
    var words := [10, 0, 0, 0, 0, 0, 0, 0, 0];
    var h := Heap(map[0 := NodeSlot(FrameTag, 2, true, 0, 0, words),
                      10 := NodeSlot(NumberTag, 2, false, 0, 0, words)], 20, EndOfFreeList);
    assert Children(h, 0) == [10];
    assert IsPath(h, [0, 10]);
    assert Mark(h, 0) == h;
    var m := MarkEach(h, [0]);
    assert [0][1..] == [];
    assert m == MarkEach(h, []);
    SweepFromEffect(m, 10);
    assert Swept(20, 10, 10);
  }

  /** The state go_vm and mark_sweep_gc keep between collections: only
      nodes below the bottom carry a mark, the marked nodes are closed
      under children, every slot below the bottom holds a node, and the
      children of those nodes lie below the bottom too. A heap with no
      marks whose low nodes point only at low nodes, as boot leaves it,
      satisfies it. */
  ghost predicate LowMarksClosed(h: Heap, bottom: int) {
    && Closed(h)
    && (forall x :: IsMarked(h, x) ==> x < bottom)
    && (forall x :: x in h.slots && x < bottom ==> h.slots[x].NodeSlot?)
    && (forall x, c :: x < bottom && c in Children(h, x) ==> c < bottom)
  }

  /** A collection that keeps the low marks keeps that state: the marks
      it sets at or above the bottom the sweep clears again, and below the
      bottom every node and its children stay as they were. */
  lemma MarkSweepKeepsLowMarksClosed(h: Heap, roots: seq<int>, bottom: int)
    requires WellFormed(h) && bottom % NodeSize == 0 && LowMarksClosed(h, bottom)
    ensures LowMarksClosed(MarkSweep(h, roots, bottom), bottom)
  {
    var m := MarkEach(h, roots);
    MarkEachKeepsClosed(h, roots);
    SameButMarksChildren(h, m);
    SweepFromEffect(m, bottom);
    var s := SweepFrom(m, bottom);
    forall x | x in s.slots && x < bottom
      ensures s.slots[x] == m.slots[x] && Children(s, x) == Children(h, x)
    {
      assert !Swept(h.size, bottom, x);
      SameSlotSameChildren(m, s, x);
    }
    forall x | IsMarked(s, x)
      ensures x < bottom
    {
      if x >= bottom {
        assert IsSlotAddress(h.size, x);
        AlignedDifference(x, bottom);
        assert Swept(h.size, bottom, x);
      }
    }
    forall x | IsMarked(s, x)
      ensures ChildrenMarked(s, x)
    {
      assert IsMarked(m, x);
      forall c | c in Children(s, x) && Traceable(s, c)
        ensures IsMarked(s, c)
      {
        assert c in Children(h, x) && c < bottom;
        assert Traceable(m, c);
        assert ChildrenMarked(m, x);
      }
    }
  }

  lemma SameSlotSameChildren(h: Heap, r: Heap, x: int)
    requires x in h.slots && x in r.slots && r.slots[x] == h.slots[x]
    ensures Children(r, x) == Children(h, x)
  {
  }

  /** ASSIGN to a builtin or constant name writes into a frame below the
      bottom, which may be marked; storing a node from above the bottom
      there leaves the marks open, and the next collection frees that node
      although it is reachable (the heap it yields is the one of
      StaleMarkHidesChild). */
  lemma AssignBelowBottomOpensMarks()
    ensures var words := [0, 0, 0, 0, 0, 0, 0, 0, 0];
            var h := Heap(map[0 := NodeSlot(FrameTag, 2, true, 0, 0, words),
                              10 := NodeSlot(NumberTag, 2, false, 0, 0, words[0 := 10])], 20, EndOfFreeList);
            && LowMarksClosed(h, 10)
            && !Closed(SetChild(h, 0, 0, 10))
  {
    var words := [0, 0, 0, 0, 0, 0, 0, 0, 0];
    var h := Heap(map[0 := NodeSlot(FrameTag, 2, true, 0, 0, words),
                      10 := NodeSlot(NumberTag, 2, false, 0, 0, words[0 := 10])], 20, EndOfFreeList);
    assert Children(h, 0) == [0];
    assert Children(h, 10) == [];
    forall x, c | x < 10 && c in Children(h, x)
      ensures c < 10
    {
      assert x == 0;
    }
    var r := SetChild(h, 0, 0, 10);
    assert Children(r, 0) == [10];
    assert IsMarked(r, 0) && Traceable(r, 10) && !IsMarked(r, 10);
  }
}
