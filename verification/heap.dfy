/** The node heap shared by the three virtual machines.

    The heap is a run of slots of ten words. A slot either lies on the
    free list, whose links are kept in the slot's first word, or holds a
    node: a header word (tag, a one-byte field, a two-byte field, the size
    and the mark bit) followed by nine payload words. The model keeps the
    header as named fields and the payload as a sequence of words; words
    are unbounded integers, and a word is read as a heap address where the
    machine expects one. */
module Heap {
  import opened Wrappers

  /** Words per slot; no node may be larger. */
  const NodeSize: int := 10
  /** Payload words that follow the header word. */
  const PayloadWords: int := 9
  /** The link held by the last slot of the free list. */
  const EndOfFreeList: int := -1
  /** The word that stands for JavaScript's `undefined` where the machine
      pushes it (a pop from an empty stack, a builtin that returns
      nothing). The model gives it no slot; in the source, a heap access
      at `undefined` lands on byte 0, see Collector.MarkRootAsWritten. */
  const NoValue: int := -1

  /** Node tags, in the order of their numeric codes 0 to 12. */
  datatype Tag =
    | FalseTag | TrueTag | NumberTag | NullTag | UnassignedTag | UndefinedTag
    | BlockframeTag | CallframeTag | ClosureTag | FrameTag | EnvironmentTag
    | PairTag | BuiltinTag

  /** A slot of the heap. `byte1` holds a closure's arity or a builtin's id,
      `pc` a closure's entry address or a callframe's return address. */
  datatype Slot =
    | FreeSlot(next: int, words: seq<int>)
    | NodeSlot(tag: Tag, size: int, marked: bool, byte1: int, pc: int, words: seq<int>)

  /** `size` is the heap size in words and `free` the head of the free list. */
  datatype Heap = Heap(slots: map<int, Slot>, size: int, free: int)

  /** Slot addresses of a heap of `size` words. */
  predicate IsSlotAddress(size: int, a: int) {
    0 <= a < size && a % NodeSize == 0
  }

  /** The slots are exactly the aligned addresses below the size, and every
      slot carries nine payload words. */
  ghost predicate WellFormed(h: Heap) {
    && h.size >= 0
    && h.size % NodeSize == 0
    && (forall a :: a in h.slots <==> IsSlotAddress(h.size, a))
    && (forall a :: a in h.slots ==> |h.slots[a].words| == PayloadWords)
  }

  predicate IsNode(h: Heap, a: int) {
    a in h.slots && h.slots[a].NodeSlot?
  }

  predicate HasTag(h: Heap, a: int, t: Tag) {
    IsNode(h, a) && h.slots[a].tag == t
  }

  predicate IsMarked(h: Heap, a: int) {
    IsNode(h, a) && h.slots[a].marked
  }

  /** A Number node has no children; every other node has one child per
      word of its size after the header. */
  function NumberOfChildren(h: Heap, a: int): (n: nat)
    ensures n > 0 ==> IsNode(h, a) && n < h.slots[a].size && n <= |h.slots[a].words|
    ensures IsNode(h, a) && h.slots[a].tag != NumberTag && 1 <= h.slots[a].size <= |h.slots[a].words| + 1
            ==> n == h.slots[a].size - 1
  {
    if !IsNode(h, a) || h.slots[a].tag == NumberTag then 0
    else
      var s := h.slots[a];
      if s.size - 1 < 0 then 0
      else if s.size - 1 > |s.words| then |s.words|
      else s.size - 1
  }

  /** The words of a node that the collector follows. */
  function Children(h: Heap, a: int): (cs: seq<int>)
    ensures |cs| == NumberOfChildren(h, a)
    ensures forall i :: 0 <= i < |cs| ==> cs[i] == h.slots[a].words[i]
  {
    if NumberOfChildren(h, a) == 0 then [] else h.slots[a].words[..NumberOfChildren(h, a)]
  }

  /** Payload word `i` of the slot at `a`; `NoValue` outside any slot. */
  function Child(h: Heap, a: int, i: int): (r: int)
    ensures a !in h.slots ==> r == NoValue
  {
    if a in h.slots && 0 <= i < |h.slots[a].words| then h.slots[a].words[i] else NoValue
  }

  /** Overwrites payload word `i` of the slot at `a`; a write outside every
      slot is dropped. */
  function SetChild(h: Heap, a: int, i: int, v: int): (r: Heap)
    ensures r.size == h.size && r.free == h.free && r.slots.Keys == h.slots.Keys
    ensures a in h.slots && 0 <= i < |h.slots[a].words| ==> Child(r, a, i) == v
    ensures forall b :: b in h.slots && b != a ==> r.slots[b] == h.slots[b]
    ensures WellFormed(h) ==> WellFormed(r)
  {
    if a in h.slots && 0 <= i < |h.slots[a].words| then
      var s := h.slots[a];
      h.(slots := h.slots[a := s.(words := s.words[i := v])])
    else h
  }

  /** A read after a write sees the written word at the written place and
      the old word everywhere else. */
  lemma ChildAfterSetChild(h: Heap, a: int, i: int, v: int, b: int, j: int)
    ensures Child(SetChild(h, a, i, v), b, j) ==
              if b == a && j == i && a in h.slots && 0 <= i < |h.slots[a].words| then v else Child(h, b, j)
  {
  }

  /** Writes the one-byte header field (arity or builtin id) of a node. */
  function SetByte1(h: Heap, a: int, v: int): (r: Heap)
    ensures r.size == h.size && r.free == h.free && r.slots.Keys == h.slots.Keys
    ensures IsNode(h, a) ==> IsNode(r, a) && r.slots[a] == h.slots[a].(byte1 := v)
    ensures forall b :: b in h.slots && (b != a || !IsNode(h, a)) ==> r.slots[b] == h.slots[b]
  {
    if IsNode(h, a) then h.(slots := h.slots[a := h.slots[a].(byte1 := v)]) else h
  }

  /** Writes the two-byte header field (entry or return address) of a node. */
  function SetPc(h: Heap, a: int, v: int): (r: Heap)
    ensures r.size == h.size && r.free == h.free && r.slots.Keys == h.slots.Keys
    ensures IsNode(h, a) ==> IsNode(r, a) && r.slots[a] == h.slots[a].(pc := v)
    ensures forall b :: b in h.slots && (b != a || !IsNode(h, a)) ==> r.slots[b] == h.slots[b]
  {
    if IsNode(h, a) then h.(slots := h.slots[a := h.slots[a].(pc := v)]) else h
  }

  /** Header writes keep the heap well formed and leave the children of
      the node in place. */
  lemma SetByte1Keeps(h: Heap, a: int, v: int)
    ensures WellFormed(h) ==> WellFormed(SetByte1(h, a, v))
    ensures Children(SetByte1(h, a, v), a) == Children(h, a)
  {
  }

  lemma SetPcKeeps(h: Heap, a: int, v: int)
    ensures WellFormed(h) ==> WellFormed(SetPc(h, a, v))
    ensures Children(SetPc(h, a, v), a) == Children(h, a)
  {
  }

  function Byte1(h: Heap, a: int): int {
    if IsNode(h, a) then h.slots[a].byte1 else 0
  }

  function Pc(h: Heap, a: int): int {
    if IsNode(h, a) then h.slots[a].pc else 0
  }

  /** The free list that starts at `start` visits exactly the distinct
      free slots `xs`, in order, and then ends. */
  predicate IsFreeList(h: Heap, start: int, xs: seq<int>)
    decreases |xs|
  {
    if xs == [] then start == EndOfFreeList
    else
      && start == xs[0]
      && start in h.slots
      && h.slots[start].FreeSlot?
      && xs[0] !in xs[1..]
      && IsFreeList(h, h.slots[start].next, xs[1..])
  }

  /** A free list is not disturbed by changes to slots that are not on it. */
  lemma {:induction false} FreeListFrame(h: Heap, h': Heap, start: int, xs: seq<int>)
    requires IsFreeList(h, start, xs)
    requires forall x :: x in xs ==> x in h.slots && x in h'.slots && h'.slots[x] == h.slots[x]
    ensures IsFreeList(h', start, xs)
    decreases |xs|
  {
    if xs != [] {
      FreeListFrame(h, h', h.slots[start].next, xs[1..]);
    }
  }

  /** Every slot on a free list is a free slot. */
  lemma {:induction false} FreeListSlotsAreFree(h: Heap, start: int, xs: seq<int>)
    requires IsFreeList(h, start, xs)
    ensures forall x :: x in xs ==> x in h.slots && h.slots[x].FreeSlot?
    decreases |xs|
  {
    if xs != [] {
      FreeListSlotsAreFree(h, h.slots[start].next, xs[1..]);
    }
  }

  /** The addresses of slots `i` to `n - 1`, ascending. */
  function SlotRun(i: nat, n: nat): (xs: seq<int>)
    ensures |xs| == if i <= n then n - i else 0
    ensures forall k :: 0 <= k < |xs| ==> xs[k] == NodeSize * (i + k)
    decreases n - i
  {
    if i >= n then [] else [NodeSize * i] + SlotRun(i + 1, n)
  }

  /** The heap as the machines create it: `n` slots, every slot on the free
      list linked to the next one, the last linked to the end marker, and
      the list starting at address 0. */
  function InitHeap(n: nat): (h: Heap)
    requires n >= 1
    ensures WellFormed(h)
    ensures h.size == NodeSize * n && h.free == 0
    ensures forall a :: !IsNode(h, a)
  {
    Heap(map a | 0 <= a < NodeSize * n && a % NodeSize == 0 ::
           FreeSlot(if a + NodeSize < NodeSize * n then a + NodeSize else EndOfFreeList,
                    seq(PayloadWords, _ => 0)),
         NodeSize * n, 0)
  }

  /** The initial free list threads all `n` slots in ascending order. */
  lemma InitFreeList(n: nat)
    requires n >= 1
    ensures IsFreeList(InitHeap(n), 0, SlotRun(0, n))
  {
    InitFreeListFrom(n, 0);
  }

  lemma {:induction false} InitFreeListFrom(n: nat, i: nat)
    requires i < n
    ensures IsFreeList(InitHeap(n), NodeSize * i, SlotRun(i, n))
    decreases n - i
  {
    var h := InitHeap(n);
    var xs := SlotRun(i, n);
    assert IsSlotAddress(NodeSize * n, NodeSize * i);
    if i + 1 < n {
      InitFreeListFrom(n, i + 1);
      assert xs[1..] == SlotRun(i + 1, n);
    } else {
      assert xs[1..] == [];
    }
  }

  /** The next link of a free slot; the source would read a header word
      here, which the model does not reinterpret. */
  function NextFree(h: Heap, a: int): int {
    if a in h.slots && h.slots[a].FreeSlot? then h.slots[a].next else EndOfFreeList
  }

  /** Unlinks the head of the free list and writes a fresh header there:
      the given tag and size, the mark clear. The payload words keep
      whatever the slot held before. `None` when the free list is empty. */
  function TakeFree(h: Heap, tag: Tag, size: int): (r: Option<(Heap, int)>)
    ensures r.Some? <==> h.free in h.slots
    ensures r.Some? ==>
              var (h', a) := r.value;
              && a == h.free
              && h'.free == NextFree(h, a)
              && h'.size == h.size
              && h'.slots.Keys == h.slots.Keys
              && HasTag(h', a, tag) && h'.slots[a].size == size && !h'.slots[a].marked
              && h'.slots[a].words == h.slots[a].words
              && (forall b :: b in h.slots && b != a ==> h'.slots[b] == h.slots[b])
  {
    if h.free !in h.slots then None
    else
      var a := h.free;
      var s := NodeSlot(tag, size, false, 0, 0, h.slots[a].words);
      Some((Heap(h.slots[a := s], h.size, NextFree(h, a)), a))
  }

  /** Taking a slot from a non-empty free list returns its first slot, which
      held no node, and leaves the rest of the list in place. */
  lemma TakeFreeKeepsFreeList(h: Heap, tag: Tag, size: int, xs: seq<int>)
    requires IsFreeList(h, h.free, xs) && xs != []
    ensures TakeFree(h, tag, size).Some?
    ensures var (h', a) := TakeFree(h, tag, size).value;
            a == xs[0] && !IsNode(h, a) && IsFreeList(h', h'.free, xs[1..])
  {
    var (h', a) := TakeFree(h, tag, size).value;
    FreeListSlotsAreFree(h, h.slots[a].next, xs[1..]);
    FreeListFrame(h, h', h.slots[a].next, xs[1..]);
  }

  /** Taking a slot keeps the heap well formed. */
  lemma TakeFreeWellFormed(h: Heap, tag: Tag, size: int)
    requires WellFormed(h) && TakeFree(h, tag, size).Some?
    ensures WellFormed(TakeFree(h, tag, size).value.0)
  {
  }

  /** Puts the slot at `a` at the head of the free list; the slot's
      payload words are left as they were. */
  function FreeSlotAt(h: Heap, a: int): (r: Heap)
    requires a in h.slots
    ensures r.free == a && r.size == h.size && r.slots.Keys == h.slots.Keys
    ensures r.slots[a] == FreeSlot(h.free, h.slots[a].words)
    ensures forall b :: b in h.slots && b != a ==> r.slots[b] == h.slots[b]
  {
    Heap(h.slots[a := FreeSlot(h.free, h.slots[a].words)], h.size, a)
  }

  /** Freeing a slot that is not on the free list extends the list by it. */
  lemma FreeSlotAtExtendsFreeList(h: Heap, a: int, xs: seq<int>)
    requires a in h.slots && IsFreeList(h, h.free, xs) && a !in xs
    ensures IsFreeList(FreeSlotAt(h, a), a, [a] + xs)
  {
    var r := FreeSlotAt(h, a);
    FreeListSlotsAreFree(h, h.free, xs);
    FreeListFrame(h, r, h.free, xs);
    assert ([a] + xs)[1..] == xs;
  }
}
