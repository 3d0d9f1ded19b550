/** The typed nodes the machines build on the heap, and the run-time
    environments made of them.

    Every constructor allocates one node and then fills it in. In go_vm and
    mark_sweep_gc a constructor whose node will point at an environment
    first pins that environment (and, when extending, the new frame) in the
    allocation roots, so a collection the allocation triggers keeps them;
    compiler.js pins nothing except, when a collection is due, the frame an
    environment is extended by. A one-byte header field keeps its value
    modulo 256 and a two-byte field modulo 65536, as the byte writes of the
    source do. */
module Nodes {
  import opened Wrappers
  import opened Heap
  import opened Collector
  import opened Allocator
  import opened Faults
  import opened Positions

  const ByteRange: int := 256
  const TwoByteRange: int := 65536

  /** Addresses of the canonical literal nodes, allocated once when the
      machine starts; no other node of these tags is ever created. */
  datatype Literals = Literals(falseNode: int, trueNode: int, nullNode: int,
                               unassignedNode: int, undefinedNode: int)

  predicate ValidLiterals(h: Heap, lits: Literals) {
    && HasTag(h, lits.falseNode, FalseTag)
    && HasTag(h, lits.trueNode, TrueTag)
    && HasTag(h, lits.nullNode, NullTag)
    && HasTag(h, lits.unassignedNode, UnassignedTag)
    && HasTag(h, lits.undefinedNode, UndefinedTag)
  }

  /** The arguments a constructor pins while it allocates: go_vm and
      mark_sweep_gc (the collectors that keep low marks) pin them,
      compiler.js does not. */
  function Pinned(gc: Gc, xs: seq<int>): seq<int> {
    if gc.KeepLowMarks? then xs else []
  }

  /** The size field of a node; 0 where there is no node. */
  function SizeOf(h: Heap, a: int): int {
    if IsNode(h, a) then h.slots[a].size else 0
  }

  /** `h'` is `h` with a fresh node at `a`: same size and slot addresses,
      the node unmarked with the given tag and size. */
  ghost predicate NewNode(h: Heap, h': Heap, a: int, tag: Tag, size: int) {
    && h'.size == h.size && h'.slots.Keys == h.slots.Keys
    && HasTag(h', a, tag) && h'.slots[a].size == size && !h'.slots[a].marked
  }

  /** A constructor that does not need a collection takes the head of the
      free list. */
  ghost predicate TookHead(h: Heap, r: Result<(Heap, int), Fault>) {
    h.free != EndOfFreeList && h.free in h.slots ==> r.Ok? && r.value.1 == h.free
  }

  /** `h'` keeps every node of `h` exactly as it was. */
  ghost predicate NodesKept(h: Heap, h': Heap) {
    forall b :: IsNode(h, b) ==> IsNode(h', b) && h'.slots[b] == h.slots[b]
  }

  /** Allocates a node and then writes `words` to its first payload words,
      in order. Every constructor whose node holds words is built on it. */
  function AllocateWith(h: Heap, gc: Gc, roots: seq<int>, tag: Tag, size: int, words: seq<int>): (r: Result<(Heap, int), Fault>)
    ensures size > NodeSize ==> r == Err(NodeTooLarge)
    ensures r.Err? ==> r.error == if size > NodeSize then NodeTooLarge else ExhaustedFault(gc)
    ensures r.Ok? ==> NewNode(h, r.value.0, r.value.1, tag, size)
    decreases |words|
  {
    if words == [] then Allocate(h, gc, tag, size, roots)
    else
      match AllocateWith(h, gc, roots, tag, size, words[..|words| - 1])
      case Err(e) => Err(e)
      case Ok((h1, a)) => Ok((SetChild(h1, a, |words| - 1, words[|words| - 1]), a))
  }

  /** An allocation that needs no collection takes the head of the free
      list; in a well-formed heap the node holds `words` and the heap stays
      well formed. */
  lemma {:induction false} AllocateWithFills(h: Heap, gc: Gc, roots: seq<int>, tag: Tag, size: int, words: seq<int>)
    ensures size <= NodeSize ==> TookHead(h, AllocateWith(h, gc, roots, tag, size, words))
    ensures var r := AllocateWith(h, gc, roots, tag, size, words);
            r.Ok? && WellFormed(h) && |words| <= PayloadWords ==>
              && WellFormed(r.value.0)
              && (forall j :: 0 <= j < |words| ==> Child(r.value.0, r.value.1, j) == words[j])
    decreases |words|
  {
    if words == [] {
      AllocateWellFormed(h, gc, tag, size, roots);
    } else {
      var init := words[..|words| - 1];
      AllocateWithFills(h, gc, roots, tag, size, init);
      var r := AllocateWith(h, gc, roots, tag, size, words);
      if r.Ok? && WellFormed(h) && |words| <= PayloadWords {
        var (h1, a) := AllocateWith(h, gc, roots, tag, size, init).value;
        forall j | 0 <= j < |words|
          ensures Child(r.value.0, a, j) == words[j]
        {
          if j < |init| {
            assert init[j] == words[j];
          }
        }
      }
    }
  }

  /** With a slot on the free list the allocation takes it, runs no
      collection and keeps every node there was. */
  lemma {:induction false} AllocateWithFromList(h: Heap, gc: Gc, roots: seq<int>, tag: Tag, size: int, words: seq<int>, xs: seq<int>)
    requires WellFormed(h) && IsFreeList(h, h.free, xs) && xs != [] && size <= NodeSize
    ensures AllocateWith(h, gc, roots, tag, size, words).Ok?
    ensures var (h', a) := AllocateWith(h, gc, roots, tag, size, words).value;
            && a == xs[0] && !IsNode(h, a)
            && NodesKept(h, h') && h'.free == NextFree(h, a)
            && IsFreeList(h', h'.free, xs[1..])
    decreases |words|
  {
    if words == [] {
      TakeFreeKeepsFreeList(h, tag, size, xs);
    } else {
      var init := words[..|words| - 1];
      AllocateWithFromList(h, gc, roots, tag, size, init, xs);
      var (h1, a) := AllocateWith(h, gc, roots, tag, size, init).value;
      var h2 := SetChild(h1, a, |words| - 1, words[|words| - 1]);
      FreeListSlotsAreFree(h1, h1.free, xs[1..]);
      FreeListFrame(h1, h2, h1.free, xs[1..]);
    }
  }

  function AllocateNumber(h: Heap, gc: Gc, roots: seq<int>, n: int): (r: Result<(Heap, int), Fault>)
    ensures r.Err? ==> r.error == ExhaustedFault(gc)
    ensures TookHead(h, r)
    ensures r.Ok? ==> NewNode(h, r.value.0, r.value.1, NumberTag, 2) && NumberOfChildren(r.value.0, r.value.1) == 0
    ensures r.Ok? && WellFormed(h) ==> WellFormed(r.value.0) && Child(r.value.0, r.value.1, 0) == n
  {
    AllocateWithFills(h, gc, roots, NumberTag, 2, [n]);
    AllocateWith(h, gc, roots, NumberTag, 2, [n])
  }

  function AllocatePair(h: Heap, gc: Gc, roots: seq<int>, hd: int, tl: int): (r: Result<(Heap, int), Fault>)
    ensures r.Err? ==> r.error == ExhaustedFault(gc)
    ensures TookHead(h, r)
    ensures r.Ok? ==> NewNode(h, r.value.0, r.value.1, PairTag, 3)
    ensures r.Ok? && WellFormed(h) ==> WellFormed(r.value.0) && Children(r.value.0, r.value.1) == [hd, tl]
  {
    AllocateWithFills(h, gc, roots, PairTag, 3, [hd, tl]);
    AllocateWith(h, gc, roots, PairTag, 3, [hd, tl])
  }

  function AllocateLiteral(h: Heap, gc: Gc, roots: seq<int>, tag: Tag): (r: Result<(Heap, int), Fault>)
    ensures r.Err? ==> r.error == ExhaustedFault(gc)
    ensures TookHead(h, r)
    ensures r.Ok? ==> NewNode(h, r.value.0, r.value.1, tag, 1) && NumberOfChildren(r.value.0, r.value.1) == 0
    ensures r.Ok? && WellFormed(h) ==> WellFormed(r.value.0)
  {
    AllocateWellFormed(h, gc, tag, 1, roots);
    Allocate(h, gc, tag, 1, roots)
  }

  function AllocateBuiltin(h: Heap, gc: Gc, roots: seq<int>, id: nat): (r: Result<(Heap, int), Fault>)
    ensures r.Err? ==> r.error == ExhaustedFault(gc)
    ensures TookHead(h, r)
    ensures r.Ok? ==> NewNode(h, r.value.0, r.value.1, BuiltinTag, 1) && Byte1(r.value.0, r.value.1) == id % ByteRange
    ensures r.Ok? && WellFormed(h) ==> WellFormed(r.value.0)
  {
    AllocateWellFormed(h, gc, BuiltinTag, 1, roots);
    match Allocate(h, gc, BuiltinTag, 1, roots)
    case Err(e) => Err(e)
    case Ok((h1, a)) => Ok((SetByte1(h1, a, id % ByteRange), a))
  }

  function AllocateClosure(h: Heap, gc: Gc, roots: seq<int>, arity: nat, pc: int, env: int): (r: Result<(Heap, int), Fault>)
    ensures r.Err? ==> r.error == ExhaustedFault(gc)
    ensures TookHead(h, r)
    ensures r.Ok? ==> && NewNode(h, r.value.0, r.value.1, ClosureTag, 2)
                      && Byte1(r.value.0, r.value.1) == arity % ByteRange
                      && Pc(r.value.0, r.value.1) == pc % TwoByteRange
    ensures r.Ok? && WellFormed(h) ==> WellFormed(r.value.0) && Children(r.value.0, r.value.1) == [env]
  {
    AllocateWithFills(h, gc, roots + Pinned(gc, [env]), ClosureTag, 2, [env]);
    match AllocateWith(h, gc, roots + Pinned(gc, [env]), ClosureTag, 2, [env])
    case Err(e) => Err(e)
    case Ok((h1, a)) =>
      SetByte1Keeps(h1, a, arity % ByteRange);
      SetPcKeeps(SetByte1(h1, a, arity % ByteRange), a, pc % TwoByteRange);
      Ok((SetPc(SetByte1(h1, a, arity % ByteRange), a, pc % TwoByteRange), a))
  }

  function AllocateBlockframe(h: Heap, gc: Gc, roots: seq<int>, env: int): (r: Result<(Heap, int), Fault>)
    ensures r.Err? ==> r.error == ExhaustedFault(gc)
    ensures TookHead(h, r)
    ensures r.Ok? ==> NewNode(h, r.value.0, r.value.1, BlockframeTag, 2)
    ensures r.Ok? && WellFormed(h) ==> WellFormed(r.value.0) && Children(r.value.0, r.value.1) == [env]
  {
    AllocateWithFills(h, gc, roots + Pinned(gc, [env]), BlockframeTag, 2, [env]);
    AllocateWith(h, gc, roots + Pinned(gc, [env]), BlockframeTag, 2, [env])
  }

  function AllocateCallframe(h: Heap, gc: Gc, roots: seq<int>, env: int, pc: int): (r: Result<(Heap, int), Fault>)
    ensures r.Err? ==> r.error == ExhaustedFault(gc)
    ensures TookHead(h, r)
    ensures r.Ok? ==> NewNode(h, r.value.0, r.value.1, CallframeTag, 2) && Pc(r.value.0, r.value.1) == pc % TwoByteRange
    ensures r.Ok? && WellFormed(h) ==> WellFormed(r.value.0) && Children(r.value.0, r.value.1) == [env]
  {
    AllocateWithFills(h, gc, roots + Pinned(gc, [env]), CallframeTag, 2, [env]);
    match AllocateWith(h, gc, roots + Pinned(gc, [env]), CallframeTag, 2, [env])
    case Err(e) => Err(e)
    case Ok((h1, a)) =>
      SetPcKeeps(h1, a, pc % TwoByteRange);
      Ok((SetPc(h1, a, pc % TwoByteRange), a))
  }

  /** A frame for `n` values takes `n + 1` words; its value words keep
      whatever the slot held until the machine writes them. */
  function AllocateFrame(h: Heap, gc: Gc, roots: seq<int>, n: nat): (r: Result<(Heap, int), Fault>)
    ensures n + 1 > NodeSize ==> r == Err(NodeTooLarge)
    ensures r.Err? ==> r.error == NodeTooLarge || r.error == ExhaustedFault(gc)
    ensures n + 1 <= NodeSize ==> TookHead(h, r)
    ensures r.Ok? ==> NewNode(h, r.value.0, r.value.1, FrameTag, n + 1)
    ensures r.Ok? && WellFormed(h) ==> WellFormed(r.value.0) && NumberOfChildren(r.value.0, r.value.1) == n
  {
    AllocateWellFormed(h, gc, FrameTag, n + 1, roots);
    Allocate(h, gc, FrameTag, n + 1, roots)
  }

  /** An environment for `k` frames takes `k + 1` words. */
  function AllocateEnvironment(h: Heap, gc: Gc, roots: seq<int>, k: nat): (r: Result<(Heap, int), Fault>)
    ensures k + 1 > NodeSize ==> r == Err(NodeTooLarge)
    ensures r.Err? ==> r.error == NodeTooLarge || r.error == ExhaustedFault(gc)
    ensures k + 1 <= NodeSize ==> TookHead(h, r)
    ensures r.Ok? ==> NewNode(h, r.value.0, r.value.1, EnvironmentTag, k + 1)
    ensures r.Ok? && WellFormed(h) ==> WellFormed(r.value.0) && NumberOfChildren(r.value.0, r.value.1) == k
  {
    AllocateWellFormed(h, gc, EnvironmentTag, k + 1, roots);
    Allocate(h, gc, EnvironmentTag, k + 1, roots)
  }

  /** Copies payload words `0 .. n - 1` of `from` into `to`, reading each
      word just before it is written. */
  function CopyWords(h: Heap, from: int, to: int, n: int): (r: Heap)
    ensures r.size == h.size && r.free == h.free && r.slots.Keys == h.slots.Keys
    ensures forall b :: b in h.slots && b != to ==> r.slots[b] == h.slots[b]
    ensures to in h.slots ==>
              && r.slots[to] == h.slots[to].(words := r.slots[to].words)
              && |r.slots[to].words| == |h.slots[to].words|
              && (forall j :: 0 <= j < |h.slots[to].words| ==>
                    r.slots[to].words[j] == if j < n then Child(h, from, j) else h.slots[to].words[j])
  {
    if to !in h.slots then h
    else
      var s := h.slots[to];
      var words := seq(|s.words|, j requires 0 <= j < |s.words| => if j < n then Child(h, from, j) else s.words[j]);
      h.(slots := h.slots[to := s.(words := words)])
  }

  /** `heap_Environment_extend`: a new environment one frame longer than
      `env`, holding `env`'s frames and then `frame`. `pinned` is what the
      allocation adds to the roots. The old size is read before the
      allocation, the old frames after it. */
  function ExtendEnv(h: Heap, gc: Gc, roots: seq<int>, pinned: seq<int>, frame: int, env: int): (r: Result<(Heap, int), Fault>)
    ensures SizeOf(h, env) + 1 > NodeSize ==> r == Err(NodeTooLarge)
    ensures r.Err? ==> r.error == NodeTooLarge || r.error == ExhaustedFault(gc)
    ensures SizeOf(h, env) + 1 <= NodeSize ==> TookHead(h, r)
    ensures r.Ok? ==> NewNode(h, r.value.0, r.value.1, EnvironmentTag, SizeOf(h, env) + 1)
    ensures r.Ok? && WellFormed(h) ==>
              && WellFormed(r.value.0)
              && Child(r.value.0, r.value.1, if SizeOf(h, env) > 1 then SizeOf(h, env) - 1 else 0) == frame
  {
    var oldSize := SizeOf(h, env);
    AllocateWellFormed(h, gc, EnvironmentTag, oldSize + 1, roots + pinned);
    match Allocate(h, gc, EnvironmentTag, oldSize + 1, roots + pinned)
    case Err(e) => Err(e)
    case Ok((h1, e)) => Ok((FillEnvironment(h1, env, e, oldSize, frame), e))
  }

  /** The copy loop of `heap_Environment_extend` and the final write: the
      first `oldSize - 1` words of `env` go to `e`, then `frame` goes to
      the word after them (to word 0 when there was nothing to copy). */
  function FillEnvironment(h: Heap, env: int, e: int, oldSize: int, frame: int): (r: Heap)
    ensures r.size == h.size && r.free == h.free && r.slots.Keys == h.slots.Keys
    ensures forall b :: b in h.slots && b != e ==> r.slots[b] == h.slots[b]
    ensures e in h.slots ==> r.slots[e] == h.slots[e].(words := r.slots[e].words)
                             && |r.slots[e].words| == |h.slots[e].words|
  {
    var last := if oldSize - 1 > 0 then oldSize - 1 else 0;
    SetChild(CopyWords(h, env, e, oldSize - 1), e, last, frame)
  }

  /** go_vm and mark_sweep_gc pin both the frame and the environment. */
  function Extend(h: Heap, gc: Gc, roots: seq<int>, frame: int, env: int): Result<(Heap, int), Fault> {
    ExtendEnv(h, gc, roots, [frame, env], frame, env)
  }

  /** compiler.js pins the frame only when it sees that a collection is due,
      which its caller decides from the free list before extending. */
  function ExtendWithFrameRoot(h: Heap, gc: Gc, roots: seq<int>, frameAlloc: bool, frame: int, env: int): Result<(Heap, int), Fault> {
    ExtendEnv(h, gc, roots, if frameAlloc then [frame] else [], frame, env)
  }

  /** Deciding the pin from the free list is the same as always pinning
      the frame: the roots matter only to a collection, and a collection
      runs exactly when the list is empty. */
  lemma FrameRootOnlyMattersForCollection(h: Heap, gc: Gc, roots: seq<int>, frame: int, env: int)
    ensures ExtendWithFrameRoot(h, gc, roots, h.free == EndOfFreeList, frame, env)
         == ExtendEnv(h, gc, roots, [frame], frame, env)
  {
  }

  /** A traceable node among the pinned words is reachable from the roots. */
  lemma PinnedIsReachable(h: Heap, roots: seq<int>, pinned: seq<int>, x: int)
    requires x in pinned && Traceable(h, x)
    ensures Reachable(h, roots + pinned, x)
  {
    assert IsPath(h, [x]);
  }

  /** `h'` with the node at `e` is what extending `env` by `frame` should
      leave: a different node whose frames are the old environment's frames
      followed by the new frame, every node the roots `rr` reach kept with
      its contents, and the free list `ys`. */
  ghost predicate Extended(h: Heap, h': Heap, e: int, env: int, frame: int, rr: seq<int>, ys: seq<int>) {
    && e != env
    && Children(h', e) == Children(h, env) + [frame]
    && KeepsReachable(h, h', rr)
    && IsFreeList(h', h'.free, ys)
  }

  /** Extending an environment that the roots reach yields a different
      node whose frames are the old environment's frames followed by the new
      frame; every node the roots reach keeps its contents, so the old
      environment and its frames are untouched, and the free list stays a
      free list. */
  lemma ExtendAppendsFrame(h: Heap, gc: Gc, roots: seq<int>, pinned: seq<int>, frame: int, env: int, xs: seq<int>)
    requires WellFormed(h) && Closed(h) && IsFreeList(h, h.free, xs)
    requires HasTag(h, env, EnvironmentTag) && SizeOf(h, env) >= 1
    requires Reachable(h, roots + pinned, env)
    requires ExtendEnv(h, gc, roots, pinned, frame, env).Ok?
    ensures var (h', e) := ExtendEnv(h, gc, roots, pinned, frame, env).value;
            Extended(h, h', e, env, frame, roots + pinned, FreeListAfter(h, gc, roots + pinned, xs))
  {
    var s := SizeOf(h, env);
    var rr := roots + pinned;
    var ys := FreeListAfter(h, gc, rr, xs);
    ExtendEnvFills(h, gc, roots, pinned, frame, env);
    AllocateWellFormed(h, gc, EnvironmentTag, s + 1, rr);
    AllocateKeepsReachable(h, gc, EnvironmentTag, s + 1, rr, xs);
    var (h1, e1) := Allocate(h, gc, EnvironmentTag, s + 1, rr).value;
    FillKeeps(h, h1, e1, env, frame, rr, ys);
    ExtendedSame(h, (FillEnvironment(h1, env, e1, s, frame), e1), ExtendEnv(h, gc, roots, pinned, frame, env).value, env, frame, rr, ys);
  }

  lemma ExtendedSame(h: Heap, r: (Heap, int), c: (Heap, int), env: int, frame: int, rr: seq<int>, ys: seq<int>)
    requires Extended(h, r.0, r.1, env, frame, rr, ys) && c == r
    ensures Extended(h, c.0, c.1, env, frame, rr, ys)
  {
  }

  lemma ExtendEnvFills(h: Heap, gc: Gc, roots: seq<int>, pinned: seq<int>, frame: int, env: int)
    requires ExtendEnv(h, gc, roots, pinned, frame, env).Ok?
    ensures Allocate(h, gc, EnvironmentTag, SizeOf(h, env) + 1, roots + pinned).Ok?
    ensures var (h1, e) := Allocate(h, gc, EnvironmentTag, SizeOf(h, env) + 1, roots + pinned).value;
            ExtendEnv(h, gc, roots, pinned, frame, env).value == (FillEnvironment(h1, env, e, SizeOf(h, env), frame), e)
  {
  }

  lemma FillKeeps(h: Heap, h1: Heap, e: int, env: int, frame: int, rr: seq<int>, ys: seq<int>)
    requires WellFormed(h1) && HasTag(h, env, EnvironmentTag) && SizeOf(h, env) >= 1
    requires HasTag(h1, e, EnvironmentTag) && SizeOf(h1, e) == SizeOf(h, env) + 1 <= NodeSize
    requires Reachable(h, rr, env) && !Reachable(h, rr, e)
    requires KeepsReachable(h, h1, rr)
    requires IsFreeList(h1, h1.free, ys)
    ensures Extended(h, FillEnvironment(h1, env, e, SizeOf(h, env), frame), e, env, frame, rr, ys)
  {
    var h' := FillEnvironment(h1, env, e, SizeOf(h, env), frame);
    assert Children(h1, env) == Children(h, env);
    assert SizeOf(h1, env) == SizeOf(h, env);
    CopiedFramesThenFrame(h1, env, e, frame);
    FreeListSlotsAreFree(h1, h1.free, ys);
    FreeListFrame(h1, h', h1.free, ys);
  }

  /** The new environment's words: the old frames, then the new frame. */
  lemma CopiedFramesThenFrame(h: Heap, env: int, e: int, frame: int)
    requires WellFormed(h) && e != env
    requires HasTag(h, env, EnvironmentTag) && HasTag(h, e, EnvironmentTag)
    requires 1 <= SizeOf(h, env) && SizeOf(h, e) == SizeOf(h, env) + 1 <= NodeSize
    ensures Children(FillEnvironment(h, env, e, SizeOf(h, env), frame), e) == Children(h, env) + [frame]
  {
    var s := SizeOf(h, env);
    var h2 := CopyWords(h, env, e, s - 1);
    var h' := SetChild(h2, e, s - 1, frame);
    assert NumberOfChildren(h', e) == s;
    assert NumberOfChildren(h, env) == s - 1;
    forall j | 0 <= j < s - 1
      ensures Children(h', e)[j] == Children(h, env)[j]
    {
      assert h'.slots[e].words[j] == h2.slots[e].words[j] == Child(h, env, j);
    }
  }

  /** A variable's value: index `p.index` of frame `p.frame` of `env`. */
  function GetValue(h: Heap, env: int, p: Pos): (r: int)
    ensures VariableAt(h, env, p) ==> r == Children(h, Child(h, env, p.frame))[p.index]
  {
    Child(h, Child(h, env, p.frame), p.index)
  }

  /** Overwrites the variable at `p` in place, in the frame it lives in. */
  function SetValue(h: Heap, env: int, p: Pos, v: int): (r: Heap)
    ensures r.size == h.size && r.free == h.free && r.slots.Keys == h.slots.Keys
    ensures WellFormed(h) ==> WellFormed(r)
  {
    SetChild(h, Child(h, env, p.frame), p.index, v)
  }

  /** `p` names a variable of `env`: frame `p.frame` of the environment
      is a frame with a slot at `p.index`. */
  predicate VariableAt(h: Heap, env: int, p: Pos) {
    && HasTag(h, env, EnvironmentTag)
    && HasTag(h, Child(h, env, p.frame), FrameTag)
    && p.index < NumberOfChildren(h, Child(h, env, p.frame))
  }

  /** Reading a variable after writing it gives the value written; every
      other variable, one held in another frame or at another index, keeps
      its value. */
  lemma SetThenGet(h: Heap, env: int, p: Pos, v: int, q: Pos)
    requires VariableAt(h, env, p)
    ensures GetValue(SetValue(h, env, p, v), env, p) == v
    ensures Child(h, env, q.frame) != Child(h, env, p.frame) || q.index != p.index ==>
              GetValue(SetValue(h, env, p, v), env, q) == GetValue(h, env, q)
  {
  }
}
