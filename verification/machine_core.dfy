/** What the three machines share: their stacks are JavaScript arrays of
    words, a call moves its arguments from the operand stack into a fresh
    frame, ENTER_SCOPE fills a fresh frame with Unassigned, operators read
    words as JavaScript values and box the result, and start-up builds the
    same literal nodes and global environment. */
module MachineCore {
  import opened Wrappers
  import opened Heap
  import opened Allocator
  import opened Faults
  import opened JsValues
  import opened Nodes
  import opened Values
  import opened Positions

  /** `array.pop()`: the last element and the rest. An empty array gives
      `undefined` (`NoValue`) and stays empty. */
  function PopWord(s: seq<int>): (r: (seq<int>, int))
    ensures s != [] ==> r.0 + [r.1] == s
    ensures s == [] ==> r == ([], NoValue)
  {
    if s == [] then ([], NoValue) else (s[..|s| - 1], s[|s| - 1])
  }

  /** Popping what was just pushed gives it back and restores the array. */
  lemma PushThenPopWord(s: seq<int>, x: int)
    ensures PopWord(s + [x]) == (s, x)
  {
    assert (s + [x])[..|s|] == s;
  }

  /** `peek(array, k)`, that is `array.slice(-1 - k)[0]`: the element `k`
      places below the top. When `k` reaches past the bottom, `slice`
      starts at index 0, so the bottom element is read; an empty array
      reads `undefined`. */
  function Peek(s: seq<int>, k: nat): (r: int)
    ensures k < |s| ==> r == s[|s| - 1 - k]
    ensures s == [] ==> r == NoValue
    ensures s != [] && k >= |s| ==> r == s[0]
  {
    if s == [] then NoValue else if k < |s| then s[|s| - 1 - k] else s[0]
  }

  /** Popping once more after the `k` arguments leaves the stack below
      the callee. */
  lemma PopBelowArguments(s: seq<int>, k: nat)
    ensures k < |s| ==> PopWord(s[..|s| - k]).0 == s[..|s| - k - 1]
  {
    if k < |s| {
      assert s[..|s| - k][..|s| - k - 1] == s[..|s| - k - 1];
    }
  }

  /** The argument loop of CALL, TAIL_CALL and GOCALL: for `i` from
      `n - 1` down to 0, pop the operand stack into slot `i` of `frame`. */
  function PopArgs(h: Heap, frame: int, os: seq<int>, n: nat): (r: (Heap, seq<int>))
    ensures r.0.size == h.size && r.0.free == h.free && r.0.slots.Keys == h.slots.Keys
    ensures forall b :: b in h.slots && b != frame ==> r.0.slots[b] == h.slots[b]
    ensures WellFormed(h) ==> WellFormed(r.0)
    ensures n <= |os| ==> r.1 == os[..|os| - n]
    decreases n
  {
    if n == 0 then (h, os)
    else
      var (os1, v) := PopWord(os);
      PopArgs(SetChild(h, frame, n - 1, v), frame, os1, n - 1)
  }

  /** With `n` arguments on the stack, argument `j` (counted from the
      deepest) lands in slot `j`, the `n` arguments leave the stack, and
      the frame's header and other words stay as they were. */
  lemma {:induction false} PopArgsPassesArguments(h: Heap, frame: int, os: seq<int>, n: nat)
    requires frame in h.slots && n <= |os| && n <= |h.slots[frame].words|
    ensures PopArgs(h, frame, os, n).1 == os[..|os| - n]
    ensures forall j :: 0 <= j < n ==> Child(PopArgs(h, frame, os, n).0, frame, j) == os[|os| - n + j]
    ensures forall j :: n <= j < |h.slots[frame].words| ==> Child(PopArgs(h, frame, os, n).0, frame, j) == Child(h, frame, j)
    ensures PopArgs(h, frame, os, n).0.slots[frame] == h.slots[frame].(words := PopArgs(h, frame, os, n).0.slots[frame].words)
    decreases n
  {
    if n > 0 {
      var (os1, v) := PopWord(os);
      assert os1 == os[..|os| - 1] && v == os[|os| - 1];
      var h1 := SetChild(h, frame, n - 1, v);
      PopArgsPassesArguments(h1, frame, os1, n - 1);
      var r := PopArgs(h1, frame, os1, n - 1);
      assert r == PopArgs(h, frame, os, n);
      assert os1[..|os1| - (n - 1)] == os[..|os| - n];
      forall j | 0 <= j < n
        ensures Child(r.0, frame, j) == os[|os| - n + j]
      {
        if j < n - 1 {
          assert os1[|os1| - (n - 1) + j] == os[|os| - n + j];
        }
      }
    }
  }

  /** The slot loop of ENTER_SCOPE: slots `0 .. n - 1` of `frame` get `v`. */
  function FillSlots(h: Heap, frame: int, n: nat, v: int): (r: Heap)
    ensures r.size == h.size && r.free == h.free && r.slots.Keys == h.slots.Keys
    ensures forall b :: b in h.slots && b != frame ==> r.slots[b] == h.slots[b]
    ensures WellFormed(h) ==> WellFormed(r)
    decreases n
  {
    if n == 0 then h else SetChild(FillSlots(h, frame, n - 1, v), frame, n - 1, v)
  }

  /** After the loop every filled slot holds `v`, the rest of the frame is
      untouched. */
  lemma {:induction false} FillSlotsFills(h: Heap, frame: int, n: nat, v: int)
    requires frame in h.slots && n <= |h.slots[frame].words|
    ensures forall j :: 0 <= j < n ==> Child(FillSlots(h, frame, n, v), frame, j) == v
    ensures forall j :: n <= j < |h.slots[frame].words| ==> Child(FillSlots(h, frame, n, v), frame, j) == Child(h, frame, j)
    ensures FillSlots(h, frame, n, v).slots[frame] == h.slots[frame].(words := FillSlots(h, frame, n, v).slots[frame].words)
    ensures |FillSlots(h, frame, n, v).slots[frame].words| == |h.slots[frame].words|
    decreases n
  {
    if n > 0 {
      FillSlotsFills(h, frame, n - 1, v);
      var h1 := FillSlots(h, frame, n - 1, v);
      var r := SetChild(h1, frame, n - 1, v);
      assert r == FillSlots(h, frame, n, v);
      assert r.slots[frame] == h1.slots[frame].(words := h1.slots[frame].words[n - 1 := v]);
      forall j | 0 <= j < n
        ensures Child(r, frame, j) == v
      {
        if j < n - 1 {
          assert Child(h1, frame, j) == v;
        }
      }
    }
  }

  /** `address_to_JS_value` on a word. The conversion recurses into pairs;
      a pair structure nested more deeply than there are slots contains a
      cycle, on which the source recurses until the JavaScript stack
      overflows, reported here as `TooDeep`. */
  function ReadValue(h: Heap, a: int): (r: Result<JsValue, Fault>)
    ensures r.Err? ==> r.error == TooDeep && HasTag(h, a, PairTag)
    ensures r.Ok? && r.value.JPair? ==> HasTag(h, a, PairTag)
    ensures !IsNode(h, a) ==> r == Ok(JStr("unknown word tag"))
  {
    match FromAddress(h, a, |h.slots|)
    case None => Err(TooDeep)
    case Some(v) => Ok(v)
  }

  /** A word holding a value reads back as that value whenever the value
      nests no deeper than the heap has slots. */
  lemma ReadRepresented(h: Heap, a: int, v: JsValue)
    requires Represents(h, a, v) && Depth(v) <= |h.slots|
    ensures ReadValue(h, a) == Ok(v)
  {
    FromRepresented(h, a, v, |h.slots|);
  }

  /** The operator is in the table, both words read as values, and the
      operator accepts those values. */
  predicate BinopApplies(h: Heap, op: Result<BinOp, Fault>, v1: int, v2: int) {
    && op.Ok? && ReadValue(h, v1).Ok? && ReadValue(h, v2).Ok?
    && ApplyBinOp(op.value, ReadValue(h, v1).value, ReadValue(h, v2).value).Ok?
  }

  /** The operator is in the table, the word reads as a value, and the
      operator accepts it. */
  predicate UnopApplies(h: Heap, op: Result<UnOp, Fault>, v: int) {
    op.Ok? && ReadValue(h, v).Ok? && ApplyUnOp(op.value, ReadValue(h, v).value).Ok?
  }

  /** `apply_binop(op, v2, v1)`: `v2` was popped first and is the right
      operand. Both words are read, the operator looked up and applied,
      and the result boxed with the roots given. */
  function ApplyBinopAt(h: Heap, gc: Gc, roots: seq<int>, lits: Literals,
                        op: Result<BinOp, Fault>, v2: int, v1: int): (r: Result<(Heap, int), Fault>)
    ensures op.Err? && ReadValue(h, v1).Ok? && ReadValue(h, v2).Ok? ==> r == Err(op.error)
    ensures r.Ok? ==> BinopApplies(h, op, v1, v2)
    ensures r.Ok? ==> r.value.0.size == h.size && r.value.0.slots.Keys == h.slots.Keys
  {
    var x :- ReadValue(h, v1);
    var y :- ReadValue(h, v2);
    var o :- op;
    match ApplyBinOp(o, x, y)
    case Err(e) => Err(OperatorError(e))
    case Ok(z) => ToAddress(h, gc, roots, lits, z)
  }

  /** `apply_unop(op, v)`. */
  function ApplyUnopAt(h: Heap, gc: Gc, roots: seq<int>, lits: Literals,
                       op: Result<UnOp, Fault>, v: int): (r: Result<(Heap, int), Fault>)
    ensures op.Err? && ReadValue(h, v).Ok? ==> r == Err(op.error)
    ensures r.Ok? ==> UnopApplies(h, op, v)
    ensures r.Ok? ==> r.value.0.size == h.size && r.value.0.slots.Keys == h.slots.Keys
  {
    var x :- ReadValue(h, v);
    var o :- op;
    match ApplyUnOp(o, x)
    case Err(e) => Err(OperatorError(e))
    case Ok(z) => ToAddress(h, gc, roots, lits, z)
  }

  /** With room on the free list, the word a storable value converts to
      reads back as the value. */
  lemma ConversionReadsBack(h: Heap, gc: Gc, roots: seq<int>, lits: Literals, v: JsValue, xs: seq<int>)
    requires WellFormed(h) && ValidLiterals(h, lits) && IsFreeList(h, h.free, xs)
    requires Storable(v) && NodesNeeded(v) <= |xs| && Depth(v) <= |h.slots|
    ensures Conversion(h, gc, roots, lits, v).Ok?
    ensures ReadValue(Conversion(h, gc, roots, lits, v).value.0, Conversion(h, gc, roots, lits, v).value.1) == Ok(v)
  {
    ToAddressRepresents(h, gc, roots, lits, v, xs);
    var (h', a) := Conversion(h, gc, roots, lits, v).value;
    assert h'.slots.Keys == h.slots.Keys;
    ReadRepresented(h', a, v);
  }

  /** `apply_binop` on words representing `x` and `y` boxes the result
      the operator gives on `x` and `y`. */
  lemma ApplyRepresented(h: Heap, gc: Gc, roots: seq<int>, lits: Literals, op: Result<BinOp, Fault>,
                         x: JsValue, y: JsValue, z: JsValue, n1: int, n2: int)
    requires Represents(h, n1, x) && Represents(h, n2, y)
    requires Depth(x) <= |h.slots| && Depth(y) <= |h.slots|
    requires op.Ok? && ApplyBinOp(op.value, x, y) == Ok(z)
    ensures ApplyBinopAt(h, gc, roots, lits, op, n2, n1) == Conversion(h, gc, roots, lits, z)
  {
    ReadRepresented(h, n1, x);
    ReadRepresented(h, n2, y);
  }

  /** `apply_unop` on a word representing `x` boxes the result the
      operator gives on `x`. */
  lemma UnopRepresented(h: Heap, gc: Gc, roots: seq<int>, lits: Literals, op: Result<UnOp, Fault>,
                        x: JsValue, z: JsValue, n: int)
    requires Represents(h, n, x) && Depth(x) <= |h.slots|
    requires op.Ok? && ApplyUnOp(op.value, x) == Ok(z)
    ensures ApplyUnopAt(h, gc, roots, lits, op, n) == Conversion(h, gc, roots, lits, z)
  {
    ReadRepresented(h, n, x);
  }

  /** The number of constant names: `undefined` and eight floating-point
      `math_` constants. */
  const ConstantCount: nat := 9

  /** `allocate_literal_values`: False, True, Null, Unassigned and Undefined,
      in that order. Nothing is rooted during start-up. */
  function AllocateLiterals(h: Heap, gc: Gc): (r: Result<(Heap, Literals), Fault>)
    ensures r.Ok? ==> r.value.0.size == h.size && r.value.0.slots.Keys == h.slots.Keys
  {
    var (h1, f) :- AllocateLiteral(h, gc, [], FalseTag);
    var (h2, t) :- AllocateLiteral(h1, gc, [], TrueTag);
    var (h3, n) :- AllocateLiteral(h2, gc, [], NullTag);
    var (h4, u) :- AllocateLiteral(h3, gc, [], UnassignedTag);
    var (h5, d) :- AllocateLiteral(h4, gc, [], UndefinedTag);
    Ok((h5, Literals(f, t, n, u, d)))
  }

  /** The loop of `allocate_builtin_frame` from builtin `i` on: each
      builtin node is allocated and stored in slot `i` of the frame. */
  function FillBuiltins(h: Heap, gc: Gc, frame: int, i: nat, count: nat): (r: Result<Heap, Fault>)
    ensures r.Ok? ==> r.value.size == h.size && r.value.slots.Keys == h.slots.Keys
    decreases count - i
  {
    if i >= count then Ok(h)
    else
      var (h1, b) :- AllocateBuiltin(h, gc, [], i);
      FillBuiltins(SetChild(h1, frame, i, b), gc, frame, i + 1, count)
  }

  /** The loop of `allocate_constant_frame` from constant `i` on: slot 0
      holds Undefined, each other slot a fresh Number node. The `math_`
      constants are floating-point numbers; the model stores 0 in their
      nodes. */
  function FillConstants(h: Heap, gc: Gc, lits: Literals, frame: int, i: nat): (r: Result<Heap, Fault>)
    ensures r.Ok? ==> r.value.size == h.size && r.value.slots.Keys == h.slots.Keys
    decreases ConstantCount - i
  {
    if i >= ConstantCount then Ok(h)
    else if i == 0 then FillConstants(SetChild(h, frame, 0, lits.undefinedNode), gc, lits, frame, 1)
    else
      var (h1, c) :- AllocateNumber(h, gc, [], 0);
      FillConstants(SetChild(h1, frame, i, c), gc, lits, frame, i + 1)
  }

  /** The start-up allocations of `initialize_machine`: the literal
      nodes, the builtin frame, the constant frame, and an empty
      environment extended by the two frames. The result is the heap, the
      literals and the global environment. */
  function Boot(h: Heap, gc: Gc, builtinCount: nat): (r: Result<(Heap, Literals, int), Fault>)
    ensures r.Ok? ==> r.value.0.size == h.size && r.value.0.slots.Keys == h.slots.Keys
    ensures builtinCount + 1 > NodeSize ==> r.Err?
  {
    var (h1, lits) :- AllocateLiterals(h, gc);
    var (h2, bf) :- AllocateFrame(h1, gc, [], builtinCount);
    var h3 :- FillBuiltins(h2, gc, bf, 0, builtinCount);
    var (h4, cf) :- AllocateFrame(h3, gc, [], ConstantCount);
    var h5 :- FillConstants(h4, gc, lits, cf, 0);
    var (h6, e0) :- AllocateEnvironment(h5, gc, [], 0);
    var (h7, e1) :- ExtendEnv(h6, gc, [], Pinned(gc, [bf, e0]), bf, e0);
    var (h8, e2) :- ExtendEnv(h7, gc, [], Pinned(gc, [cf, e1]), cf, e1);
    Ok((h8, lits, e2))
  }

  /** With a slot on the free list, an allocation takes that slot, runs no
      collection and changes no other slot. */
  lemma AllocateFromList(h: Heap, gc: Gc, tag: Tag, size: int, roots: seq<int>, xs: seq<int>)
    requires WellFormed(h) && IsFreeList(h, h.free, xs) && xs != [] && size <= NodeSize
    ensures Allocate(h, gc, tag, size, roots).Ok?
    ensures var (h', a) := Allocate(h, gc, tag, size, roots).value;
            && a == xs[0] && !IsNode(h, a) && WellFormed(h')
            && IsFreeList(h', h'.free, xs[1..])
            && (forall b :: b in h.slots && b != a ==> h'.slots[b] == h.slots[b])
  {
    assert h.free in h.slots;
    TakeFreeKeepsFreeList(h, tag, size, xs);
    TakeFreeWellFormed(h, tag, size);
  }

  /** With a slot on the free list, extending an environment takes that
      slot for the new environment, whose frames are the old ones followed
      by the new frame, and changes no other slot. */
  lemma ExtendFromList(h: Heap, gc: Gc, roots: seq<int>, pinned: seq<int>, frame: int, env: int, xs: seq<int>, h': Heap, e: int)
    requires WellFormed(h) && IsFreeList(h, h.free, xs) && xs != []
    requires HasTag(h, env, EnvironmentTag) && SizeOf(h, env) >= 1
    requires ExtendEnv(h, gc, roots, pinned, frame, env) == Ok((h', e))
    ensures e == xs[0] && !IsNode(h, e) && WellFormed(h')
    ensures IsFreeList(h', h'.free, xs[1..])
    ensures Children(h', e) == Children(h, env) + [frame]
    ensures forall b :: b in h.slots && b != e ==> h'.slots[b] == h.slots[b]
  {
    ExtendEnvFills(h, gc, roots, pinned, frame, env);
    var (h1, e1) := Allocate(h, gc, EnvironmentTag, SizeOf(h, env) + 1, roots + pinned).value;
    FillFromList(h, gc, roots + pinned, frame, env, xs, h1, e1);
  }

  /** The second half of an extension from the free list: filling the new
      environment node copies the old frames and appends `frame`. */
  lemma FillFromList(h: Heap, gc: Gc, roots: seq<int>, frame: int, env: int, xs: seq<int>, h1: Heap, e: int)
    requires WellFormed(h) && IsFreeList(h, h.free, xs) && xs != []
    requires HasTag(h, env, EnvironmentTag) && 1 <= SizeOf(h, env) && SizeOf(h, env) + 1 <= NodeSize
    requires Allocate(h, gc, EnvironmentTag, SizeOf(h, env) + 1, roots) == Ok((h1, e))
    ensures var h' := FillEnvironment(h1, env, e, SizeOf(h, env), frame);
            && e == xs[0] && !IsNode(h, e)
            && IsFreeList(h', h'.free, xs[1..])
            && Children(h', e) == Children(h, env) + [frame]
            && (forall b :: b in h.slots && b != e ==> h'.slots[b] == h.slots[b])
  {
    var s := SizeOf(h, env);
    AllocateFromList(h, gc, EnvironmentTag, s + 1, roots, xs);
    assert h1.slots[env] == h.slots[env];
    assert Children(h1, env) == Children(h, env);
    CopiedFramesThenFrame(h1, env, e, frame);
    var h' := FillEnvironment(h1, env, e, s, frame);
    FreeListSlotsAreFree(h1, h1.free, xs[1..]);
    FreeListFrame(h1, h', h1.free, xs[1..]);
  }

  /** The heap side of opening a scope with two slots on the free list:
      the frame takes the first, the extended environment the second, the
      frame becomes the environment's last, and every node there was stays
      as it was. */
  lemma FrameThenExtend(h: Heap, gc: Gc, roots: seq<int>, pinned: seq<int>, env: int, num: nat, xs: seq<int>, h2: Heap, f: int, h3: Heap, e: int)
    requires WellFormed(h) && IsFreeList(h, h.free, xs) && |xs| >= 2
    requires HasTag(h, env, EnvironmentTag) && SizeOf(h, env) >= 1
    requires AllocateFrame(h, gc, roots, num) == Ok((h2, f))
    requires ExtendEnv(h2, gc, roots, pinned, f, env) == Ok((h3, e))
    ensures f != e && f in h3.slots && e in h3.slots && num <= |h3.slots[f].words| && !IsNode(h, f)
    ensures Children(h3, e) == Children(h, env) + [f]
    ensures NodesKept(h, h3)
  {
    FrameFromList(h, gc, roots, num, xs, h2, f);
    ExtendFromList(h2, gc, roots, pinned, f, env, xs[1..], h3, e);
    assert Children(h2, env) == Children(h, env);
    forall b | IsNode(h, b)
      ensures IsNode(h3, b) && h3.slots[b] == h.slots[b]
    {
      assert b != f && h2.slots[b] == h.slots[b];
      assert b != e;
    }
  }

  /** A frame allocated with a slot on the free list takes that slot and
      leaves every other slot as it was. */
  lemma FrameFromList(h: Heap, gc: Gc, roots: seq<int>, num: nat, xs: seq<int>, h2: Heap, f: int)
    requires WellFormed(h) && IsFreeList(h, h.free, xs) && xs != []
    requires AllocateFrame(h, gc, roots, num) == Ok((h2, f))
    ensures f == xs[0] && !IsNode(h, f) && f in h2.slots && num <= |h2.slots[f].words|
    ensures WellFormed(h2) && IsFreeList(h2, h2.free, xs[1..])
    ensures forall b :: b in h.slots && b != f ==> h2.slots[b] == h.slots[b]
  {
    assert num + 1 <= NodeSize;
    AllocateFromList(h, gc, FrameTag, num + 1, roots, xs);
  }

  /** Filling the new frame's slots then leaves the environment's frames
      and every older node alone. */
  lemma FillNewFrame(h: Heap, h3: Heap, f: int, e: int, frames: seq<int>, num: nat, v: int)
    requires f != e && f in h3.slots && e in h3.slots && num <= |h3.slots[f].words| && !IsNode(h, f)
    requires Children(h3, e) == frames + [f]
    requires NodesKept(h, h3)
    ensures var h4 := FillSlots(h3, f, num, v);
            && Children(h4, e) == frames + [f]
            && (forall i :: 0 <= i < num ==> GetValue(h4, e, Pos(|frames|, i)) == v)
            && NodesKept(h, h4)
  {
    FillSlotsFills(h3, f, num, v);
    var h4 := FillSlots(h3, f, num, v);
    assert h4.slots[e] == h3.slots[e];
  }

  // ---------------------------------------------------------------------
  // The steps of CALL in mark_sweep_gc and compiler.js

  /** A fresh frame of `arity` slots, allocated with `roots`, and the
      `arity` arguments popped into it; the result is the heap, the stack
      left and the frame. */
  function MoveArguments(h: Heap, gc: Gc, roots: seq<int>, os: seq<int>, arity: nat): (r: Result<(Heap, seq<int>, int), Fault>)
    ensures r.Ok? && arity <= |os| ==> r.value.1 == os[..|os| - arity]
    ensures r.Ok? && WellFormed(h) ==> WellFormed(r.value.0)
  {
    var (h1, f) :- AllocateFrame(h, gc, roots, arity);
    var (h2, os1) := PopArgs(h1, f, os, arity);
    Ok((h2, os1, f))
  }

  /** With a slot on the free list, the frame is that slot and nothing else
      in the heap changes. */
  lemma MoveArgumentsFromList(h: Heap, gc: Gc, roots: seq<int>, os: seq<int>, arity: nat, xs: seq<int>, h2: Heap, os1: seq<int>, f: int)
    requires WellFormed(h) && IsFreeList(h, h.free, xs) && xs != []
    requires MoveArguments(h, gc, roots, os, arity) == Ok((h2, os1, f))
    ensures f == xs[0] && !IsNode(h, f) && f in h2.slots
    ensures WellFormed(h2) && IsFreeList(h2, h2.free, xs[1..])
    ensures forall b :: b in h.slots && b != f ==> h2.slots[b] == h.slots[b]
  {
    AllocateFromList(h, gc, FrameTag, arity + 1, roots, xs);
    var (h1, f1) := AllocateFrame(h, gc, roots, arity).value;
    FreeListSlotsAreFree(h1, h1.free, xs[1..]);
    FreeListFrame(h1, h2, h1.free, xs[1..]);
  }

  /** With a slot on the free list, a Callframe is that slot; it holds the
      environment and the return address, and nothing else in the heap
      changes. */
  lemma CallframeFromList(h: Heap, gc: Gc, roots: seq<int>, env: int, pc: int, xs: seq<int>)
    requires WellFormed(h) && IsFreeList(h, h.free, xs) && xs != []
    ensures AllocateCallframe(h, gc, roots, env, pc).Ok?
    ensures var (h', c) := AllocateCallframe(h, gc, roots, env, pc).value;
            && c == xs[0] && !IsNode(h, c)
            && HasTag(h', c, CallframeTag) && Children(h', c) == [env] && Pc(h', c) == pc % TwoByteRange
            && WellFormed(h') && IsFreeList(h', h'.free, xs[1..])
            && forall b :: b in h.slots && b != c ==> h'.slots[b] == h.slots[b]
  {
    var roots' := roots + Pinned(gc, [env]);
    AllocateWithFromList(h, gc, roots', CallframeTag, 2, [env], xs);
    var (h1, c) := AllocateWith(h, gc, roots', CallframeTag, 2, [env]).value;
    FreeListSlotsAreFree(h1, h1.free, xs[1..]);
    var h2 := SetPc(h1, c, pc % TwoByteRange);
    FreeListFrame(h1, h2, h1.free, xs[1..]);
    forall b | b in h.slots && b != c
      ensures h2.slots[b] == h.slots[b]
    {
      assert IsNode(h, b) ==> h1.slots[b] == h.slots[b];
      if !IsNode(h, b) {
        assert b in h1.slots && b !in xs[1..] ==> h1.slots[b] == h.slots[b];
      }
    }
  }

  /** With a slot on the free list, an extended environment is that slot,
      and nothing else in the heap changes. */
  lemma ExtendKeepsOthers(h: Heap, gc: Gc, roots: seq<int>, pinned: seq<int>, frame: int, env: int, xs: seq<int>)
    requires WellFormed(h) && IsFreeList(h, h.free, xs) && xs != []
    requires ExtendEnv(h, gc, roots, pinned, frame, env).Ok?
    ensures var (h', e) := ExtendEnv(h, gc, roots, pinned, frame, env).value;
            && e == xs[0]
            && forall b :: b in h.slots && b != e ==> h'.slots[b] == h.slots[b]
  {
    AllocateFromList(h, gc, EnvironmentTag, SizeOf(h, env) + 1, roots + pinned, xs);
  }

  /** With two slots on the free list, a Callframe allocated and then an
      environment extended: the Callframe takes the first slot and keeps
      its environment and return address. */
  lemma CallframeKept(h: Heap, gc: Gc, roots: seq<int>, env: int, pc: int, xs: seq<int>, hc: Heap, c: int,
                      roots': seq<int>, pinned: seq<int>, frame: int, env': int, he: Heap, e: int)
    requires WellFormed(h) && IsFreeList(h, h.free, xs) && |xs| >= 2
    requires AllocateCallframe(h, gc, roots, env, pc) == Ok((hc, c))
    requires ExtendEnv(hc, gc, roots', pinned, frame, env') == Ok((he, e))
    ensures c == xs[0] && e == xs[1]
    ensures HasTag(he, c, CallframeTag) && Child(he, c, 0) == env && Pc(he, c) == pc % TwoByteRange
  {
    CallframeFromList(h, gc, roots, env, pc, xs);
    assert xs[0] !in xs[1..];
    ExtendKeepsOthers(hc, gc, roots', pinned, frame, env', xs[1..]);
    assert he.slots[c] == hc.slots[c];
  }

  /** With two slots on the free list, a Callframe allocated and then a
      frame for the arguments: the frame takes the second slot and leaves
      the Callframe as it was. */
  lemma CallframeThenMove(h: Heap, gc: Gc, roots: seq<int>, env: int, pc: int, xs: seq<int>, hc: Heap, c: int,
                          roots': seq<int>, os: seq<int>, arity: nat, h2: Heap, os1: seq<int>, f: int)
    requires WellFormed(h) && IsFreeList(h, h.free, xs) && |xs| >= 2
    requires AllocateCallframe(h, gc, roots, env, pc) == Ok((hc, c))
    requires MoveArguments(hc, gc, roots', os, arity) == Ok((h2, os1, f))
    ensures c == xs[0] && f == xs[1] && c !in xs[2..]
    ensures c in h2.slots && h2.slots[c] == hc.slots[c]
    ensures HasTag(hc, c, CallframeTag) && Child(hc, c, 0) == env && Pc(hc, c) == pc % TwoByteRange
    ensures WellFormed(h2) && IsFreeList(h2, h2.free, xs[2..])
  {
    CallframeFromList(h, gc, roots, env, pc, xs);
    assert c !in xs[1..];
    MoveArgumentsFromList(hc, gc, roots', os, arity, xs[1..], h2, os1, f);
    assert xs[1..][1..] == xs[2..];
  }

  /** With three slots on the free list, a Callframe allocated first, then
      a frame for the arguments, then an environment extended: the
      Callframe takes the first slot and keeps its environment and return
      address. */
  lemma CallframeFirstKept(h: Heap, gc: Gc, roots: seq<int>, env: int, pc: int, xs: seq<int>, hc: Heap, c: int,
                           roots': seq<int>, os: seq<int>, arity: nat, h2: Heap, os1: seq<int>, f: int,
                           roots'': seq<int>, pinned: seq<int>, env': int, he: Heap, e: int)
    requires WellFormed(h) && IsFreeList(h, h.free, xs) && |xs| >= 3
    requires AllocateCallframe(h, gc, roots, env, pc) == Ok((hc, c))
    requires MoveArguments(hc, gc, roots', os, arity) == Ok((h2, os1, f))
    requires ExtendEnv(h2, gc, roots'', pinned, f, env') == Ok((he, e))
    ensures c == xs[0]
    ensures HasTag(he, c, CallframeTag) && Child(he, c, 0) == env && Pc(he, c) == pc % TwoByteRange
  {
    CallframeThenMove(h, gc, roots, env, pc, xs, hc, c, roots', os, arity, h2, os1, f);
    ExtendKeepsOthers(h2, gc, roots'', pinned, f, env', xs[2..]);
    assert he.slots[c] == hc.slots[c];
  }

  // ---------------------------------------------------------------------
  // The builtins of mark_sweep_gc and compiler.js

  /** One of the nine builtins mark_sweep_gc and compiler.js share, with
      ids 0 to 8: `display` (`println` in compiler.js), `error`, `pair`,
      `is_pair`, `head`, `tail`, `is_null`, `set_head` and `set_tail`. Each
      pops its arguments off `os` itself. The result is the heap, the
      stack after the pops, the values shown, and the result word;
      `set_head` and `set_tail` return nothing, so `undefined` is the
      result. `pairRoots` are the roots while `pair` allocates: its two
      arguments are popped by then and are not pinned. */
  function SourceBuiltin(h: Heap, gc: Gc, lits: Literals, os: seq<int>, pairRoots: seq<int>, id: int)
    : (r: Result<(Heap, seq<int>, seq<JsValue>, int), Fault>)
    ensures !(0 <= id < 9) ==> r == Err(UnknownBuiltin(id))
    ensures r.Ok? && id != 2 ==> r.value.0.slots.Keys == h.slots.Keys
    ensures r.Ok? && id != 0 ==> r.value.2 == []
  {
    var (os1, a) := PopWord(os);
    var (os2, b) := PopWord(os1);
    if id == 0 then
      // display: shows the value and returns its argument
      var v :- ReadValue(h, a);
      Ok((h, os1, [v], a))
    else if id == 1 then
      // error
      var v :- ReadValue(h, a);
      Err(ProgramError(v))
    else if id == 2 then
      // pair: the tail is popped first
      var (h1, p) :- AllocatePair(h, gc, pairRoots, b, a);
      Ok((h1, os2, [], p))
    else if id == 3 then
      // is_pair
      Ok((h, os1, [], if HasTag(h, a, PairTag) then lits.trueNode else lits.falseNode))
    else if id == 4 then
      // head
      Ok((h, os1, [], Child(h, a, 0)))
    else if id == 5 then
      // tail
      Ok((h, os1, [], Child(h, a, 1)))
    else if id == 6 then
      // is_null
      Ok((h, os1, [], if HasTag(h, a, NullTag) then lits.trueNode else lits.falseNode))
    else if id == 7 then
      // set_head: the value is popped first
      Ok((SetChild(h, b, 0, a), os2, [], NoValue))
    else if id == 8 then
      // set_tail
      Ok((SetChild(h, b, 1, a), os2, [], NoValue))
    else Err(UnknownBuiltin(id))
  }

  /** `pair` takes head and tail off the stack and, with a slot on the
      free list, builds a Pair node of them; `head`, `tail` and `is_pair`
      applied to it give back the head, the tail and True. */
  lemma PairThenHeadAndTail(h: Heap, gc: Gc, lits: Literals, os: seq<int>, pairRoots: seq<int>, xs: seq<int>, roots: seq<int>)
    requires WellFormed(h) && IsFreeList(h, h.free, xs) && xs != []
    requires |os| >= 2
    ensures SourceBuiltin(h, gc, lits, os, pairRoots, 2).Ok?
    ensures var (h1, os1, shown, p) := SourceBuiltin(h, gc, lits, os, pairRoots, 2).value;
            && os1 == os[..|os| - 2] && shown == []
            && SourceBuiltin(h1, gc, lits, os1 + [p], roots, 4) == Ok((h1, os1, [], os[|os| - 2]))
            && SourceBuiltin(h1, gc, lits, os1 + [p], roots, 5) == Ok((h1, os1, [], os[|os| - 1]))
            && SourceBuiltin(h1, gc, lits, os1 + [p], roots, 3) == Ok((h1, os1, [], lits.trueNode))
  {
    var hd, tl := os[|os| - 2], os[|os| - 1];
    PopBelowArguments(os, 1);
    AllocateWithFromList(h, gc, pairRoots, PairTag, 3, [hd, tl], xs);
    var (h1, p) := AllocatePair(h, gc, pairRoots, hd, tl).value;
    assert Children(h1, p) == [hd, tl];
    PushThenPopWord(os[..|os| - 2], p);
  }

  /** `set_head` writes the value into the node's head and returns
      nothing; `head` then reads the value, and the tail is as it was. */
  lemma SetHeadThenHead(h: Heap, gc: Gc, lits: Literals, os: seq<int>, pairRoots: seq<int>, roots: seq<int>)
    requires WellFormed(h) && |os| >= 2 && IsNode(h, os[|os| - 2])
    ensures var p, v := os[|os| - 2], os[|os| - 1];
            var (h1, os1, shown, r) := SourceBuiltin(h, gc, lits, os, pairRoots, 7).value;
            && r == NoValue && os1 == os[..|os| - 2]
            && SourceBuiltin(h1, gc, lits, os1 + [p], roots, 4) == Ok((h1, os1, [], v))
            && Child(h1, p, 1) == Child(h, p, 1)
  {
    PopBelowArguments(os, 1);
    PushThenPopWord(os[..|os| - 2], os[|os| - 2]);
  }

  /** `set_tail` writes the value into the node's tail and returns
      nothing; `tail` then reads the value, and the head is as it was. */
  lemma SetTailThenTail(h: Heap, gc: Gc, lits: Literals, os: seq<int>, pairRoots: seq<int>, roots: seq<int>)
    requires WellFormed(h) && |os| >= 2 && IsNode(h, os[|os| - 2])
    ensures var p, v := os[|os| - 2], os[|os| - 1];
            var (h1, os1, shown, r) := SourceBuiltin(h, gc, lits, os, pairRoots, 8).value;
            && r == NoValue && os1 == os[..|os| - 2]
            && SourceBuiltin(h1, gc, lits, os1 + [p], roots, 5) == Ok((h1, os1, [], v))
            && Child(h1, p, 0) == Child(h, p, 0)
  {
    PopBelowArguments(os, 1);
    PushThenPopWord(os[..|os| - 2], os[|os| - 2]);
  }

  /** `display` shows the value of its argument and returns the argument
      itself; `error` stops with that value. */
  lemma DisplayShowsArgument(h: Heap, gc: Gc, lits: Literals, os: seq<int>, pairRoots: seq<int>, v: JsValue)
    requires os != []
    requires Represents(h, os[|os| - 1], v) && Depth(v) <= |h.slots|
    ensures SourceBuiltin(h, gc, lits, os, pairRoots, 0) == Ok((h, os[..|os| - 1], [v], os[|os| - 1]))
    ensures SourceBuiltin(h, gc, lits, os, pairRoots, 1) == Err(ProgramError(v))
  {
    ReadRepresented(h, os[|os| - 1], v);
  }

  // ---------------------------------------------------------------------
  // Returns

  /** The loop of RESET in go_vm and compiler.js: pop RTS until a
      Callframe turns up. It starts from word 0, the False node, which is
      no Callframe. Past the bottom of RTS the source reads `undefined` for
      ever and never stops. */
  function PopToCallframe(h: Heap, rts: seq<int>, top: int): (r: Result<(seq<int>, int), Fault>)
    ensures r.Ok? ==> HasTag(h, r.value.1, CallframeTag)
    ensures r.Err? ==> r.error == NoCallframe
    ensures r.Ok? ==> |r.value.0| <= |rts| && (HasTag(h, top, CallframeTag) || |r.value.0| < |rts|)
    decreases |rts|
  {
    if HasTag(h, top, CallframeTag) then Ok((rts, top))
    else if rts == [] then Err(NoCallframe)
    else PopToCallframe(h, rts[..|rts| - 1], rts[|rts| - 1])
  }

  /** The Callframe RESET finds is the topmost one: above it on RTS lie
      only other nodes (Blockframes), and RTS keeps what lay below it. */
  lemma {:induction false} PopToCallframeTopmost(h: Heap, rts: seq<int>, top: int)
    requires !HasTag(h, top, CallframeTag)
    requires PopToCallframe(h, rts, top).Ok?
    ensures var (rest, c) := PopToCallframe(h, rts, top).value;
            exists above :: rts == rest + [c] + above && forall k :: 0 <= k < |above| ==> !HasTag(h, above[k], CallframeTag)
    decreases |rts|
  {
    var (rest, c) := PopToCallframe(h, rts, top).value;
    var init, last := rts[..|rts| - 1], rts[|rts| - 1];
    assert rts == init + [last];
    if HasTag(h, last, CallframeTag) {
      assert rts == rest + [c] + [];
    } else {
      PopToCallframeTopmost(h, init, last);
      var above :| init == rest + [c] + above && forall k :: 0 <= k < |above| ==> !HasTag(h, above[k], CallframeTag);
      assert rts == rest + [c] + (above + [last]);
    }
  }

  /** How a run bounded by fuel ends: at DONE, with a fault, or with the
      fuel spent while the machine could still go on. */
  datatype Outcome<M> =
    | Halted(final: M)
    | Failed(fault: Fault)
    | OutOfFuel(last: M)
}
