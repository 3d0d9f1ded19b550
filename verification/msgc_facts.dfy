/** What mark_sweep_gc's machine does with scopes, calls, returns and its
    pair builtins. Most lemmas hold while the free list has room, so that
    no allocation runs a collection. */
module MarkSweepMachineFacts {
  import opened Wrappers
  import opened Heap
  import opened Collector
  import opened Allocator
  import opened Faults
  import opened JsValues
  import opened Nodes
  import opened Values
  import opened Positions
  import opened Code
  import opened MachineCore
  import opened MarkSweepMachine
  import opened Operators
  import CompileEnv
  import SourceAst
  import MarkSweepCompiler

  // ---------------------------------------------------------------------
  // Scopes

  /** With two slots on the free list, the frame part of ENTER_SCOPE gives
      E one more frame after the old ones, fills every variable of the new
      frame with Unassigned, and keeps every node there was. */
  lemma OpenFrameAddsUnassignedFrame(m: Machine, num: nat, xs: seq<int>, m': Machine)
    requires WellFormed(m.heap) && IsFreeList(m.heap, m.heap.free, xs) && |xs| >= 2
    requires HasTag(m.heap, m.e, EnvironmentTag) && SizeOf(m.heap, m.e) >= 1
    requires OpenFrame(m, num) == Ok(m')
    ensures |Children(m'.heap, m'.e)| == |Children(m.heap, m.e)| + 1
    ensures Children(m'.heap, m'.e)[..|Children(m.heap, m.e)|] == Children(m.heap, m.e)
    ensures forall i :: 0 <= i < num ==> GetValue(m'.heap, m'.e, Pos(|Children(m.heap, m.e)|, i)) == m.lits.unassignedNode
    ensures NodesKept(m.heap, m'.heap)
  {
    var gc := GcOf(m);
    var (h2, f) := AllocateFrame(m.heap, gc, Roots(m), num).value;
    var (h3, e) := Extend(h2, gc, Roots(m), f, m.e).value;
    FrameThenExtend(m.heap, gc, Roots(m), [f, m.e], m.e, num, xs, h2, f, h3, e);
    FillNewFrame(m.heap, h3, f, e, Children(m.heap, m.e), num, m.lits.unassignedNode);
    assert (Children(m.heap, m.e) + [f])[..|Children(m.heap, m.e)|] == Children(m.heap, m.e);
  }

  /** With three slots on the free list, ENTER_SCOPE adds a frame of
      Unassigned variables, so that reading any of them faults, and
      EXIT_SCOPE then gives back the old E and RTS. */
  lemma EnterScopeThenExit(m: Machine, num: nat, xs: seq<int>)
    requires WellFormed(m.heap) && IsFreeList(m.heap, m.heap.free, xs) && |xs| >= 3
    requires HasTag(m.heap, m.e, EnvironmentTag) && SizeOf(m.heap, m.e) >= 1
    requires ExecEnterScope(m, num).Ok?
    ensures var m' := ExecEnterScope(m, num).value;
            var k := |Children(m.heap, m.e)|;
            && |Children(m'.heap, m'.e)| == k + 1
            && Children(m'.heap, m'.e)[..k] == Children(m.heap, m.e)
            && (HasTag(m'.heap, m.lits.unassignedNode, UnassignedTag) ==>
                  forall i :: 0 <= i < num ==> ExecLd(m', Pos(k, i)) == Err(UnassignedAccess))
            && ExecExitScope(m') == m.(heap := m'.heap)
  {
    var gc := GcOf(m);
    AllocateWithFromList(m.heap, gc, Roots(m) + Pinned(gc, [m.e]), BlockframeTag, 2, [m.e], xs);
    var (h1, b) := AllocateBlockframe(m.heap, gc, Roots(m), m.e).value;
    assert Child(h1, b, 0) == m.e by {
      assert Children(h1, b) == [m.e];
    }
    var m1 := m.(heap := h1, rts := m.rts + [b]);
    assert h1.slots[m.e] == m.heap.slots[m.e];
    var m' := OpenFrame(m1, num).value;
    OpenFrameAddsUnassignedFrame(m1, num, xs[1..], m');
    assert m'.heap.slots[b] == h1.slots[b];
    assert (m.rts + [b])[..|m.rts|] == m.rts;
  }

  // ---------------------------------------------------------------------
  // Calls and returns

  /** With three slots on the free list, CALL of a closure pushes a
      Callframe holding the caller's E and the return address, pops the
      arguments and the callee, and jumps to the closure's entry. */
  lemma CallSavesCallerEnv(m: Machine, arity: nat, xs: seq<int>, m': Machine)
    requires WellFormed(m.heap) && IsFreeList(m.heap, m.heap.free, xs) && |xs| >= 3
    requires !HasTag(m.heap, Peek(m.os, arity), BuiltinTag)
    requires ExecCall(m, arity, false) == Ok(m')
    ensures m'.rts == m.rts + [xs[1]]
    ensures HasTag(m'.heap, xs[1], CallframeTag) && Child(m'.heap, xs[1], 0) == m.e
    ensures Pc(m'.heap, xs[1]) == m.pc % TwoByteRange
    ensures m'.pc == Pc(m.heap, Peek(m.os, arity))
    ensures arity < |m.os| ==> m'.os == m.os[..|m.os| - arity - 1]
  {
    assert && m'.rts == m.rts + [xs[1]]
           && HasTag(m'.heap, xs[1], CallframeTag) && Child(m'.heap, xs[1], 0) == m.e
           && Pc(m'.heap, xs[1]) == m.pc % TwoByteRange by {
      var (h2, os1, f) := MoveArguments(m.heap, GcOf(m), Roots(m), m.os, arity).value;
      var m2 := PushCallframe(m.(heap := h2, os := os1)).value;
      CallParts(m, arity, xs, h2, os1, f, m2, m');
    }
  }

  /** `CallSavesCallerEnv` step by step: the frame, the Callframe, then the
      callee's environment, each from the free list. */
  lemma CallParts(m: Machine, arity: nat, xs: seq<int>, h2: Heap, os1: seq<int>, f: int, m2: Machine, m': Machine)
    requires WellFormed(m.heap) && IsFreeList(m.heap, m.heap.free, xs) && |xs| >= 3
    requires MoveArguments(m.heap, GcOf(m), Roots(m), m.os, arity) == Ok((h2, os1, f))
    requires PushCallframe(m.(heap := h2, os := os1)) == Ok(m2)
    requires EnterCallee(m2, Peek(m.os, arity), f, Pc(m.heap, Peek(m.os, arity))) == Ok(m')
    ensures m'.rts == m.rts + [xs[1]]
    ensures HasTag(m'.heap, xs[1], CallframeTag) && Child(m'.heap, xs[1], 0) == m.e
    ensures Pc(m'.heap, xs[1]) == m.pc % TwoByteRange
  {
    var m1 := m.(heap := h2, os := os1);
    var (hc, c) := AllocateCallframe(h2, GcOf(m1), Roots(m1), m.e, m.pc).value;
    var m3 := m2.(os := PopWord(m2.os).0);
    var env := Child(m2.heap, Peek(m.os, arity), 0);
    var (he, e) := ExtendEnv(m2.heap, GcOf(m3), Roots(m3), [f, env], f, env).value;
    CallHeapParts(m, arity, xs, h2, os1, f, hc, c, Roots(m3), env, he, e);
  }

  /** The heap side of `CallParts`: the frame takes the first free slot,
      the Callframe the second, and extending the environment leaves the
      Callframe as it was. */
  lemma CallHeapParts(m: Machine, arity: nat, xs: seq<int>, h2: Heap, os1: seq<int>, f: int,
                      hc: Heap, c: int, roots: seq<int>, env: int, he: Heap, e: int)
    requires WellFormed(m.heap) && IsFreeList(m.heap, m.heap.free, xs) && |xs| >= 3
    requires MoveArguments(m.heap, GcOf(m), Roots(m), m.os, arity) == Ok((h2, os1, f))
    requires AllocateCallframe(h2, GcOf(m.(heap := h2, os := os1)), Roots(m.(heap := h2, os := os1)), m.e, m.pc) == Ok((hc, c))
    requires ExtendEnv(hc, GcOf(m), roots, [f, env], f, env) == Ok((he, e))
    ensures c == xs[1]
    ensures HasTag(he, c, CallframeTag) && Child(he, c, 0) == m.e && Pc(he, c) == m.pc % TwoByteRange
  {
    var m1 := m.(heap := h2, os := os1);
    MoveArgumentsFromList(m.heap, GcOf(m), Roots(m), m.os, arity, xs, h2, os1, f);
    CallframeKept(h2, GcOf(m1), Roots(m1), m.e, m.pc, xs[1..], hc, c, roots, [f, env], f, env, he, e);
  }

  /** So RESET right after such a CALL returns to the instruction after the
      CALL in the caller's environment, with RTS as it was before. */
  lemma CallThenResetRestoresCaller(m: Machine, arity: nat, xs: seq<int>, m': Machine)
    requires WellFormed(m.heap) && IsFreeList(m.heap, m.heap.free, xs) && |xs| >= 3
    requires !HasTag(m.heap, Peek(m.os, arity), BuiltinTag)
    requires ExecCall(m, arity, false) == Ok(m')
    ensures ExecReset(m') == m'.(rts := m.rts, e := m.e, pc := m.pc % TwoByteRange)
  {
    CallSavesCallerEnv(m, arity, xs, m');
    PushThenPopWord(m.rts, xs[1]);
  }

  /** TAIL_CALL pushes nothing: RTS is left as it was. */
  lemma TailCallKeepsReturnStack(m: Machine, arity: nat, m': Machine)
    requires !HasTag(m.heap, Peek(m.os, arity), BuiltinTag)
    requires ExecCall(m, arity, true) == Ok(m')
    ensures m'.rts == m.rts && m'.pc == Pc(m.heap, Peek(m.os, arity))
  {
  }

  /** While CALL allocates its Callframe, the new frame holding the
      arguments is in no register and is not pinned: when every register
      holds a node, the frame is not among the roots a collection during
      that allocation would start from. */
  lemma CallLeavesFrameUnrooted(m: Machine, arity: nat, xs: seq<int>, h2: Heap, os1: seq<int>, f: int)
    requires WellFormed(m.heap) && IsFreeList(m.heap, m.heap.free, xs) && xs != []
    requires arity <= |m.os|
    requires forall x :: x in Roots(m) ==> IsNode(m.heap, x)
    requires MoveArguments(m.heap, GcOf(m), Roots(m), m.os, arity) == Ok((h2, os1, f))
    ensures f !in Roots(m.(heap := h2, os := os1)) + Pinned(GcOf(m), [m.e])
  {
    MoveArgumentsFromList(m.heap, GcOf(m), Roots(m), m.os, arity, xs, h2, os1, f);
    assert m.e in Roots(m);
    forall x | x in os1
      ensures x in Roots(m)
    {
      assert x in m.os;
    }
    forall x | x in m.rts
      ensures x in Roots(m)
    {
    }
  }

  // ---------------------------------------------------------------------
  // RESET

  /** `n` passes of `run`'s loop, stopping at the first fault. */
  function Cycles(m: Machine, n: nat): (r: Result<Machine, Fault>)
    ensures r.Ok? ==> Keeps(m, r.value)
    decreases n
  {
    if n == 0 then Ok(m)
    else
      var m1 :- Cycle(m);
      Cycles(m1, n - 1)
  }

  /** RESET pops one RTS entry per run and runs again until it has popped
      a Callframe. So repeated, it ends where go_vm's single RESET ends:
      at go_vm's topmost Callframe, with RTS cut below it. */
  lemma {:induction false} ResetPopsToCallframe(m: Machine, rest: seq<int>, c: int)
    requires 0 <= m.pc < |m.code| && m.code[m.pc] == Reset && m.rts != []
    requires PopToCallframe(m.heap, m.rts[..|m.rts| - 1], m.rts[|m.rts| - 1]) == Ok((rest, c))
    ensures |rest| < |m.rts|
    ensures Cycles(m, |m.rts| - |rest|) == Ok(m.(rts := rest, e := Child(m.heap, c, 0), pc := Pc(m.heap, c)))
    decreases |m.rts|
  {
    var init, last := m.rts[..|m.rts| - 1], m.rts[|m.rts| - 1];
    var m1 := m.(rts := init);
    assert Cycle(m) == Ok(ExecReset(m.(pc := m.pc + 1)));
    if HasTag(m.heap, last, CallframeTag) {
      assert Cycles(m, 1) == Cycle(m);
    } else {
      assert Cycle(m) == Ok(m1);
      ResetPopsToCallframe(m1, rest, c);
      assert Cycles(m, |m.rts| - |rest|) == Cycles(m1, |m1.rts| - |rest|);
    }
  }

  // ---------------------------------------------------------------------
  // Builtins

  /** CALL of `display` with one argument shows the argument's value and
      leaves the argument where the callee was. */
  lemma CallDisplay(m: Machine, v: JsValue)
    requires |m.os| >= 2 && HasTag(m.heap, m.os[|m.os| - 2], BuiltinTag) && Byte1(m.heap, m.os[|m.os| - 2]) == 0
    requires Represents(m.heap, m.os[|m.os| - 1], v) && Depth(v) <= |m.heap.slots|
    ensures ExecCall(m, 1, false) == Ok(m.(os := m.os[..|m.os| - 2] + [m.os[|m.os| - 1]], shown := m.shown + [v]))
  {
    DisplayShowsArgument(m.heap, GcOf(m), m.lits, m.os, Roots(m.(os := PopWord(PopWord(m.os).0).0)), v);
    PopBelowArguments(m.os, 1);
  }

  /** The collector's precondition carries over from one allocation to the
      next: from a well-formed heap whose low marks are closed, an
      allocation keeps every node the roots reach and hands out a slot none
      of them occupies, and it leaves a well-formed heap, a free list and
      low marks that are still closed, which is all the next allocation
      needs. */
  lemma AllocationKeepsCollectorState(m: Machine, tag: Tag, size: int, xs: seq<int>)
    requires WellFormed(m.heap) && m.bottom % NodeSize == 0 && LowMarksClosed(m.heap, m.bottom)
    requires IsFreeList(m.heap, m.heap.free, xs)
    requires Allocate(m.heap, GcOf(m), tag, size, Roots(m)).Ok?
    ensures var (h', a) := Allocate(m.heap, GcOf(m), tag, size, Roots(m)).value;
            && KeepsReachable(m.heap, h', Roots(m))
            && !Reachable(m.heap, Roots(m), a)
            && a >= m.bottom
            && WellFormed(h') && LowMarksClosed(h', m.bottom)
            && IsFreeList(h', h'.free, FreeListAfter(m.heap, GcOf(m), Roots(m), xs))
  {
    AllocateKeepsReachable(m.heap, GcOf(m), tag, size, Roots(m), xs);
    AllocateWellFormed(m.heap, GcOf(m), tag, size, Roots(m));
    AllocateKeepsLowMarksClosed(m.heap, m.bottom, tag, size, Roots(m), xs);
  }

  // ---------------------------------------------------------------------
  // Compiled code

  /** With room on the free list, LDC of a storable value pushes a word
      that represents it, keeps every node there was and moves PC on. */
  lemma LdcPushesValue(m: Machine, v: JsValue, xs: seq<int>) returns (m': Machine)
    requires WellFormed(m.heap) && ValidLiterals(m.heap, m.lits) && IsFreeList(m.heap, m.heap.free, xs)
    requires Storable(v) && NodesNeeded(v) <= |xs|
    requires 0 <= m.pc < |m.code| && m.code[m.pc] == Ldc(v)
    ensures Cycle(m) == Ok(m')
    ensures m'.pc == m.pc + 1 && m'.e == m.e && m'.rts == m.rts && Keeps(m, m')
    ensures |m'.os| == |m.os| + 1 && m'.os[..|m.os|] == m.os
    ensures Converted(m.heap, m'.heap, m'.os[|m.os|], v, xs[NodesNeeded(v)..])
    ensures ValidLiterals(m'.heap, m'.lits) && |m'.heap.slots| == |m.heap.slots|
  {
    var m1 := m.(pc := m.pc + 1);
    ToAddressRepresents(m.heap, GcOf(m1), Roots(m1), m.lits, v, xs);
    var (h, a) := Conversion(m.heap, GcOf(m1), Roots(m1), m.lits, v).value;
    ValidLiteralsKept(m.heap, h, m.lits);
    m' := m1.(heap := h, os := m.os + [a]);
    assert Cycle(m) == Ok(m');
    assert h.slots.Keys == m.heap.slots.Keys;
    assert m'.os[..|m.os|] == m.os;
  }

  /** With room on the free list, BINOP on two words that represent `x`
      and `y` replaces them with a word that represents the operator's
      result. */
  lemma BinopPushesResult(m: Machine, sym: string, x: JsValue, y: JsValue, z: JsValue, s: seq<int>, n1: int, n2: int, zs: seq<int>)
      returns (m': Machine)
    requires WellFormed(m.heap) && ValidLiterals(m.heap, m.lits) && IsFreeList(m.heap, m.heap.free, zs)
    requires Storable(z) && NodesNeeded(z) <= |zs|
    requires Represents(m.heap, n1, x) && Represents(m.heap, n2, y)
    requires Depth(x) <= |m.heap.slots| && Depth(y) <= |m.heap.slots| && Depth(z) <= |m.heap.slots|
    requires SourceBinOp(sym).Ok? && ApplyBinOp(SourceBinOp(sym).value, x, y) == Ok(z)
    requires 0 <= m.pc < |m.code| && m.code[m.pc] == Binop(sym) && m.os == s + [n1] + [n2]
    ensures Cycle(m) == Ok(m')
    ensures m'.pc == m.pc + 1 && m'.e == m.e && m'.rts == m.rts
    ensures |m'.os| == |s| + 1 && m'.os[..|s|] == s
    ensures ReadValue(m'.heap, m'.os[|s|]) == Ok(z)
  {
    var mp := m.(pc := m.pc + 1, os := s);
    ConversionReadsBack(m.heap, GcOf(mp), Roots(mp), m.lits, z, zs);
    var (h, a) := Conversion(m.heap, GcOf(mp), Roots(mp), m.lits, z).value;
    ApplyRepresented(m.heap, GcOf(mp), Roots(mp), m.lits, SourceBinOp(sym), x, y, z, n1, n2);
    BinopCycle(m, sym, s, n1, n2, h, a);
    m' := m.(pc := m.pc + 1, os := s + [a], heap := h);
    assert m'.os[..|s|] == s;
  }

  lemma BinopCycle(m: Machine, sym: string, s: seq<int>, n1: int, n2: int, h: Heap, a: int)
    requires 0 <= m.pc < |m.code| && m.code[m.pc] == Binop(sym) && m.os == s + [n1] + [n2]
    requires var mp := m.(pc := m.pc + 1, os := s);
             ApplyBinopAt(m.heap, GcOf(mp), Roots(mp), m.lits, SourceBinOp(sym), n2, n1) == Ok((h, a))
    ensures Cycle(m) == Ok(m.(pc := m.pc + 1, os := s + [a], heap := h))
  {
    assert PopWord(m.os) == (s + [n1], n2);
    assert PopWord(s + [n1]) == (s, n1);
  }

  /** An operator applied to two literals compiles to two LDCs and a BINOP. */
  lemma CompileLiteralBinop(ce: CompileEnv.Env, sym: string, x: JsValue, y: JsValue, wc: int)
    ensures MarkSweepCompiler.Comp(SourceAst.BinaryOp(sym, SourceAst.Lit(x), SourceAst.Lit(y)), ce, wc)
            == Ok([Ldc(x), Ldc(y), Binop(sym)])
  {
    assert MarkSweepCompiler.Comp(SourceAst.Lit(x), ce, wc) == Ok([Ldc(x)]);
    assert MarkSweepCompiler.Comp(SourceAst.Lit(y), ce, wc + 1) == Ok([Ldc(y)]);
    assert [Ldc(x)] + [Ldc(y)] + [Binop(sym)] == [Ldc(x), Ldc(y), Binop(sym)];
  }

  /** The code mark_sweep_gc compiles for an operator applied to two
      literals, run from any machine with room on its free list for the
      three values, leaves the operator's result on top of the operand
      stack after three passes of `run`'s loop: `2 + 3` leaves a word that
      reads 5, `1 < 2` one that reads true. */
  lemma LiteralBinopLeavesResult(m: Machine, ce: CompileEnv.Env, sym: string, x: JsValue, y: JsValue, z: JsValue, xs: seq<int>)
    requires WellFormed(m.heap) && ValidLiterals(m.heap, m.lits) && IsFreeList(m.heap, m.heap.free, xs)
    requires Storable(x) && Storable(y) && Storable(z)
    requires NodesNeeded(x) + NodesNeeded(y) + NodesNeeded(z) <= |xs|
    requires Depth(x) <= |m.heap.slots| && Depth(y) <= |m.heap.slots| && Depth(z) <= |m.heap.slots|
    requires SourceBinOp(sym).Ok? && ApplyBinOp(SourceBinOp(sym).value, x, y) == Ok(z)
    requires 0 <= m.pc && m.pc + 3 <= |m.code|
    requires MarkSweepCompiler.Comp(SourceAst.BinaryOp(sym, SourceAst.Lit(x), SourceAst.Lit(y)), ce, m.pc)
             == Ok(m.code[m.pc..m.pc + 3])
    ensures Cycles(m, 3).Ok?
    ensures var m3 := Cycles(m, 3).value;
            && m3.pc == m.pc + 3 && m3.e == m.e && m3.rts == m.rts
            && |m3.os| == |m.os| + 1 && m3.os[..|m.os|] == m.os
            && ReadValue(m3.heap, Peek(m3.os, 0)) == Ok(z)
  {
    CompileLiteralBinop(ce, sym, x, y, m.pc);
    var m1, m2, m3 := LiteralBinopSteps(m, sym, x, y, z, xs);
    ThreeCycles(m, m1, m2, m3);
  }

  lemma ThreeCycles(m: Machine, m1: Machine, m2: Machine, m3: Machine)
    requires Cycle(m) == Ok(m1) && Cycle(m1) == Ok(m2) && Cycle(m2) == Ok(m3)
    ensures Cycles(m, 3) == Ok(m3)
  {
    assert Cycles(m2, 1) == Ok(m3);
    assert Cycles(m1, 2) == Ok(m3);
  }

  lemma LiteralBinopSteps(m: Machine, sym: string, x: JsValue, y: JsValue, z: JsValue, xs: seq<int>)
      returns (m1: Machine, m2: Machine, m3: Machine)
    requires WellFormed(m.heap) && ValidLiterals(m.heap, m.lits) && IsFreeList(m.heap, m.heap.free, xs)
    requires Storable(x) && Storable(y) && Storable(z)
    requires NodesNeeded(x) + NodesNeeded(y) + NodesNeeded(z) <= |xs|
    requires Depth(x) <= |m.heap.slots| && Depth(y) <= |m.heap.slots| && Depth(z) <= |m.heap.slots|
    requires SourceBinOp(sym).Ok? && ApplyBinOp(SourceBinOp(sym).value, x, y) == Ok(z)
    requires 0 <= m.pc && m.pc + 3 <= |m.code| && m.code[m.pc..m.pc + 3] == [Ldc(x), Ldc(y), Binop(sym)]
    ensures Cycle(m) == Ok(m1) && Cycle(m1) == Ok(m2) && Cycle(m2) == Ok(m3)
    ensures m3.pc == m.pc + 3 && m3.e == m.e && m3.rts == m.rts
    ensures |m3.os| == |m.os| + 1 && m3.os[..|m.os|] == m.os
    ensures ReadValue(m3.heap, Peek(m3.os, 0)) == Ok(z)
  {
    var n1, n2;
    assert m.code[m.pc..m.pc + 2] == m.code[m.pc..m.pc + 3][..2];
    assert m.code[m.pc + 2] == m.code[m.pc..m.pc + 3][2];
    m1, m2, n1, n2 := TwoLdcs(m, x, y, xs);
    m3 := BinopPushesResult(m2, sym, x, y, z, m.os, n1, n2, xs[NodesNeeded(x)..][NodesNeeded(y)..]);
  }

  /** Two LDCs in a row push words that represent their values. */
  lemma TwoLdcs(m: Machine, x: JsValue, y: JsValue, xs: seq<int>) returns (m1: Machine, m2: Machine, n1: int, n2: int)
    requires WellFormed(m.heap) && ValidLiterals(m.heap, m.lits) && IsFreeList(m.heap, m.heap.free, xs)
    requires Storable(x) && Storable(y) && NodesNeeded(x) + NodesNeeded(y) <= |xs|
    requires 0 <= m.pc && m.pc + 2 < |m.code| && m.code[m.pc..m.pc + 2] == [Ldc(x), Ldc(y)]
    ensures Cycle(m) == Ok(m1) && Cycle(m1) == Ok(m2)
    ensures m2.pc == m.pc + 2 && m2.e == m.e && m2.rts == m.rts && Keeps(m, m2) && m2.os == m.os + [n1] + [n2]
    ensures WellFormed(m2.heap) && ValidLiterals(m2.heap, m2.lits) && |m2.heap.slots| == |m.heap.slots|
    ensures IsFreeList(m2.heap, m2.heap.free, xs[NodesNeeded(x)..][NodesNeeded(y)..])
    ensures Represents(m2.heap, n1, x) && Represents(m2.heap, n2, y)
  {
    assert m.code[m.pc] == [Ldc(x), Ldc(y)][0];
    assert m.code[m.pc + 1] == [Ldc(x), Ldc(y)][1];
    m1 := LdcPushesValue(m, x, xs);
    n1 := m1.os[|m.os|];
    assert m1.os == m.os + [n1];
    m2 := LdcKeepsEarlier(m1, y, xs[NodesNeeded(x)..], n1, x);
    n2 := m2.os[|m1.os|];
  }

  /** An LDC keeps what an earlier word represents. */
  lemma LdcKeepsEarlier(m: Machine, v: JsValue, xs: seq<int>, w: int, u: JsValue) returns (m': Machine)
    requires WellFormed(m.heap) && ValidLiterals(m.heap, m.lits) && IsFreeList(m.heap, m.heap.free, xs)
    requires Storable(v) && NodesNeeded(v) <= |xs|
    requires 0 <= m.pc < |m.code| && m.code[m.pc] == Ldc(v)
    requires Represents(m.heap, w, u)
    ensures Cycle(m) == Ok(m')
    ensures m'.pc == m.pc + 1 && m'.e == m.e && m'.rts == m.rts && Keeps(m, m')
    ensures |m'.os| == |m.os| + 1 && m'.os == m.os + [m'.os[|m.os|]]
    ensures WellFormed(m'.heap) && ValidLiterals(m'.heap, m'.lits) && |m'.heap.slots| == |m.heap.slots|
    ensures IsFreeList(m'.heap, m'.heap.free, xs[NodesNeeded(v)..])
    ensures Represents(m'.heap, m'.os[|m.os|], v) && Represents(m'.heap, w, u)
  {
    m' := LdcPushesValue(m, v, xs);
    RepresentsKept(m.heap, m'.heap, w, u);
  }

  /** With room on the free list, UNOP on a word that represents `x`
      replaces it with a word that represents the operator's result;
      nothing but OS and the heap changes. */
  lemma UnopPushesResult(m: Machine, sym: string, x: JsValue, z: JsValue, s: seq<int>, n: int, zs: seq<int>)
      returns (m': Machine)
    requires WellFormed(m.heap) && ValidLiterals(m.heap, m.lits) && IsFreeList(m.heap, m.heap.free, zs)
    requires Storable(z) && NodesNeeded(z) <= |zs|
    requires Represents(m.heap, n, x) && Depth(x) <= |m.heap.slots| && Depth(z) <= |m.heap.slots|
    requires SourceUnOp(sym).Ok? && ApplyUnOp(SourceUnOp(sym).value, x) == Ok(z)
    requires m.os == s + [n]
    ensures ExecUnop(m, sym) == Ok(m')
    ensures |m'.os| == |s| + 1 && m' == m.(heap := m'.heap, os := s + [m'.os[|s|]])
    ensures ReadValue(m'.heap, m'.os[|s|]) == Ok(z)
  {
    var m1 := m.(os := s);
    ConversionReadsBack(m.heap, GcOf(m1), Roots(m1), m.lits, z, zs);
    UnopRepresented(m.heap, GcOf(m1), Roots(m1), m.lits, SourceUnOp(sym), x, z, n);
    var (h, a) := Conversion(m.heap, GcOf(m1), Roots(m1), m.lits, z).value;
    assert PopWord(m.os) == (s, n);
    m' := m1.(heap := h, os := s + [a]);
  }
}
