/** What compiler.js's machine does with scopes, calls, returns and its
    builtins. Most lemmas hold while the free list has room, so that no
    allocation runs a collection. */
module EarlyMachineFacts {
  import opened Wrappers
  import opened Heap
  import opened Collector
  import opened Allocator
  import opened Faults
  import opened JsValues
  import opened Nodes
  import opened Values
  import opened Positions
  import opened Code
  import opened MachineCore
  import opened Operators
  import opened EarlyMachine

  // ---------------------------------------------------------------------
  // Scopes

  /** With two slots on the free list, the frame part of ENTER_SCOPE gives
      E one more frame after the old ones, fills every variable of the new
      frame with Unassigned, and keeps every node there was. */
  lemma OpenFrameAddsUnassignedFrame(m: Machine, num: nat, xs: seq<int>, m': Machine)
    requires WellFormed(m.heap) && IsFreeList(m.heap, m.heap.free, xs) && |xs| >= 2
    requires HasTag(m.heap, m.e, EnvironmentTag) && SizeOf(m.heap, m.e) >= 1
    requires OpenFrame(m, num) == Ok(m')
    ensures |Children(m'.heap, m'.e)| == |Children(m.heap, m.e)| + 1
    ensures Children(m'.heap, m'.e)[..|Children(m.heap, m.e)|] == Children(m.heap, m.e)
    ensures forall i :: 0 <= i < num ==> GetValue(m'.heap, m'.e, Pos(|Children(m.heap, m.e)|, i)) == m.lits.unassignedNode
    ensures NodesKept(m.heap, m'.heap)
  {
    var gc := GcOf(m);
    var (h2, f) := AllocateFrame(m.heap, gc, Roots(m), num).value;
    var pinned := if h2.free == EndOfFreeList then [f] else [];
    var (h3, e) := ExtendEnv(h2, gc, Roots(m), pinned, f, m.e).value;
    FrameThenExtend(m.heap, gc, Roots(m), pinned, m.e, num, xs, h2, f, h3, e);
    FillNewFrame(m.heap, h3, f, e, Children(m.heap, m.e), num, m.lits.unassignedNode);
    assert (Children(m.heap, m.e) + [f])[..|Children(m.heap, m.e)|] == Children(m.heap, m.e);
  }

  /** With three slots on the free list, ENTER_SCOPE adds a frame of
      Unassigned variables, so that reading any of them faults, and
      EXIT_SCOPE then gives back the old E and RTS. */
  lemma EnterScopeThenExit(m: Machine, num: nat, xs: seq<int>)
    requires WellFormed(m.heap) && IsFreeList(m.heap, m.heap.free, xs) && |xs| >= 3
    requires HasTag(m.heap, m.e, EnvironmentTag) && SizeOf(m.heap, m.e) >= 1
    requires ExecEnterScope(m, num).Ok?
    ensures var m' := ExecEnterScope(m, num).value;
            var k := |Children(m.heap, m.e)|;
            && |Children(m'.heap, m'.e)| == k + 1
            && Children(m'.heap, m'.e)[..k] == Children(m.heap, m.e)
            && (HasTag(m'.heap, m.lits.unassignedNode, UnassignedTag) ==>
                  forall i :: 0 <= i < num ==> ExecLd(m', Pos(k, i)) == Err(UnassignedAccess))
            && ExecExitScope(m') == m.(heap := m'.heap)
  {
    var gc := GcOf(m);
    AllocateWithFromList(m.heap, gc, Roots(m) + Pinned(gc, [m.e]), BlockframeTag, 2, [m.e], xs);
    var (h1, b) := AllocateBlockframe(m.heap, gc, Roots(m), m.e).value;
    assert Child(h1, b, 0) == m.e by {
      assert Children(h1, b) == [m.e];
    }
    var m1 := m.(heap := h1, rts := m.rts + [b]);
    assert h1.slots[m.e] == m.heap.slots[m.e];
    var m' := OpenFrame(m1, num).value;
    OpenFrameAddsUnassignedFrame(m1, num, xs[1..], m');
    assert m'.heap.slots[b] == h1.slots[b];
    assert (m.rts + [b])[..|m.rts|] == m.rts;
  }

  // ---------------------------------------------------------------------
  // Calls and returns

  /** With three slots on the free list, CALL of a closure pushes a
      Callframe holding the caller's E and the return address before
      anything else, pops the arguments and the callee, and jumps to the
      closure's entry. */
  lemma CallSavesCallerEnv(m: Machine, arity: nat, xs: seq<int>, m': Machine)
    requires WellFormed(m.heap) && IsFreeList(m.heap, m.heap.free, xs) && |xs| >= 3
    requires !HasTag(m.heap, Peek(m.os, arity), BuiltinTag)
    requires ExecCall(m, arity, false) == Ok(m')
    ensures m'.rts == m.rts + [xs[0]]
    ensures HasTag(m'.heap, xs[0], CallframeTag) && Child(m'.heap, xs[0], 0) == m.e
    ensures Pc(m'.heap, xs[0]) == m.pc % TwoByteRange
    ensures m'.pc == Pc(m.heap, Peek(m.os, arity))
    ensures arity < |m.os| ==> m'.os == m.os[..|m.os| - arity - 1]
  {
    assert && m'.rts == m.rts + [xs[0]]
           && HasTag(m'.heap, xs[0], CallframeTag) && Child(m'.heap, xs[0], 0) == m.e
           && Pc(m'.heap, xs[0]) == m.pc % TwoByteRange by {
      var m1 := PushCallframe(m).value;
      var (h2, os1, f) := MoveArguments(m1.heap, GcOf(m1), Roots(m1), m1.os, arity).value;
      CallParts(m, arity, xs, m1, h2, os1, f, m');
    }
  }

  /** `CallSavesCallerEnv` step by step: the Callframe, the frame, then the
      callee's environment, each from the free list. */
  lemma CallParts(m: Machine, arity: nat, xs: seq<int>, m1: Machine, h2: Heap, os1: seq<int>, f: int, m': Machine)
    requires WellFormed(m.heap) && IsFreeList(m.heap, m.heap.free, xs) && |xs| >= 3
    requires PushCallframe(m) == Ok(m1)
    requires MoveArguments(m1.heap, GcOf(m1), Roots(m1), m1.os, arity) == Ok((h2, os1, f))
    requires EnterCallee(m1.(heap := h2, os := PopWord(os1).0), Child(h2, Peek(m.os, arity), 0), f, Pc(m.heap, Peek(m.os, arity))) == Ok(m')
    ensures m'.rts == m.rts + [xs[0]]
    ensures HasTag(m'.heap, xs[0], CallframeTag) && Child(m'.heap, xs[0], 0) == m.e
    ensures Pc(m'.heap, xs[0]) == m.pc % TwoByteRange
  {
    var (hc, c) := AllocateCallframe(m.heap, GcOf(m), Roots(m), m.e, m.pc).value;
    var m2 := m1.(heap := h2, os := PopWord(os1).0);
    var env := Child(h2, Peek(m.os, arity), 0);
    var pinned := if h2.free == EndOfFreeList then [f] else [];
    var (he, e) := ExtendEnv(h2, GcOf(m2), Roots(m2), pinned, f, env).value;
    CallframeFirstKept(m.heap, GcOf(m), Roots(m), m.e, m.pc, xs, hc, c, Roots(m1), m1.os, arity, h2, os1, f,
                       Roots(m2), pinned, env, he, e);
  }

  /** So RESET right after such a CALL returns to the instruction after the
      CALL in the caller's environment, with RTS as it was before. */
  lemma CallThenResetRestoresCaller(m: Machine, arity: nat, xs: seq<int>, m': Machine)
    requires WellFormed(m.heap) && IsFreeList(m.heap, m.heap.free, xs) && |xs| >= 3
    requires !HasTag(m.heap, Peek(m.os, arity), BuiltinTag)
    requires ExecCall(m, arity, false) == Ok(m')
    requires !HasTag(m'.heap, 0, CallframeTag)
    ensures ExecReset(m') == Ok(m'.(rts := m.rts, e := m.e, pc := m.pc % TwoByteRange))
  {
    CallSavesCallerEnv(m, arity, xs, m');
    assert m'.rts[..|m'.rts| - 1] == m.rts;
    assert PopToCallframe(m'.heap, m'.rts, 0) == PopToCallframe(m'.heap, m.rts, xs[0]);
  }

  /** TAIL_CALL pushes nothing: RTS is left as it was. */
  lemma TailCallKeepsReturnStack(m: Machine, arity: nat, m': Machine)
    requires !HasTag(m.heap, Peek(m.os, arity), BuiltinTag)
    requires ExecCall(m, arity, true) == Ok(m')
    ensures m'.rts == m.rts && m'.pc == Pc(m.heap, Peek(m.os, arity))
  {
  }

  /** RESET pops RTS down to its topmost Callframe and resumes there. */
  lemma ResetReturnsToTopmostCallframe(m: Machine)
    requires !HasTag(m.heap, 0, CallframeTag)
    requires ExecReset(m).Ok?
    ensures var m' := ExecReset(m).value;
            exists c, above ::
              && m.rts == m'.rts + [c] + above
              && HasTag(m.heap, c, CallframeTag)
              && (forall k :: 0 <= k < |above| ==> !HasTag(m.heap, above[k], CallframeTag))
              && m'.e == Child(m.heap, c, 0) && m'.pc == Pc(m.heap, c)
  {
    var (rest, c) := PopToCallframe(m.heap, m.rts, 0).value;
    PopToCallframeTopmost(m.heap, m.rts, 0);
    var above :| m.rts == rest + [c] + above && forall k :: 0 <= k < |above| ==> !HasTag(m.heap, above[k], CallframeTag);
  }

  /** An extension pins its frame only when it finds the free list empty;
      that is the same as always pinning it, because only then does the
      allocation collect. */
  lemma ExtendAtPinsFrame(m: Machine, h: Heap, frame: int, env: int)
    ensures ExtendAt(m, h, frame, env) == ExtendEnv(h, GcOf(m), Roots(m), [frame], frame, env)
  {
    FrameRootOnlyMattersForCollection(h, GcOf(m), Roots(m), frame, env);
  }

  // ---------------------------------------------------------------------
  // Builtins

  /** CALL of `println` with one argument shows the argument's value and
      leaves the argument where the callee was. */
  lemma CallPrintln(m: Machine, v: JsValue)
    requires |m.os| >= 2 && HasTag(m.heap, m.os[|m.os| - 2], BuiltinTag) && Byte1(m.heap, m.os[|m.os| - 2]) == 0
    requires Represents(m.heap, m.os[|m.os| - 1], v) && Depth(v) <= |m.heap.slots|
    ensures ExecCall(m, 1, false) == Ok(m.(os := m.os[..|m.os| - 2] + [m.os[|m.os| - 1]], shown := m.shown + [v]))
  {
    DisplayShowsArgument(m.heap, GcOf(m), m.lits, m.os, Roots(m.(os := PopWord(PopWord(m.os).0).0)), v);
    PopBelowArguments(m.os, 1);
  }

  /** With room on the free list, LDC pushes a word that represents the
      literal, keeps every node there was, and changes nothing but OS and
      the heap. */
  lemma LdcPushesValue(m: Machine, v: JsValue, xs: seq<int>) returns (m': Machine)
    requires WellFormed(m.heap) && ValidLiterals(m.heap, m.lits) && IsFreeList(m.heap, m.heap.free, xs)
    requires Storable(v) && NodesNeeded(v) <= |xs|
    ensures ExecLdc(m, v) == Ok(m')
    ensures |m'.os| == |m.os| + 1 && m' == m.(heap := m'.heap, os := m.os + [m'.os[|m.os|]])
    ensures Converted(m.heap, m'.heap, m'.os[|m.os|], v, xs[NodesNeeded(v)..])
    ensures ValidLiterals(m'.heap, m'.lits)
    ensures Depth(v) <= |m.heap.slots| ==> ReadValue(m'.heap, m'.os[|m.os|]) == Ok(v)
  {
    ToAddressRepresents(m.heap, GcOf(m), Roots(m), m.lits, v, xs);
    var (h, a) := Conversion(m.heap, GcOf(m), Roots(m), m.lits, v).value;
    ValidLiteralsKept(m.heap, h, m.lits);
    m' := m.(heap := h, os := m.os + [a]);
    assert ExecLdc(m, v) == Ok(m');
    assert h.slots.Keys == m.heap.slots.Keys;
    if Depth(v) <= |m.heap.slots| {
      ReadRepresented(h, a, v);
    }
  }

  /** With room on the free list, UNOP on a word that represents `x`
      replaces it with a word that represents the operator's result;
      nothing but OS and the heap changes. */
  lemma UnopPushesResult(m: Machine, sym: string, x: JsValue, z: JsValue, s: seq<int>, n: int, zs: seq<int>)
      returns (m': Machine)
    requires WellFormed(m.heap) && ValidLiterals(m.heap, m.lits) && IsFreeList(m.heap, m.heap.free, zs)
    requires Storable(z) && NodesNeeded(z) <= |zs|
    requires Represents(m.heap, n, x) && Depth(x) <= |m.heap.slots| && Depth(z) <= |m.heap.slots|
    requires SourceUnOp(sym).Ok? && ApplyUnOp(SourceUnOp(sym).value, x) == Ok(z)
    requires m.os == s + [n]
    ensures ExecUnop(m, sym) == Ok(m')
    ensures |m'.os| == |s| + 1 && m' == m.(heap := m'.heap, os := s + [m'.os[|s|]])
    ensures ReadValue(m'.heap, m'.os[|s|]) == Ok(z)
  {
    var m1 := m.(os := s);
    ConversionReadsBack(m.heap, GcOf(m1), Roots(m1), m.lits, z, zs);
    UnopRepresented(m.heap, GcOf(m1), Roots(m1), m.lits, SourceUnOp(sym), x, z, n);
    var (h, a) := Conversion(m.heap, GcOf(m1), Roots(m1), m.lits, z).value;
    assert PopWord(m.os) == (s, n);
    m' := m1.(heap := h, os := s + [a]);
  }

  /** With room on the free list, BINOP on two words that represent `x`
      and `y` replaces them with a word that represents the operator's
      result; nothing but OS and the heap changes. */
  lemma BinopPushesResult(m: Machine, sym: string, x: JsValue, y: JsValue, z: JsValue, s: seq<int>, n1: int, n2: int, zs: seq<int>)
      returns (m': Machine)
    requires WellFormed(m.heap) && ValidLiterals(m.heap, m.lits) && IsFreeList(m.heap, m.heap.free, zs)
    requires Storable(z) && NodesNeeded(z) <= |zs|
    requires Represents(m.heap, n1, x) && Represents(m.heap, n2, y)
    requires Depth(x) <= |m.heap.slots| && Depth(y) <= |m.heap.slots| && Depth(z) <= |m.heap.slots|
    requires EarlyBinOp(sym).Ok? && ApplyBinOp(EarlyBinOp(sym).value, x, y) == Ok(z)
    requires m.os == s + [n1] + [n2]
    ensures ExecBinop(m, sym) == Ok(m')
    ensures |m'.os| == |s| + 1 && m' == m.(heap := m'.heap, os := s + [m'.os[|s|]])
    ensures ReadValue(m'.heap, m'.os[|s|]) == Ok(z)
  {
    var m1 := m.(os := s);
    ConversionReadsBack(m.heap, GcOf(m1), Roots(m1), m.lits, z, zs);
    ApplyRepresented(m.heap, GcOf(m1), Roots(m1), m.lits, EarlyBinOp(sym), x, y, z, n1, n2);
    var (h, a) := Conversion(m.heap, GcOf(m1), Roots(m1), m.lits, z).value;
    assert PopWord(m.os) == (s + [n1], n2);
    assert PopWord(s + [n1]) == (s, n1);
    m' := m1.(heap := h, os := s + [a]);
  }
}
