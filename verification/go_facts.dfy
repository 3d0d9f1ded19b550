/** What go_vm's machine does, instruction by instruction: scopes, calls
    and returns, goroutines, channels, mutexes, sleeping, the scheduler's
    quantum, and the roots the collector starts from. */
module GoMachineFacts {
  import opened Wrappers
  import opened Heap
  import opened Collector
  import opened Allocator
  import opened Faults
  import opened JsValues
  import opened Nodes
  import opened Values
  import opened Positions
  import opened Code
  import opened MachineCore
  import opened Operators
  import opened GoMachine

  // ---------------------------------------------------------------------
  // Scopes

  /** With two slots on the free list (no collection), the frame part of
      ENTER_SCOPE gives E one more frame after the old ones, fills every
      variable of the new frame with Unassigned, and keeps every node
      there was. */
  lemma OpenFrameAddsUnassignedFrame(m: Machine, num: nat, xs: seq<int>, m': Machine)
    requires WellFormed(m.heap) && IsFreeList(m.heap, m.heap.free, xs) && |xs| >= 2
    requires HasTag(m.heap, m.e, EnvironmentTag) && SizeOf(m.heap, m.e) >= 1
    requires OpenFrame(m, num) == Ok(m')
    ensures |Children(m'.heap, m'.e)| == |Children(m.heap, m.e)| + 1
    ensures Children(m'.heap, m'.e)[..|Children(m.heap, m.e)|] == Children(m.heap, m.e)
    ensures forall i :: 0 <= i < num ==> GetValue(m'.heap, m'.e, Pos(|Children(m.heap, m.e)|, i)) == m.lits.unassignedNode
    ensures NodesKept(m.heap, m'.heap)
  {
    var gc := GcOf(m);
    var (h2, f) := AllocateFrame(m.heap, gc, Roots(m), num).value;
    var (h3, e) := Extend(h2, gc, Roots(m), f, m.e).value;
    FrameThenExtend(m.heap, gc, Roots(m), [f, m.e], m.e, num, xs, h2, f, h3, e);
    FillNewFrame(m.heap, h3, f, e, Children(m.heap, m.e), num, m.lits.unassignedNode);
    assert (Children(m.heap, m.e) + [f])[..|Children(m.heap, m.e)|] == Children(m.heap, m.e);
  }

  /** With three slots on the free list, ENTER_SCOPE adds a frame of
      Unassigned variables, so that reading any of them faults, and
      EXIT_SCOPE then gives back the old E and RTS. */
  lemma EnterScopeThenExit(m: Machine, num: nat, xs: seq<int>)
    requires WellFormed(m.heap) && IsFreeList(m.heap, m.heap.free, xs) && |xs| >= 3
    requires HasTag(m.heap, m.e, EnvironmentTag) && SizeOf(m.heap, m.e) >= 1
    requires ExecEnterScope(m, num).Ok?
    ensures var m' := ExecEnterScope(m, num).value;
            var k := |Children(m.heap, m.e)|;
            && |Children(m'.heap, m'.e)| == k + 1
            && Children(m'.heap, m'.e)[..k] == Children(m.heap, m.e)
            && (HasTag(m'.heap, m.lits.unassignedNode, UnassignedTag) ==>
                  forall i :: 0 <= i < num ==> ExecLd(m', Pos(k, i)) == Err(UnassignedAccess))
            && ExecExitScope(m') == m.(heap := m'.heap)
  {
    var gc := GcOf(m);
    AllocateWithFromList(m.heap, gc, Roots(m) + Pinned(gc, [m.e]), BlockframeTag, 2, [m.e], xs);
    var (h1, b) := AllocateBlockframe(m.heap, gc, Roots(m), m.e).value;
    assert Child(h1, b, 0) == m.e by {
      assert Children(h1, b) == [m.e];
    }
    var m1 := m.(heap := h1, rts := m.rts + [b]);
    assert h1.slots[m.e] == m.heap.slots[m.e];
    var m' := OpenFrame(m1, num).value;
    OpenFrameAddsUnassignedFrame(m1, num, xs[1..], m');
    assert m'.heap.slots[b] == h1.slots[b];
    assert (m.rts + [b])[..|m.rts|] == m.rts;
  }

  // ---------------------------------------------------------------------
  // Calls and returns

  /** CALL of a closure pushes a Callframe that holds the return address
      and the environment the call has just set up, the callee's own. */
  lemma CallFramesCalleeEnv(m: Machine, arity: nat)
    requires WellFormed(m.heap)
    requires !HasTag(m.heap, Peek(m.os, arity), BuiltinTag)
    requires ExecCall(m, arity, false).Ok?
    ensures var m' := ExecCall(m, arity, false).value;
            && m'.rts == m.rts + [m'.rts[|m.rts|]]
            && HasTag(m'.heap, m'.rts[|m.rts|], CallframeTag)
            && Child(m'.heap, m'.rts[|m.rts|], 0) == m'.e
            && Pc(m'.heap, m'.rts[|m.rts|]) == m.pc % TwoByteRange
            && m'.pc == Pc(m.heap, Peek(m.os, arity))
  {
    var m2 := EnterClosure(m, arity).value;
    var (h4, c) := AllocateCallframe(m2.heap, GcOf(m2), Roots(m2), m2.e, m.pc).value;
    CallframeHoldsEnv(m2.heap, GcOf(m2), Roots(m2), m2.e, m.pc, h4, c);
  }

  /** The Callframe CALL allocates holds the environment and the return
      address it was given. */
  lemma CallframeHoldsEnv(h: Heap, gc: Gc, roots: seq<int>, env: int, pc: int, h': Heap, c: int)
    requires WellFormed(h)
    requires AllocateCallframe(h, gc, roots, env, pc) == Ok((h', c))
    ensures HasTag(h', c, CallframeTag) && Child(h', c, 0) == env && Pc(h', c) == pc % TwoByteRange
  {
    assert Children(h', c) == [env];
  }

  /** So RESET after a CALL returns to the instruction after the CALL but
      leaves E as the callee's environment: the caller's E is lost. */
  lemma CallThenResetKeepsCalleeEnv(m: Machine, arity: nat)
    requires WellFormed(m.heap)
    requires !HasTag(m.heap, Peek(m.os, arity), BuiltinTag)
    requires ExecCall(m, arity, false).Ok?
    requires !HasTag(ExecCall(m, arity, false).value.heap, 0, CallframeTag)
    ensures var m' := ExecCall(m, arity, false).value;
            ExecReset(m') == Ok(m'.(rts := m.rts, pc := m.pc % TwoByteRange))
  {
    var m' := ExecCall(m, arity, false).value;
    CallFramesCalleeEnv(m, arity);
    var c := m'.rts[|m.rts|];
    assert m'.rts[..|m'.rts| - 1] == m.rts;
    assert PopToCallframe(m'.heap, m'.rts, 0) == PopToCallframe(m'.heap, m.rts, c);
    assert PopToCallframe(m'.heap, m'.rts, 0) == Ok((m.rts, c));
    assert ExecReset(m') == Ok(m'.(rts := m.rts, e := Child(m'.heap, c, 0), pc := Pc(m'.heap, c)));
  }

  /** RESET pops RTS down to its topmost Callframe and resumes there. */
  lemma ResetReturnsToTopmostCallframe(m: Machine)
    requires m.rts != [] && !HasTag(m.heap, 0, CallframeTag)
    requires ExecReset(m).Ok?
    ensures var m' := ExecReset(m).value;
            exists c, above ::
              && m.rts == m'.rts + [c] + above
              && HasTag(m.heap, c, CallframeTag)
              && (forall k :: 0 <= k < |above| ==> !HasTag(m.heap, above[k], CallframeTag))
              && m'.e == Child(m.heap, c, 0) && m'.pc == Pc(m.heap, c)
  {
    var (rest, c) := PopToCallframe(m.heap, m.rts, 0).value;
    PopToCallframeTopmost(m.heap, m.rts, 0);
    var above :| m.rts == rest + [c] + above && forall k :: 0 <= k < |above| ==> !HasTag(m.heap, above[k], CallframeTag);
  }

  /** RESET with an empty RTS ends the goroutine: the front thread resumes
      and the finished one is not saved. */
  lemma ResetEndsGoroutine(m: Machine)
    requires m.rts == [] && m.queue != []
    ensures ExecReset(m).Ok?
    ensures ExecReset(m).value.queue == m.queue[1..]
    ensures Save(ExecReset(m).value) == m.queue[0]
  {
  }

  /** GOCALL leaves the callee on top of the spawner's stack, and the
      thread it queues starts at that very closure's entry. */
  lemma GoCallLeavesCallee(m: Machine, arity: nat, m': Machine)
    requires arity < |m.os|
    requires ExecGoCall(m, arity) == Ok(m')
    ensures |m'.os| == |m.os| - arity && Peek(m'.os, 0) == Peek(m.os, arity)
    ensures m'.queue[|m.queue|].pc == Pc(m.heap, Peek(m'.os, 0))
  {
    PeekBelowArguments(m.os, arity);
  }

  /** Dropping the top `k` words leaves the one `k` places down on top. */
  lemma PeekBelowArguments(s: seq<int>, k: nat)
    requires k < |s|
    ensures Peek(s[..|s| - k], 0) == Peek(s, k)
  {
  }

  // ---------------------------------------------------------------------
  // Channels

  /** SEND blocks the sender: it joins the back of the queue with its
      value recorded under the channel and its PC at the LD before the
      SEND, and the front thread resumes. */
  lemma SendBlocks(m: Machine, value: JsValue)
    requires m.queue != []
    ensures var (os1, id) := PopWord(m.os);
            var m' := ExecSend(m, value);
            && m'.queue == m.queue[1..] + [Thread(os1, m.pc - 2, m.rts, m.e, m.channels[id := value], m.sleep)]
            && Save(m') == m.queue[0]
  {
    var (os1, id) := PopWord(m.os);
    var t := Thread(os1, m.pc - 2, m.rts, m.e, m.channels[id := value], m.sleep);
    assert (m.queue + [t])[1..] == m.queue[1..] + [t];
  }

  /** RECV with no queued sender on the channel blocks the receiver at
      the LD before the RECV, and the front thread resumes. */
  lemma RecvWithoutSenderBlocks(m: Machine)
    requires FirstSender(m.queue, PopWord(m.os).1) == |m.queue|
    ensures var (os1, id) := PopWord(m.os);
            ExecRecv(m) == Ok(Yield(m, Thread(os1, m.pc - 2, m.rts, m.e, m.channels, m.sleep)))
  {
  }

  /** RECV takes the value of the first queued sender on the channel: it
      is `ReceiveFrom` that thread, so the sender stays where it is in the
      queue with the entry deleted and its PC moved on by two. With enough
      slots on the free list for the value's nodes it succeeds, and the
      receiver goes on with a node holding the value on its stack. */
  lemma RecvTakesFirstSender(m: Machine, xs: seq<int>)
    requires WellFormed(m.heap) && ValidLiterals(m.heap, m.lits) && IsFreeList(m.heap, m.heap.free, xs)
    requires FirstSender(m.queue, PopWord(m.os).1) < |m.queue|
    requires var t := m.queue[FirstSender(m.queue, PopWord(m.os).1)];
             Storable(t.channels[PopWord(m.os).1]) && NodesNeeded(t.channels[PopWord(m.os).1]) <= |xs|
    ensures var (os1, id) := PopWord(m.os);
            var i := FirstSender(m.queue, id);
            && ExecRecv(m) == ReceiveFrom(m.(os := os1), id, i)
            && ExecRecv(m).Ok?
            && Represents(ExecRecv(m).value.heap, ExecRecv(m).value.os[|os1|], m.queue[i].channels[id])
  {
    var (os1, id) := PopWord(m.os);
    var i := FirstSender(m.queue, id);
    ReceiveFromStores(m.(os := os1), id, i, xs);
  }

  /** The receiving half: the value becomes a node on the receiver's
      stack. */
  lemma ReceiveFromStores(m: Machine, id: int, i: nat, xs: seq<int>)
    requires WellFormed(m.heap) && ValidLiterals(m.heap, m.lits) && IsFreeList(m.heap, m.heap.free, xs)
    requires i < |m.queue| && id in m.queue[i].channels
    requires Storable(m.queue[i].channels[id]) && NodesNeeded(m.queue[i].channels[id]) <= |xs|
    ensures ReceiveFrom(m, id, i).Ok?
    ensures Represents(ReceiveFrom(m, id, i).value.heap, ReceiveFrom(m, id, i).value.os[|m.os|], m.queue[i].channels[id])
  {
    var v := m.queue[i].channels[id];
    ToAddressRepresents(m.heap, GcOf(m), Roots(m), m.lits, v, xs);
    var (h, a) := Conversion(m.heap, GcOf(m), Roots(m), m.lits, v).value;
    var m' := ReceiveFrom(m, id, i).value;
    assert m'.heap == h && m'.os[|m.os|] == a;
  }

  /** A SEND and the RECV that takes its value: the sender resumes at the
      instruction right after its SEND, and its entry for the channel is
      gone. */
  lemma SendThenRecvResumesAfterSend(m: Machine, value: JsValue, r: Machine)
    requires m.queue != [] && m.os != []
    requires r.queue == ExecSend(m, value).queue && PopWord(r.os).1 == PopWord(m.os).1
    requires FirstSender(r.queue, PopWord(m.os).1) == |r.queue| - 1
    requires ExecRecv(r).Ok?
    ensures var t := ExecRecv(r).value.queue[|r.queue| - 1];
            t.pc == m.pc && t.channels == m.channels - {PopWord(m.os).1}
  {
    SendBlocks(m, value);
    var id := PopWord(m.os).1;
    assert r.queue[|r.queue| - 1].channels == m.channels[id := value];
    assert m.channels[id := value] - {id} == m.channels - {id};
  }

  // ---------------------------------------------------------------------
  // Mutexes

  /** The ids 0 to `n - 1`. */
  function IdsBelow(n: nat): set<int> {
    if n == 0 then {} else IdsBelow(n - 1) + {n - 1}
  }

  lemma {:induction false} IdsBelowCount(n: nat)
    ensures |IdsBelow(n)| == n
    ensures forall k :: k in IdsBelow(n) <==> 0 <= k < n
    decreases n
  {
    if n > 0 {
      IdsBelowCount(n - 1);
    }
  }

  /** MUTEX numbers mutexes 0, 1, 2, ...: while the table holds exactly the
      ids below `n`, the next mutex gets id `n`, unlocked. */
  lemma MutexIdsAreConsecutive(m: Machine, p: Pos, n: nat)
    requires m.mutexes.Keys == IdsBelow(n)
    ensures var m' := ExecMutex(m, p);
            && m'.mutexes.Keys == IdsBelow(n + 1)
            && m'.mutexes == m.mutexes[n := false]
            && m'.heap == SetValue(m.heap, m.e, p, n)
  {
    IdsBelowCount(n);
  }

  /** A machine starts with no mutexes and no channels. */
  lemma InitHasNoMutexes(code: seq<Instr>, slots: nat)
    requires slots >= 1 && Init(code, slots).Ok?
    ensures Init(code, slots).value.mutexes.Keys == IdsBelow(0)
    ensures Init(code, slots).value.channelCount == 0
  {
  }

  /** Lock on an unlocked (or unknown) mutex takes it; on a locked one the
      thread yields, saved with the callee still on its stack and its PC
      back at the LD of `Lock`, so that it tries again when it resumes.
      Unlock releases a locked mutex and fails on any other. */
  lemma LockAndUnlock(m: Machine)
    ensures var (os1, a) := PopWord(m.os);
            var locked := a in m.mutexes && m.mutexes[a];
            && Builtin(m, 4).Ok?
            && (Builtin(m, 4).value.2 <==> locked)
            && (!locked ==> Builtin(m, 4).value.0 == m.(os := os1, mutexes := m.mutexes[a := true]))
            && (locked ==> Builtin(m, 4).value.0.mutexes == m.mutexes)
            && (locked && m.queue != [] ==>
                  var q := Builtin(m, 4).value.0.queue;
                  q[|q| - 1] == Thread(os1, m.pc - 3, m.rts, m.e, m.channels, m.sleep))
            && (Builtin(m, 5).Ok? <==> locked)
            && (locked ==> Builtin(m, 5).value == (m.(os := os1, mutexes := m.mutexes[a := false]), NoValue, false))
            && (!locked ==> Builtin(m, 5) == Err(MutexAlreadyUnlocked))
  {
    var (os1, a) := PopWord(m.os);
    var t := Thread(os1, m.pc - 3, m.rts, m.e, m.channels, m.sleep);
    if m.queue != [] {
      assert (m.queue + [t])[1..] == m.queue[1..] + [t];
    }
  }

  /** Lock then Unlock of a mutex that was unlocked gives back the table. */
  lemma LockThenUnlock(m: Machine, a: int, rest: seq<int>)
    requires a in m.mutexes && !m.mutexes[a] && PopWord(m.os).1 == a
    ensures var m1 := Builtin(m, 4).value.0;
            Builtin(m1.(os := rest + [a]), 5).value.0.mutexes == m.mutexes
  {
    var m1 := Builtin(m, 4).value.0;
    assert m1.mutexes == m.mutexes[a := true];
    PushThenPopWord(rest, a);
    assert m.mutexes[a := true][a := false] == m.mutexes;
  }

  // ---------------------------------------------------------------------
  // Sleeping

  /** `sleep(d)` yields `d` times before it returns: the first call records
      `d` and yields; each later call with `s > 1` rounds left counts down
      and yields; the call with one round left returns. */
  lemma SleepCountsDown(m: Machine)
    requires m.queue != []
    ensures var (os1, a) := PopWord(m.os);
            && (m.sleep == 0 && ReadValue(m.heap, a).Ok? && ReadValue(m.heap, a).value.JNum? ==>
                  && Builtin(m, 1).Ok? && Builtin(m, 1).value.2
                  && var q := Builtin(m, 1).value.0.queue;
                     q[|q| - 1] == Thread(PopWord(os1).0, m.pc - 3, m.rts, m.e, m.channels, ReadValue(m.heap, a).value.n))
            && (m.sleep == 1 ==> Builtin(m, 1) == Ok((m.(os := os1, sleep := 0), NoValue, false)))
            && (m.sleep != 0 && m.sleep != 1 ==>
                  && Builtin(m, 1).Ok? && Builtin(m, 1).value.2
                  && var q := Builtin(m, 1).value.0.queue;
                     q[|q| - 1] == Thread(PopWord(os1).0, m.pc - 3, m.rts, m.e, m.channels, m.sleep - 1))
  {
  }

  // ---------------------------------------------------------------------
  // Roots

  /** Every node that some thread, running or queued, reaches from its
      operand stack, E or runtime stack keeps its contents through an
      allocation. */
  lemma AllocationKeepsThreadNodes(m: Machine, tag: Tag, size: int, xs: seq<int>, p: seq<int>)
    requires WellFormed(m.heap) && Closed(m.heap) && IsFreeList(m.heap, m.heap.free, xs)
    requires Allocate(m.heap, GcOf(m), tag, size, Roots(m)).Ok?
    requires IsPath(m.heap, p)
    requires || p[0] in m.os || p[0] == m.e || p[0] in m.rts
             || exists i :: 0 <= i < |m.queue| && (p[0] in m.queue[i].os || p[0] == m.queue[i].e || p[0] in m.queue[i].rts)
    ensures var h' := Allocate(m.heap, GcOf(m), tag, size, Roots(m)).value.0;
            var b := p[|p| - 1];
            IsNode(h', b) && h'.slots[b] == m.heap.slots[b].(marked := h'.slots[b].marked)
  {
    RootsAreAllThreads(m, p[0]);
    assert Reachable(m.heap, Roots(m), p[|p| - 1]);
    AllocateKeepsReachable(m.heap, GcOf(m), tag, size, Roots(m), xs);
  }

  /** The collector's precondition carries over from one allocation to the
      next: from a well-formed heap whose low marks are closed, an
      allocation keeps every node the roots reach and hands out a slot none
      of them occupies, and it leaves a well-formed heap, a free list and
      low marks that are still closed, which is all the next allocation
      needs. */
  lemma AllocationKeepsCollectorState(m: Machine, tag: Tag, size: int, xs: seq<int>)
    requires WellFormed(m.heap) && m.bottom % NodeSize == 0 && LowMarksClosed(m.heap, m.bottom)
    requires IsFreeList(m.heap, m.heap.free, xs)
    requires Allocate(m.heap, GcOf(m), tag, size, Roots(m)).Ok?
    ensures var (h', a) := Allocate(m.heap, GcOf(m), tag, size, Roots(m)).value;
            && KeepsReachable(m.heap, h', Roots(m))
            && !Reachable(m.heap, Roots(m), a)
            && a >= m.bottom
            && WellFormed(h') && LowMarksClosed(h', m.bottom)
            && IsFreeList(h', h'.free, FreeListAfter(m.heap, GcOf(m), Roots(m), xs))
  {
    AllocateKeepsReachable(m.heap, GcOf(m), tag, size, Roots(m), xs);
    AllocateWellFormed(m.heap, GcOf(m), tag, size, Roots(m));
    AllocateKeepsLowMarksClosed(m.heap, m.bottom, tag, size, Roots(m), xs);
  }

  /** With room on the free list, LDC pushes a word that represents the
      literal, keeps every node there was, and changes nothing but OS and
      the heap. */
  lemma LdcPushesValue(m: Machine, v: JsValue, xs: seq<int>) returns (m': Machine)
    requires WellFormed(m.heap) && ValidLiterals(m.heap, m.lits) && IsFreeList(m.heap, m.heap.free, xs)
    requires Storable(v) && NodesNeeded(v) <= |xs|
    ensures ExecLdc(m, v) == Ok(m')
    ensures |m'.os| == |m.os| + 1 && m' == m.(heap := m'.heap, os := m.os + [m'.os[|m.os|]])
    ensures Converted(m.heap, m'.heap, m'.os[|m.os|], v, xs[NodesNeeded(v)..])
    ensures ValidLiterals(m'.heap, m'.lits)
    ensures Depth(v) <= |m.heap.slots| ==> ReadValue(m'.heap, m'.os[|m.os|]) == Ok(v)
  {
    ToAddressRepresents(m.heap, GcOf(m), Roots(m), m.lits, v, xs);
    var (h, a) := Conversion(m.heap, GcOf(m), Roots(m), m.lits, v).value;
    ValidLiteralsKept(m.heap, h, m.lits);
    m' := m.(heap := h, os := m.os + [a]);
    assert ExecLdc(m, v) == Ok(m');
    assert h.slots.Keys == m.heap.slots.Keys;
    if Depth(v) <= |m.heap.slots| {
      ReadRepresented(h, a, v);
    }
  }

  /** With room on the free list, UNOP on a word that represents `x`
      replaces it with a word that represents the operator's result;
      nothing but OS and the heap changes. */
  lemma UnopPushesResult(m: Machine, sym: string, x: JsValue, z: JsValue, s: seq<int>, n: int, zs: seq<int>)
      returns (m': Machine)
    requires WellFormed(m.heap) && ValidLiterals(m.heap, m.lits) && IsFreeList(m.heap, m.heap.free, zs)
    requires Storable(z) && NodesNeeded(z) <= |zs|
    requires Represents(m.heap, n, x) && Depth(x) <= |m.heap.slots| && Depth(z) <= |m.heap.slots|
    requires GoUnOp(sym).Ok? && ApplyUnOp(GoUnOp(sym).value, x) == Ok(z)
    requires m.os == s + [n]
    ensures ExecUnop(m, sym) == Ok(m')
    ensures |m'.os| == |s| + 1 && m' == m.(heap := m'.heap, os := s + [m'.os[|s|]])
    ensures ReadValue(m'.heap, m'.os[|s|]) == Ok(z)
  {
    var m1 := m.(os := s);
    ConversionReadsBack(m.heap, GcOf(m1), Roots(m1), m.lits, z, zs);
    UnopRepresented(m.heap, GcOf(m1), Roots(m1), m.lits, GoUnOp(sym), x, z, n);
    var (h, a) := Conversion(m.heap, GcOf(m1), Roots(m1), m.lits, z).value;
    assert PopWord(m.os) == (s, n);
    m' := m1.(heap := h, os := s + [a]);
  }

  /** With room on the free list, BINOP on two words that represent `x`
      and `y` replaces them with a word that represents the operator's
      result; nothing but OS and the heap changes. */
  lemma BinopPushesResult(m: Machine, sym: string, x: JsValue, y: JsValue, z: JsValue, s: seq<int>, n1: int, n2: int, zs: seq<int>)
      returns (m': Machine)
    requires WellFormed(m.heap) && ValidLiterals(m.heap, m.lits) && IsFreeList(m.heap, m.heap.free, zs)
    requires Storable(z) && NodesNeeded(z) <= |zs|
    requires Represents(m.heap, n1, x) && Represents(m.heap, n2, y)
    requires Depth(x) <= |m.heap.slots| && Depth(y) <= |m.heap.slots| && Depth(z) <= |m.heap.slots|
    requires GoBinOp(sym).Ok? && ApplyBinOp(GoBinOp(sym).value, x, y) == Ok(z)
    requires m.os == s + [n1] + [n2]
    ensures ExecBinop(m, sym) == Ok(m')
    ensures |m'.os| == |s| + 1 && m' == m.(heap := m'.heap, os := s + [m'.os[|s|]])
    ensures ReadValue(m'.heap, m'.os[|s|]) == Ok(z)
  {
    var m1 := m.(os := s);
    ConversionReadsBack(m.heap, GcOf(m1), Roots(m1), m.lits, z, zs);
    ApplyRepresented(m.heap, GcOf(m1), Roots(m1), m.lits, GoBinOp(sym), x, y, z, n1, n2);
    var (h, a) := Conversion(m.heap, GcOf(m1), Roots(m1), m.lits, z).value;
    assert PopWord(m.os) == (s + [n1], n2);
    assert PopWord(s + [n1]) == (s, n1);
    m' := m1.(heap := h, os := s + [a]);
  }
}
