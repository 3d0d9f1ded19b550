/** The machine of compiler/compiler.js, the earlier port: the registers
    OS, PC, E and RTS, the node heap, a collector that sweeps from the
    fixed address 260 and clears the marks it leaves below it, and the
    same nine builtins as mark_sweep_gc. Its constructors pin nothing;
    only an extension that finds the free list empty keeps its new frame
    in the roots. */
module EarlyMachine {
  import opened Wrappers
  import opened Heap
  import opened Collector
  import opened Allocator
  import opened Faults
  import opened JsValues
  import opened Nodes
  import opened Values
  import opened Positions
  import opened Code
  import opened Operators
  import opened MachineCore

  /** `HEAP_BOTTOM`: the sweep starts here whatever start-up allocated. */
  const HeapBottom: int := 260

  /** The nine builtins of `SourceBuiltin`. */
  const BuiltinCount: nat := 9

  /** The registers, the heap and the literal nodes, and the values
      `println` has shown. */
  datatype Machine = Machine(
    code: seq<Instr>,
    heap: Heap, lits: Literals,
    os: seq<int>, pc: int, e: int, rts: seq<int>,
    shown: seq<JsValue>)

  function GcOf(m: Machine): Gc {
    ClearLowMarks(HeapBottom)
  }

  /** What no instruction changes: the code and the literal nodes. */
  predicate Keeps(m: Machine, m': Machine) {
    m'.code == m.code && m'.lits == m.lits
  }

  /** `markAllLiveNodes`: E, then RTS, then OS; the frame an extension
      pins comes after them. */
  function Roots(m: Machine): seq<int> {
    [m.e] + m.rts + m.os
  }

  /** A word is a root exactly when a register holds it. */
  lemma RootsAreRegisters(m: Machine, x: int)
    ensures x in Roots(m) <==> x in m.os || x == m.e || x in m.rts
  {
  }

  /** `heap_Environment_extend(frame, env, free == -1)`: the frame is pinned
      exactly when the free list is empty, that is, when the allocation
      collects. */
  function ExtendAt(m: Machine, h: Heap, frame: int, env: int): Result<(Heap, int), Fault> {
    ExtendWithFrameRoot(h, GcOf(m), Roots(m), h.free == EndOfFreeList, frame, env)
  }

  // ---------------------------------------------------------------------
  // Instructions

  function ExecLdc(m: Machine, v: JsValue): (r: Result<Machine, Fault>)
    ensures r.Ok? ==> Keeps(m, r.value) && r.value.pc == m.pc && r.value.e == m.e && r.value.rts == m.rts
    ensures r.Ok? ==> |r.value.os| == |m.os| + 1 && r.value.os[..|m.os|] == m.os
  {
    var (h, a) :- ToAddress(m.heap, GcOf(m), Roots(m), m.lits, v);
    assert (m.os + [a])[..|m.os|] == m.os;
    Ok(m.(heap := h, os := m.os + [a]))
  }

  function ExecUnop(m: Machine, sym: string): (r: Result<Machine, Fault>)
    ensures r.Ok? ==> Keeps(m, r.value)
    ensures r.Ok? ==> r.value == m.(heap := r.value.heap, os := r.value.os)
    ensures r.Ok? ==> r.value.heap.size == m.heap.size && r.value.heap.slots.Keys == m.heap.slots.Keys
    ensures r.Ok? && m.os != [] ==>
              && |r.value.os| == |m.os| && r.value.os[..|m.os| - 1] == m.os[..|m.os| - 1]
              && UnopApplies(m.heap, SourceUnOp(sym), Peek(m.os, 0))
  {
    var (os1, v) := PopWord(m.os);
    var m1 := m.(os := os1);
    var (h, a) :- ApplyUnopAt(m.heap, GcOf(m1), Roots(m1), m.lits, SourceUnOp(sym), v);
    Ok(m1.(heap := h, os := os1 + [a]))
  }

  /** `v2` is popped first and is the right operand. The operator table is
      JavaScript's, with `&&` and `||`. */
  function ExecBinop(m: Machine, sym: string): (r: Result<Machine, Fault>)
    ensures r.Ok? ==> Keeps(m, r.value)
    ensures r.Ok? ==> r.value == m.(heap := r.value.heap, os := r.value.os)
    ensures r.Ok? ==> r.value.heap.size == m.heap.size && r.value.heap.slots.Keys == m.heap.slots.Keys
    ensures r.Ok? && |m.os| >= 2 ==>
              && |r.value.os| == |m.os| - 1 && r.value.os[..|m.os| - 2] == m.os[..|m.os| - 2]
              && BinopApplies(m.heap, EarlyBinOp(sym), Peek(m.os, 1), Peek(m.os, 0))
  {
    var (os1, v2) := PopWord(m.os);
    var (os2, v1) := PopWord(os1);
    var m1 := m.(os := os2);
    var (h, a) :- ApplyBinopAt(m.heap, GcOf(m1), Roots(m1), m.lits, EarlyBinOp(sym), v2, v1);
    Ok(m1.(heap := h, os := os2 + [a]))
  }

  /** JOF falls through on True and jumps on anything else. */
  function ExecJof(m: Machine, addr: int): (r: Machine)
    ensures r.os == PopWord(m.os).0
    ensures r.pc == if HasTag(m.heap, PopWord(m.os).1, TrueTag) then m.pc else addr
  {
    var (os1, v) := PopWord(m.os);
    m.(os := os1, pc := if HasTag(m.heap, v, TrueTag) then m.pc else addr)
  }

  /** ENTER_SCOPE: a Blockframe holding E goes on RTS, then a frame of
      `num` slots is allocated, E is extended by it, and its slots are set
      to Unassigned. */
  function ExecEnterScope(m: Machine, num: nat): (r: Result<Machine, Fault>)
    ensures num + 1 > NodeSize ==> r.Err?
    ensures r.Ok? ==> Keeps(m, r.value) && |r.value.rts| == |m.rts| + 1 && r.value.rts[..|m.rts|] == m.rts
    ensures r.Ok? ==> r.value.os == m.os && r.value.pc == m.pc
  {
    var (h1, b) :- AllocateBlockframe(m.heap, GcOf(m), Roots(m), m.e);
    assert (m.rts + [b])[..|m.rts|] == m.rts;
    OpenFrame(m.(heap := h1, rts := m.rts + [b]), num)
  }

  /** The rest of ENTER_SCOPE once the Blockframe is on RTS: only the heap
      and E change. */
  function OpenFrame(m: Machine, num: nat): (r: Result<Machine, Fault>)
    ensures num + 1 > NodeSize ==> r.Err?
    ensures r.Ok? ==> r.value == m.(heap := r.value.heap, e := r.value.e)
  {
    var (h2, f) :- AllocateFrame(m.heap, GcOf(m), Roots(m), num);
    var (h3, e) :- ExtendAt(m, h2, f, m.e);
    Ok(m.(heap := FillSlots(h3, f, num, m.lits.unassignedNode), e := e))
  }

  /** EXIT_SCOPE: E becomes the environment of the Blockframe popped from
      RTS. */
  function ExecExitScope(m: Machine): (r: Machine)
    ensures r == m.(rts := PopWord(m.rts).0, e := Child(m.heap, PopWord(m.rts).1, 0))
  {
    var (rts1, b) := PopWord(m.rts);
    m.(rts := rts1, e := Child(m.heap, b, 0))
  }

  /** LD pushes the variable's value; reading an Unassigned variable is
      an error. */
  function ExecLd(m: Machine, p: Pos): (r: Result<Machine, Fault>)
    ensures r.Err? <==> HasTag(m.heap, GetValue(m.heap, m.e, p), UnassignedTag)
    ensures r.Err? ==> r.error == UnassignedAccess
    ensures r.Ok? ==> r.value == m.(os := m.os + [GetValue(m.heap, m.e, p)])
  {
    var v := GetValue(m.heap, m.e, p);
    if HasTag(m.heap, v, UnassignedTag) then Err(UnassignedAccess) else Ok(m.(os := m.os + [v]))
  }

  /** ASSIGN stores the top of OS, which stays there. */
  function ExecAssign(m: Machine, p: Pos): (r: Machine)
    ensures r == m.(heap := r.heap)
    ensures r.heap.size == m.heap.size && r.heap.slots.Keys == m.heap.slots.Keys
    ensures VariableAt(m.heap, m.e, p) ==> GetValue(r.heap, m.e, p) == Peek(m.os, 0)
    ensures forall q: Pos :: VariableAt(m.heap, m.e, p) && (Child(m.heap, m.e, q.frame) != Child(m.heap, m.e, p.frame) || q.index != p.index) ==>
              GetValue(r.heap, m.e, q) == GetValue(m.heap, m.e, q)
  {
    m.(heap := SetValue(m.heap, m.e, p, Peek(m.os, 0)))
  }

  function ExecLdf(m: Machine, arity: nat, addr: int): (r: Result<Machine, Fault>)
    ensures r.Ok? ==> Keeps(m, r.value)
    ensures r.Err? ==> r.error == ExhaustedFault(GcOf(m))
    ensures r.Ok? ==> |r.value.os| == |m.os| + 1 && r.value == m.(heap := r.value.heap, os := m.os + [r.value.os[|m.os|]])
    ensures r.Ok? ==> var c := r.value.os[|m.os|];
                      && HasTag(r.value.heap, c, ClosureTag)
                      && Byte1(r.value.heap, c) == arity % ByteRange && Pc(r.value.heap, c) == addr % TwoByteRange
    ensures r.Ok? && WellFormed(m.heap) ==> Children(r.value.heap, r.value.os[|m.os|]) == [m.e]
  {
    var (h, c) :- AllocateClosure(m.heap, GcOf(m), Roots(m), arity, addr, m.e);
    Ok(m.(heap := h, os := m.os + [c]))
  }

  /** CALL (`tail` false) and TAIL_CALL (`tail` true). A builtin is applied
      directly. Otherwise CALL first pushes a Callframe holding the caller's
      E and the return address; then a frame is allocated, the arguments
      are popped into it and the callee is popped; E becomes the closure's
      environment extended by the frame, and PC the closure's entry. The
      callee is off the stack while the environment is allocated, so the
      closure's environment is rooted only through other nodes. */
  function ExecCall(m: Machine, arity: nat, tail: bool): (r: Result<Machine, Fault>)
    ensures r.Ok? ==> Keeps(m, r.value)
    ensures r.Ok? && HasTag(m.heap, Peek(m.os, arity), BuiltinTag) ==>
              r.value.pc == m.pc && r.value.e == m.e && r.value.rts == m.rts
    ensures r.Ok? && !HasTag(m.heap, Peek(m.os, arity), BuiltinTag) ==>
              && r.value.pc == Pc(m.heap, Peek(m.os, arity))
              && (arity < |m.os| ==> r.value.os == m.os[..|m.os| - arity - 1])
              && (tail ==> r.value.rts == m.rts)
              && (!tail ==> |r.value.rts| == |m.rts| + 1 && r.value.rts[..|m.rts|] == m.rts)
  {
    PopBelowArguments(m.os, arity);
    var fun := Peek(m.os, arity);
    if HasTag(m.heap, fun, BuiltinTag) then ApplyBuiltin(m, Byte1(m.heap, fun))
    else
      var entry := Pc(m.heap, fun);
      var m1 :- if tail then Ok(m) else PushCallframe(m);
      var (h2, os1, f) :- MoveArguments(m1.heap, GcOf(m1), Roots(m1), m1.os, arity);
      EnterCallee(m1.(heap := h2, os := PopWord(os1).0), Child(h2, fun, 0), f, entry)
  }

  /** CALL's `push(RTS, heap_allocate_Callframe(E, PC))`. */
  function PushCallframe(m: Machine): (r: Result<Machine, Fault>)
    ensures r.Ok? ==> r.value == m.(heap := r.value.heap, rts := r.value.rts)
    ensures r.Ok? ==> |r.value.rts| == |m.rts| + 1 && r.value.rts[..|m.rts|] == m.rts
  {
    var (h, c) :- AllocateCallframe(m.heap, GcOf(m), Roots(m), m.e, m.pc);
    assert (m.rts + [c])[..|m.rts|] == m.rts;
    Ok(m.(heap := h, rts := m.rts + [c]))
  }

  /** E becomes `env` extended by the frame, and PC the entry. */
  function EnterCallee(m: Machine, env: int, f: int, entry: int): (r: Result<Machine, Fault>)
    ensures r.Ok? ==> r.value == m.(heap := r.value.heap, e := r.value.e, pc := entry)
  {
    var (h3, e) :- ExtendAt(m, m.heap, f, env);
    Ok(m.(heap := h3, e := e, pc := entry))
  }

  /** RESET pops RTS down to the topmost Callframe, as go_vm's does, and
      takes E and PC from it. With no Callframe on RTS the source loops
      for ever. */
  function ExecReset(m: Machine): (r: Result<Machine, Fault>)
    ensures r.Err? ==> r.error == NoCallframe
    ensures r.Ok? ==> Keeps(m, r.value) && r.value.os == m.os && |r.value.rts| <= |m.rts|
    ensures r.Ok? ==> HasTag(m.heap, 0, CallframeTag) || |r.value.rts| < |m.rts|
  {
    var (rts1, c) :- PopToCallframe(m.heap, m.rts, 0);
    Ok(m.(rts := rts1, e := Child(m.heap, c, 0), pc := Pc(m.heap, c)))
  }

  /** `apply_builtin`: run the builtin, which pops its own arguments,
      then pop the callee and push the result. */
  function ApplyBuiltin(m: Machine, id: int): (r: Result<Machine, Fault>)
    ensures r.Ok? ==> Keeps(m, r.value) && r.value.pc == m.pc && r.value.e == m.e && r.value.rts == m.rts
  {
    var pairRoots := Roots(m.(os := PopWord(PopWord(m.os).0).0));
    var (h, os1, shown, result) :- SourceBuiltin(m.heap, GcOf(m), m.lits, m.os, pairRoots, id);
    Ok(m.(heap := h, os := PopWord(os1).0 + [result], shown := m.shown + shown))
  }

  // ---------------------------------------------------------------------
  // The run loop

  /** One instruction, with PC already past it. */
  function Execute(m: Machine, ins: Instr): (r: Result<Machine, Fault>)
    ensures r.Ok? ==> Keeps(m, r.value)
  {
    match ins
    case Ldc(v) => ExecLdc(m, v)
    case Unop(sym) => ExecUnop(m, sym)
    case Binop(sym) => ExecBinop(m, sym)
    case Pop => Ok(m.(os := PopWord(m.os).0))
    case Jof(addr) => Ok(ExecJof(m, addr))
    case Goto(addr) => Ok(m.(pc := addr))
    case EnterScope(num) => ExecEnterScope(m, num)
    case ExitScope => Ok(ExecExitScope(m))
    case Ld(p) => ExecLd(m, p)
    case Assign(p) => Ok(ExecAssign(m, p))
    case Ldf(arity, addr) => ExecLdf(m, arity, addr)
    case Call(arity) => ExecCall(m, arity, false)
    case TailCall(arity) => ExecCall(m, arity, true)
    case Reset => ExecReset(m)
    case Done => Err(NoMicrocode("DONE"))
    case Channel(_) => Err(NoMicrocode("CHANNEL"))
    case Mutex(_) => Err(NoMicrocode("MUTEX"))
    case EndGo => Err(NoMicrocode("ENDGO"))
    case Send(_, _) => Err(NoMicrocode("SEND"))
    case Recv => Err(NoMicrocode("RECV"))
    case GoCall(_) => Err(NoMicrocode("GOCALL"))
  }

  /** One pass of `run`'s loop: fetch the instruction at PC, move PC past
      it, run it. */
  function Cycle(m: Machine): (r: Result<Machine, Fault>)
    ensures !(0 <= m.pc < |m.code|) ==> r == Err(PcOutOfRange(m.pc))
    ensures r.Ok? ==> Keeps(m, r.value)
  {
    if !(0 <= m.pc < |m.code|) then Err(PcOutOfRange(m.pc))
    else Execute(m.(pc := m.pc + 1), m.code[m.pc])
  }

  /** `run`'s loop with at most `fuel` passes; it stops when PC is at
      DONE. */
  function Run(m: Machine, fuel: nat): (r: Outcome<Machine>)
    ensures r.Halted? ==> 0 <= r.final.pc < |r.final.code| && r.final.code[r.final.pc] == Done
    ensures r.Halted? ==> r.final.code == m.code
    ensures r.OutOfFuel? ==> r.last.code == m.code
    decreases fuel
  {
    if !(0 <= m.pc < |m.code|) then Failed(PcOutOfRange(m.pc))
    else if m.code[m.pc] == Done then Halted(m)
    else if fuel == 0 then OutOfFuel(m)
    else
      match Cycle(m)
      case Err(f) => Failed(f)
      case Ok(m') => Run(m', fuel - 1)
  }

  /** What `run` returns: the value of the word on top of OS. */
  function FinalValue(m: Machine): (r: Result<JsValue, Fault>)
    ensures r.Ok? ==> ReadValue(m.heap, Peek(m.os, 0)) == Ok(r.value)
  {
    ReadValue(m.heap, Peek(m.os, 0))
  }

  /** `initialize_machine`: a heap of `slots` slots, the start-up nodes
      (with no registers set, a collection during start-up has no roots),
      empty stacks, PC 0, and E the global environment. */
  function Init(code: seq<Instr>, slots: nat): (r: Result<Machine, Fault>)
    requires slots >= 1
    ensures r.Ok? ==> && r.value.os == [] && r.value.rts == [] && r.value.pc == 0 && r.value.shown == []
                      && r.value.code == code && r.value.heap.size == NodeSize * slots
  {
    var h0 := InitHeap(slots);
    var (h, lits, e) :- Boot(h0, ClearLowMarks(HeapBottom), BuiltinCount);
    Ok(Machine(code, h, lits, [], 0, e, [], []))
  }
}
