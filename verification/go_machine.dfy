/** The machine of server/go_vm.js: a stack machine over the node heap
    with goroutines, channels and mutexes, scheduled cooperatively.

    The running thread's registers are fields of the machine; every other
    thread waits in the ready queue as a saved `Thread`. A thread gives up
    the machine when it blocks on SEND or RECV, sleeps, waits for a locked
    mutex, ends its goroutine, or has run for a quantum of ten
    instructions; it then joins the back of the queue (unless it ended)
    and the front thread resumes. */
module GoMachine {
  import opened Wrappers
  import opened Heap
  import opened Collector
  import opened Allocator
  import opened Faults
  import opened JsValues
  import opened Nodes
  import opened Values
  import opened Positions
  import opened Code
  import opened Operators
  import opened MachineCore

  /** `ThreadContext`: a waiting thread's registers, the values it is
      sending, keyed by channel id, and its sleep count. */
  datatype Thread = Thread(os: seq<int>, pc: int, rts: seq<int>, e: int,
                           channels: map<int, JsValue>, sleep: int)

  /** Instructions a thread runs before the scheduler requeues it. */
  const Quantum: nat := 10

  /** println, sleep, error, is_null, Lock and Unlock, with ids 0 to 5. */
  const BuiltinCount: nat := 6

  /** The registers OS, PC, E and RTS of the running thread together with
      its own `channels` and `sleep`; the heap with the bottom the
      collector sweeps from and the literal nodes; the ready queue; the
      mutex table, the channel counter, the printed lines; and `tick`, the
      number of instructions run so far. */
  datatype Machine = Machine(
    code: seq<Instr>,
    heap: Heap, bottom: int, lits: Literals,
    os: seq<int>, pc: int, e: int, rts: seq<int>,
    channels: map<int, JsValue>, sleep: int,
    queue: seq<Thread>,
    mutexes: map<int, bool>, channelCount: int,
    outputs: seq<string>, tick: nat)

  function GcOf(m: Machine): Gc {
    KeepLowMarks(m.bottom)
  }

  /** What no instruction changes: the code, the literal nodes, the
      collector's bottom and the instruction count. */
  predicate Keeps(m: Machine, m': Machine) {
    m'.code == m.code && m'.lits == m.lits && m'.bottom == m.bottom && m'.tick == m.tick
  }

  // ---------------------------------------------------------------------
  // Roots

  /** One part of a thread's saved registers, as a sequence of words. */
  datatype Part = StackPart | EnvPart | ReturnPart

  function PartOf(t: Thread, p: Part): seq<int> {
    match p
    case StackPart => t.os
    case EnvPart => [t.e]
    case ReturnPart => t.rts
  }

  /** The words of one part of every queued thread, front to back. */
  function QueueWords(q: seq<Thread>, p: Part): seq<int>
    decreases |q|
  {
    if q == [] then [] else PartOf(q[0], p) + QueueWords(q[1..], p)
  }

  /** `get_roots`: the running OS, then every queued OS; the running E,
      then every queued E; the running RTS, then every queued RTS. The
      constructors add what they pin. */
  function Roots(m: Machine): seq<int> {
    m.os + QueueWords(m.queue, StackPart)
    + [m.e] + QueueWords(m.queue, EnvPart)
    + m.rts + QueueWords(m.queue, ReturnPart)
  }

  lemma {:induction false} QueueWordsHas(q: seq<Thread>, p: Part, x: int)
    ensures x in QueueWords(q, p) <==> exists i :: 0 <= i < |q| && x in PartOf(q[i], p)
    decreases |q|
  {
    if q != [] {
      QueueWordsHas(q[1..], p, x);
      if x in PartOf(q[0], p) {
        assert x in QueueWords(q, p);
      }
      if exists i :: 0 <= i < |q| && x in PartOf(q[i], p) {
        var i :| 0 <= i < |q| && x in PartOf(q[i], p);
        if i > 0 {
          assert q[1..][i - 1] == q[i];
        }
      }
      if exists i :: 0 <= i < |q[1..]| && x in PartOf(q[1..][i], p) {
        var i :| 0 <= i < |q[1..]| && x in PartOf(q[1..][i], p);
        assert q[1..][i] == q[i + 1];
      }
    }
  }

  /** A word is a root exactly when the running thread or some queued
      thread holds it on its operand stack, in E or on its runtime stack. */
  lemma RootsAreAllThreads(m: Machine, x: int)
    ensures x in Roots(m) <==>
              || x in m.os || x == m.e || x in m.rts
              || exists i :: 0 <= i < |m.queue| && (x in m.queue[i].os || x == m.queue[i].e || x in m.queue[i].rts)
  {
    QueueWordsHas(m.queue, StackPart, x);
    QueueWordsHas(m.queue, EnvPart, x);
    QueueWordsHas(m.queue, ReturnPart, x);
    if exists i :: 0 <= i < |m.queue| && (x in m.queue[i].os || x == m.queue[i].e || x in m.queue[i].rts) {
      var i :| 0 <= i < |m.queue| && (x in m.queue[i].os || x == m.queue[i].e || x in m.queue[i].rts);
      assert x in PartOf(m.queue[i], StackPart) || x in PartOf(m.queue[i], EnvPart) || x in PartOf(m.queue[i], ReturnPart);
    }
  }

  // ---------------------------------------------------------------------
  // Scheduling

  /** The running thread's registers, saved into its context. */
  function Save(m: Machine): Thread {
    Thread(m.os, m.pc, m.rts, m.e, m.channels, m.sleep)
  }

  /** Makes `t` the running thread. */
  function Load(m: Machine, t: Thread): (r: Machine)
    ensures Save(r) == t
    ensures Keeps(m, r) && r.heap == m.heap && r.queue == m.queue
  {
    m.(os := t.os, pc := t.pc, rts := t.rts, e := t.e, channels := t.channels, sleep := t.sleep)
  }

  /** `curr_thread = context_Q.shift()` and the register loads after it; the
      running thread is dropped. An empty queue leaves `curr_thread`
      undefined and the next register load throws. */
  function Dequeue(m: Machine): (r: Result<Machine, Fault>)
    ensures r.Ok? <==> m.queue != []
    ensures r.Ok? ==> Save(r.value) == m.queue[0] && r.value.queue == m.queue[1..]
    ensures r.Ok? ==> Keeps(m, r.value) && r.value.heap == m.heap
  {
    if m.queue == [] then Err(NoThreadToRun)
    else Ok(Load(m.(queue := m.queue[1..]), m.queue[0]))
  }

  /** The running thread, saved as `t`, joins the back of the queue and the
      front thread resumes (possibly `t` itself). */
  function Yield(m: Machine, t: Thread): (r: Machine)
    ensures r.queue + [] == (m.queue + [t])[1..]
    ensures Save(r) == (m.queue + [t])[0]
    ensures Keeps(m, r) && r.heap == m.heap
  {
    var q := m.queue + [t];
    Load(m.(queue := q[1..]), q[0])
  }

  /** A builtin's context switch: like `Yield`, and the resumed thread
      finds an extra 0 on its operand stack, which `apply_builtin` then
      pops as if it were the called function. */
  function YieldInBuiltin(m: Machine, t: Thread): (r: Machine)
    ensures Keeps(m, r) && r.heap == m.heap && r.queue == (m.queue + [t])[1..]
  {
    var r := Yield(m, t);
    r.(os := r.os + [0])
  }

  /** The end of a quantum: the running thread is saved to the back of
      the queue, and keeps running until the next instruction dequeues. */
  function Requeue(m: Machine): (r: Machine)
    ensures r.queue == m.queue + [Save(m)]
    ensures Save(r) == Save(m) && Keeps(m, r)
  {
    m.(queue := m.queue + [Save(m)])
  }

  // ---------------------------------------------------------------------
  // Instructions

  /** LDC pushes one word for the literal; only the heap and OS change.
      A string has no node, and the source's conversion throws on it too. */
  function ExecLdc(m: Machine, v: JsValue): (r: Result<Machine, Fault>)
    ensures r.Ok? ==> Keeps(m, r.value)
    ensures r.Ok? ==> |r.value.os| == |m.os| + 1 && r.value == m.(heap := r.value.heap, os := m.os + [r.value.os[|m.os|]])
    ensures r.Ok? ==> r.value.heap.size == m.heap.size && r.value.heap.slots.Keys == m.heap.slots.Keys
    ensures r.Err? ==> r.error == NotAValue || r.error == ExhaustedFault(GcOf(m))
    ensures v.JStr? ==> r == Err(NotAValue)
  {
    var (h, a) :- ToAddress(m.heap, GcOf(m), Roots(m), m.lits, v);
    Ok(m.(heap := h, os := m.os + [a]))
  }

  /** UNOP replaces the top word by the boxed result. It succeeds only when
      go_vm's table has the symbol and the operator accepts the value the
      word reads as. */
  function ExecUnop(m: Machine, sym: string): (r: Result<Machine, Fault>)
    ensures r.Ok? ==> Keeps(m, r.value)
    ensures r.Ok? ==> r.value == m.(heap := r.value.heap, os := r.value.os)
    ensures r.Ok? ==> r.value.heap.size == m.heap.size && r.value.heap.slots.Keys == m.heap.slots.Keys
    ensures r.Ok? && m.os != [] ==>
              && |r.value.os| == |m.os| && r.value.os[..|m.os| - 1] == m.os[..|m.os| - 1]
              && UnopApplies(m.heap, GoUnOp(sym), Peek(m.os, 0))
  {
    var (os1, v) := PopWord(m.os);
    var m1 := m.(os := os1);
    var (h, a) :- ApplyUnopAt(m.heap, GcOf(m1), Roots(m1), m.lits, GoUnOp(sym), v);
    Ok(m1.(heap := h, os := os1 + [a]))
  }

  /** BINOP replaces the two top words by the boxed result. It succeeds
      only when go_vm's table has the symbol and the operator accepts the
      values the words read as, the deeper word being the left operand. */
  function ExecBinop(m: Machine, sym: string): (r: Result<Machine, Fault>)
    ensures r.Ok? ==> Keeps(m, r.value)
    ensures r.Ok? ==> r.value == m.(heap := r.value.heap, os := r.value.os)
    ensures r.Ok? ==> r.value.heap.size == m.heap.size && r.value.heap.slots.Keys == m.heap.slots.Keys
    ensures r.Ok? && |m.os| >= 2 ==>
              && |r.value.os| == |m.os| - 1 && r.value.os[..|m.os| - 2] == m.os[..|m.os| - 2]
              && BinopApplies(m.heap, GoBinOp(sym), Peek(m.os, 1), Peek(m.os, 0))
  {
    var (os1, v2) := PopWord(m.os);
    var (os2, v1) := PopWord(os1);
    var m1 := m.(os := os2);
    var (h, a) :- ApplyBinopAt(m.heap, GcOf(m1), Roots(m1), m.lits, GoBinOp(sym), v2, v1);
    Ok(m1.(heap := h, os := os2 + [a]))
  }

  /** JOF falls through on True and jumps on anything else. */
  function ExecJof(m: Machine, addr: int): (r: Machine)
    ensures r.os == PopWord(m.os).0
    ensures r.pc == if HasTag(m.heap, PopWord(m.os).1, TrueTag) then m.pc else addr
  {
    var (os1, v) := PopWord(m.os);
    m.(os := os1, pc := if HasTag(m.heap, v, TrueTag) then m.pc else addr)
  }

  /** ENTER_SCOPE: a Blockframe holding E goes on RTS, then a frame of
      `num` slots is allocated, E is extended by it, and its slots are set
      to Unassigned. */
  function ExecEnterScope(m: Machine, num: nat): (r: Result<Machine, Fault>)
    ensures num + 1 > NodeSize ==> r.Err?
    ensures r.Ok? ==> Keeps(m, r.value) && |r.value.rts| == |m.rts| + 1 && r.value.rts[..|m.rts|] == m.rts
  {
    var (h1, b) :- AllocateBlockframe(m.heap, GcOf(m), Roots(m), m.e);
    assert (m.rts + [b])[..|m.rts|] == m.rts;
    OpenFrame(m.(heap := h1, rts := m.rts + [b]), num)
  }

  /** The rest of ENTER_SCOPE once the Blockframe is on RTS: only the heap
      and E change. */
  function OpenFrame(m: Machine, num: nat): (r: Result<Machine, Fault>)
    ensures num + 1 > NodeSize ==> r.Err?
    ensures r.Ok? ==> r.value == m.(heap := r.value.heap, e := r.value.e)
  {
    var (h2, f) :- AllocateFrame(m.heap, GcOf(m), Roots(m), num);
    var (h3, e) :- Extend(h2, GcOf(m), Roots(m), f, m.e);
    Ok(m.(heap := FillSlots(h3, f, num, m.lits.unassignedNode), e := e))
  }

  /** EXIT_SCOPE: E becomes the environment of the Blockframe popped from
      RTS. */
  function ExecExitScope(m: Machine): (r: Machine)
    ensures r == m.(rts := r.rts, e := r.e)
    ensures m.rts != [] ==> r.rts == m.rts[..|m.rts| - 1]
    ensures m.rts != [] && |Children(m.heap, m.rts[|m.rts| - 1])| == 1 ==> Children(m.heap, m.rts[|m.rts| - 1]) == [r.e]
  {
    var (rts1, b) := PopWord(m.rts);
    m.(rts := rts1, e := Child(m.heap, b, 0))
  }

  /** LD pushes the variable's value; reading an Unassigned variable is
      an error. */
  function ExecLd(m: Machine, p: Pos): (r: Result<Machine, Fault>)
    ensures r.Err? <==> HasTag(m.heap, GetValue(m.heap, m.e, p), UnassignedTag)
    ensures r.Err? ==> r.error == UnassignedAccess
    ensures r.Ok? ==> Keeps(m, r.value)
    ensures r.Ok? ==> r.value == m.(os := m.os + [GetValue(m.heap, m.e, p)])
  {
    var v := GetValue(m.heap, m.e, p);
    if HasTag(m.heap, v, UnassignedTag) then Err(UnassignedAccess) else Ok(m.(os := m.os + [v]))
  }

  /** ASSIGN stores the top of OS, which stays there. */
  function ExecAssign(m: Machine, p: Pos): (r: Machine)
    ensures r == m.(heap := r.heap)
    ensures r.heap.size == m.heap.size && r.heap.slots.Keys == m.heap.slots.Keys
    ensures VariableAt(m.heap, m.e, p) ==> GetValue(r.heap, m.e, p) == Peek(m.os, 0)
    ensures forall q: Pos :: VariableAt(m.heap, m.e, p) && (Child(m.heap, m.e, q.frame) != Child(m.heap, m.e, p.frame) || q.index != p.index) ==>
              GetValue(r.heap, m.e, q) == GetValue(m.heap, m.e, q)
  {
    m.(heap := SetValue(m.heap, m.e, p, Peek(m.os, 0)))
  }

  /** CHANNEL numbers channels 0, 1, 2, ... and stores the raw number in
      the variable; it also pushes a 0 that nothing pops. */
  function ExecChannel(m: Machine, p: Pos): (r: Machine)
    ensures r == m.(channelCount := m.channelCount + 1, os := m.os + [0], heap := r.heap)
    ensures r.heap.size == m.heap.size && r.heap.slots.Keys == m.heap.slots.Keys
    ensures VariableAt(m.heap, m.e, p) ==> GetValue(r.heap, m.e, p) == m.channelCount
  {
    var id := m.channelCount;
    m.(channelCount := id + 1, os := m.os + [0], heap := SetValue(m.heap, m.e, p, id))
  }

  /** MUTEX takes as id the number of entries in the table, enters it
      unlocked and stores the raw id in the variable. */
  function ExecMutex(m: Machine, p: Pos): (r: Machine)
    ensures r == m.(mutexes := r.mutexes, heap := r.heap)
    ensures r.mutexes.Keys == m.mutexes.Keys + {|m.mutexes.Keys|} && !r.mutexes[|m.mutexes.Keys|]
    ensures forall k :: k in m.mutexes && k != |m.mutexes.Keys| ==> r.mutexes[k] == m.mutexes[k]
    ensures VariableAt(m.heap, m.e, p) ==> GetValue(r.heap, m.e, p) == |m.mutexes.Keys|
  {
    var id := |m.mutexes.Keys|;
    m.(mutexes := m.mutexes[id := false], heap := SetValue(m.heap, m.e, p, id))
  }

  /** LDF pushes a fresh closure over E with the arity and entry address
      truncated to their header fields. */
  function ExecLdf(m: Machine, arity: nat, addr: int): (r: Result<Machine, Fault>)
    ensures r.Ok? ==> Keeps(m, r.value)
    ensures r.Err? ==> r.error == ExhaustedFault(GcOf(m))
    ensures r.Ok? ==> |r.value.os| == |m.os| + 1 && r.value == m.(heap := r.value.heap, os := m.os + [r.value.os[|m.os|]])
    ensures r.Ok? ==> var c := r.value.os[|m.os|];
                      && HasTag(r.value.heap, c, ClosureTag)
                      && Byte1(r.value.heap, c) == arity % ByteRange && Pc(r.value.heap, c) == addr % TwoByteRange
    ensures r.Ok? && WellFormed(m.heap) ==> Children(r.value.heap, r.value.os[|m.os|]) == [m.e]
  {
    var (h, c) :- AllocateClosure(m.heap, GcOf(m), Roots(m), arity, addr, m.e);
    Ok(m.(heap := h, os := m.os + [c]))
  }

  /** ENDGO: the goroutine ends and the front thread resumes; with an empty
      queue the goroutine carries on with the next instruction. */
  function ExecEndGo(m: Machine): (r: Result<Machine, Fault>)
    ensures r.Ok? && Keeps(m, r.value)
    ensures m.queue == [] ==> r.value == m
  {
    if m.queue == [] then Ok(m) else Dequeue(m)
  }

  /** SEND pops the channel id, records its value under the id in the
      running thread's context, saves the thread with its PC set back to
      the LD before the SEND, and yields. A matching RECV later moves the
      thread past the SEND. */
  function ExecSend(m: Machine, value: JsValue): (r: Machine)
    ensures var (os1, id) := PopWord(m.os);
            r == Yield(m, Thread(os1, m.pc - 2, m.rts, m.e, m.channels[id := value], m.sleep))
  {
    var (os1, id) := PopWord(m.os);
    Yield(m, Thread(os1, m.pc - 2, m.rts, m.e, m.channels[id := value], m.sleep))
  }

  /** The first queued thread, front to back, that is sending on channel
      `id`; `|q|` when there is none. */
  function FirstSender(q: seq<Thread>, id: int): (i: nat)
    ensures i <= |q|
    ensures i < |q| ==> id in q[i].channels
    ensures forall j :: 0 <= j < i ==> id !in q[j].channels
    decreases |q|
  {
    if q == [] then 0
    else if id in q[0].channels then 0
    else 1 + FirstSender(q[1..], id)
  }

  /** RECV pops the channel id. If a queued thread is sending on it, its
      value is pushed, the entry is deleted and that thread's saved PC
      moves past its SEND; the receiver goes on. Otherwise the receiver
      saves itself with its PC set back to the LD before the RECV, and
      yields. */
  function ExecRecv(m: Machine): (r: Result<Machine, Fault>)
    ensures r.Ok? ==> Keeps(m, r.value)
  {
    var (os1, id) := PopWord(m.os);
    var i := FirstSender(m.queue, id);
    if i < |m.queue| then ReceiveFrom(m.(os := os1), id, i)
    else Ok(Yield(m, Thread(os1, m.pc - 2, m.rts, m.e, m.channels, m.sleep)))
  }

  /** The receiver, its channel id popped, takes the value queued thread
      `i` is sending on the channel and releases that thread. */
  function ReceiveFrom(m: Machine, id: int, i: nat): (r: Result<Machine, Fault>)
    requires i < |m.queue| && id in m.queue[i].channels
    ensures r.Ok? ==> Keeps(m, r.value) && r.value.pc == m.pc && r.value.e == m.e && r.value.rts == m.rts
    ensures r.Ok? ==> |r.value.os| == |m.os| + 1 && r.value.os[..|m.os|] == m.os
    ensures r.Ok? ==> r.value.queue == m.queue[i := m.queue[i].(channels := m.queue[i].channels - {id}, pc := m.queue[i].pc + 2)]
  {
    var t := m.queue[i];
    var (h, a) :- ToAddress(m.heap, GcOf(m), Roots(m), m.lits, t.channels[id]);
    Ok(m.(heap := h, os := m.os + [a], queue := m.queue[i := t.(channels := t.channels - {id}, pc := t.pc + 2)]))
  }

  /** GOCALL: the callee's arguments move into a fresh frame, and a new
      thread that starts at the closure's entry in the closure's
      environment extended by the frame joins the back of the queue. The
      callee itself stays on the spawner's OS. A Callframe is allocated and
      discarded, while the new thread's environment is not yet rooted. The
      spawner skips the next instruction, the ENDGO after the GOCALL. */
  function ExecGoCall(m: Machine, arity: nat): (r: Result<Machine, Fault>)
    ensures r.Ok? ==> Keeps(m, r.value)
    ensures r.Ok? ==> r.value.pc == m.pc + 1 && r.value.e == m.e && r.value.rts == m.rts
    ensures r.Ok? && arity <= |m.os| ==> r.value.os == m.os[..|m.os| - arity]
    ensures r.Ok? ==> && |r.value.queue| == |m.queue| + 1 && r.value.queue[..|m.queue|] == m.queue
                      && var t := r.value.queue[|m.queue|];
                         t.os == [] && t.rts == [] && t.pc == Pc(m.heap, Peek(m.os, arity))
                         && t.channels == map[] && t.sleep == 0
  {
    var (h3, os1, e) :- SpawnFrame(m, arity);
    var m1 := m.(heap := h3, os := os1);
    var (h4, _) :- AllocateCallframe(h3, GcOf(m1), Roots(m1), m.e, m.pc);
    var t := Thread([], Pc(m.heap, Peek(m.os, arity)), [], e, map[], 0);
    assert (m.queue + [t])[..|m.queue|] == m.queue;
    Ok(m1.(heap := h4, queue := m.queue + [t], pc := m.pc + 1))
  }

  /** The first half of GOCALL: the arguments move into a fresh frame and
      the closure's environment is extended by it for the new thread; the
      callee stays on the stack. */
  function SpawnFrame(m: Machine, arity: nat): (r: Result<(Heap, seq<int>, int), Fault>)
    ensures r.Ok? && arity <= |m.os| ==> r.value.1 == m.os[..|m.os| - arity]
  {
    var fun := Peek(m.os, arity);
    var (h1, f) :- AllocateFrame(m.heap, GcOf(m), Roots(m), arity);
    var (h2, os1) := PopArgs(h1, f, m.os, arity);
    assert arity <= |m.os| ==> os1 == m.os[..|m.os| - arity];
    var m1 := m.(heap := h2, os := os1);
    var (h3, e) :- Extend(h2, GcOf(m1), Roots(m1), f, Child(h2, fun, 0));
    Ok((h3, os1, e))
  }

  /** CALL (`tail` false) and TAIL_CALL (`tail` true). A builtin is applied
      directly. Otherwise the arguments move into a fresh frame, the callee
      is popped, E becomes the closure's environment extended by the frame
      and PC the closure's entry. CALL then pushes a Callframe holding the
      return address and the new E: the caller's E is not saved. */
  function ExecCall(m: Machine, arity: nat, tail: bool): (r: Result<Machine, Fault>)
    ensures r.Ok? ==> Keeps(m, r.value)
    ensures r.Ok? && !HasTag(m.heap, Peek(m.os, arity), BuiltinTag) ==>
              && r.value.pc == Pc(m.heap, Peek(m.os, arity))
              && r.value.queue == m.queue && r.value.mutexes == m.mutexes
              && (arity < |m.os| ==> r.value.os == m.os[..|m.os| - arity - 1])
              && (tail ==> r.value.rts == m.rts)
              && (!tail ==> |r.value.rts| == |m.rts| + 1 && r.value.rts[..|m.rts|] == m.rts)
  {
    var fun := Peek(m.os, arity);
    if HasTag(m.heap, fun, BuiltinTag) then ApplyBuiltin(m, Byte1(m.heap, fun))
    else
      var m2 :- EnterClosure(m, arity);
      if tail then Ok(m2.(pc := Pc(m.heap, fun)))
      else PushReturn(m2, m.pc, Pc(m.heap, fun))
  }

  /** CALL's `push(RTS, heap_allocate_Callframe(E, PC))` after E has become
      the callee's, then the jump to the callee's entry. */
  function PushReturn(m: Machine, pc: int, entry: int): (r: Result<Machine, Fault>)
    ensures r.Ok? ==> r.value == m.(heap := r.value.heap, rts := r.value.rts, pc := entry)
    ensures r.Ok? ==> |r.value.rts| == |m.rts| + 1 && r.value.rts[..|m.rts|] == m.rts
  {
    var (h, c) :- AllocateCallframe(m.heap, GcOf(m), Roots(m), m.e, pc);
    assert (m.rts + [c])[..|m.rts|] == m.rts;
    Ok(m.(heap := h, rts := m.rts + [c], pc := entry))
  }

  /** What CALL and TAIL_CALL do to a closure before the return address:
      the arguments move into a fresh frame, the callee leaves the stack,
      and E becomes the closure's environment extended by the frame. */
  function EnterClosure(m: Machine, arity: nat): (r: Result<Machine, Fault>)
    ensures r.Ok? ==> r.value == m.(heap := r.value.heap, os := r.value.os, e := r.value.e)
    ensures r.Ok? && WellFormed(m.heap) ==> WellFormed(r.value.heap)
    ensures r.Ok? && arity < |m.os| ==> r.value.os == m.os[..|m.os| - arity - 1]
  {
    PopBelowArguments(m.os, arity);
    var fun := Peek(m.os, arity);
    var (h1, f) :- AllocateFrame(m.heap, GcOf(m), Roots(m), arity);
    var (h2, os1) := PopArgs(h1, f, m.os, arity);
    var m1 := m.(heap := h2, os := PopWord(os1).0);
    var (h3, e) :- Extend(h2, GcOf(m1), Roots(m1), f, Child(h2, fun, 0));
    Ok(m1.(heap := h3, e := e))
  }

  /** RESET: a thread with an empty RTS has finished its goroutine, and the
      front thread resumes without the finished one being saved. Otherwise
      E and PC come from the topmost Callframe. */
  function ExecReset(m: Machine): (r: Result<Machine, Fault>)
    ensures m.rts == [] ==> r == Dequeue(m)
    ensures r.Ok? ==> Keeps(m, r.value)
  {
    if m.rts == [] then Dequeue(m)
    else
      var (rts1, c) :- PopToCallframe(m.heap, m.rts, 0);
      Ok(m.(rts := rts1, e := Child(m.heap, c, 0), pc := Pc(m.heap, c)))
  }

  // ---------------------------------------------------------------------
  // Builtins

  /** A builtin's effect: the machine after it, its result and whether it
      switched threads. */
  function Builtin(m: Machine, id: int): (r: Result<(Machine, int, bool), Fault>)
    ensures r.Ok? ==> Keeps(m, r.value.0)
  {
    var (os1, a) := PopWord(m.os);
    if id == 0 then
      // println
      var v :- ReadValue(m.heap, a);
      Ok((m.(os := os1, outputs := m.outputs + [Render(v)]), a, false))
    else if id == 1 then
      // sleep: the first call saves the duration and requeues the thread
      // at the LD of the callee; the calls after it count down.
      if m.sleep == 0 then
        var d :- ReadValue(m.heap, a);
        if !d.JNum? then Err(OperatorError(NotModelled))
        else Ok((YieldInBuiltin(m, Thread(PopWord(os1).0, m.pc - 3, m.rts, m.e, m.channels, d.n)), NoValue, true))
      else if m.sleep == 1 then Ok((m.(os := os1, sleep := 0), NoValue, false))
      else Ok((YieldInBuiltin(m, Thread(PopWord(os1).0, m.pc - 3, m.rts, m.e, m.channels, m.sleep - 1)), NoValue, true))
    else if id == 2 then
      // error
      var v :- ReadValue(m.heap, a);
      Err(ProgramError(v))
    else if id == 3 then
      // is_null
      Ok((m.(os := os1), if HasTag(m.heap, a, NullTag) then m.lits.trueNode else m.lits.falseNode, false))
    else if id == 4 then
      // Lock
      if a in m.mutexes && m.mutexes[a] then
        Ok((YieldInBuiltin(m, Thread(os1, m.pc - 3, m.rts, m.e, m.channels, m.sleep)), NoValue, true))
      else Ok((m.(os := os1, mutexes := m.mutexes[a := true]), NoValue, false))
    else if id == 5 then
      // Unlock
      if a in m.mutexes && m.mutexes[a] then Ok((m.(os := os1, mutexes := m.mutexes[a := false]), NoValue, false))
      else Err(MutexAlreadyUnlocked)
    else Err(UnknownBuiltin(id))
  }

  /** `apply_builtin`: run the builtin, pop the callee and push the result,
      or, after a context switch, pop the 0 the switch pushed. */
  function ApplyBuiltin(m: Machine, id: int): (r: Result<Machine, Fault>)
    ensures r.Ok? ==> Keeps(m, r.value)
  {
    var (m1, result, switched) :- Builtin(m, id);
    if switched then Ok(m1.(os := PopWord(m1.os).0))
    else Ok(m1.(os := PopWord(m1.os).0 + [result]))
  }

  /** One instruction, with PC already past it. */
  function Execute(m: Machine, ins: Instr): (r: Result<Machine, Fault>)
    ensures r.Ok? ==> Keeps(m, r.value)
  {
    match ins
    case Ldc(v) => ExecLdc(m, v)
    case Unop(sym) => ExecUnop(m, sym)
    case Binop(sym) => ExecBinop(m, sym)
    case Pop => Ok(m.(os := PopWord(m.os).0))
    case Jof(addr) => Ok(ExecJof(m, addr))
    case Goto(addr) => Ok(m.(pc := addr))
    case EnterScope(num) => ExecEnterScope(m, num)
    case ExitScope => Ok(ExecExitScope(m))
    case Ld(p) => ExecLd(m, p)
    case Assign(p) => Ok(ExecAssign(m, p))
    case Ldf(arity, addr) => ExecLdf(m, arity, addr)
    case Call(arity) => ExecCall(m, arity, false)
    case TailCall(arity) => ExecCall(m, arity, true)
    case Reset => ExecReset(m)
    case Done => Err(NoMicrocode("DONE"))
    case Channel(p) => Ok(ExecChannel(m, p))
    case Mutex(p) => Ok(ExecMutex(m, p))
    case EndGo => ExecEndGo(m)
    case Send(_, value) => Ok(ExecSend(m, value))
    case Recv => ExecRecv(m)
    case GoCall(arity) => ExecGoCall(m, arity)
  }

  /** One pass of `run`'s loop: at the start of a quantum the front thread
      is dequeued; the instruction at PC runs; at the end of a quantum the
      running thread is requeued. The source tests the instruction object
      against the string "ENDGO" before requeueing, which always differs,
      so the running thread is requeued at the end of every quantum, even
      when that instruction was ENDGO. */
  function Cycle(m: Machine): (r: Result<Machine, Fault>)
    ensures r.Ok? ==> r.value.code == m.code && r.value.tick == m.tick + 1
    ensures m.tick % Quantum == 0 && m.queue == [] ==> r == Err(NoThreadToRun)
    ensures m.tick % Quantum == 0 && r.Ok? ==> 0 <= m.queue[0].pc < |m.code|
    ensures r.Ok? && r.value.tick % Quantum == 0 ==>
              r.value.queue != [] && r.value.queue[|r.value.queue| - 1] == Save(r.value)
  {
    var m1 :- if m.tick % Quantum == 0 then Dequeue(m) else Ok(m);
    var m2 := m1.(tick := m1.tick + 1);
    if !(0 <= m2.pc < |m2.code|) then Err(PcOutOfRange(m2.pc))
    else
      var m3 :- Execute(m2.(pc := m2.pc + 1), m2.code[m2.pc]);
      Ok(if m3.tick % Quantum == 0 then Requeue(m3) else m3)
  }

  /** `run`'s loop with at most `fuel` passes; it stops when the running
      thread's PC is at DONE. */
  function Run(m: Machine, fuel: nat): (r: Outcome<Machine>)
    ensures r.Halted? ==> 0 <= r.final.pc < |r.final.code| && r.final.code[r.final.pc] == Done
    ensures r.Halted? ==> r.final.code == m.code
    ensures r.OutOfFuel? ==> r.last.code == m.code
    decreases fuel
  {
    if !(0 <= m.pc < |m.code|) then Failed(PcOutOfRange(m.pc))
    else if m.code[m.pc] == Done then Halted(m)
    else if fuel == 0 then OutOfFuel(m)
    else
      match Cycle(m)
      case Err(f) => Failed(f)
      case Ok(m') => Run(m', fuel - 1)
  }

  /** `initialize_machine`: a heap of `slots` slots, the start-up nodes
      (during start-up the bottom is undefined, so a collection frees
      nothing), and the main thread, which starts at address 0 in the
      global environment, queued. The bottom is the free-list head after
      start-up. */
  function Init(code: seq<Instr>, slots: nat): (r: Result<Machine, Fault>)
    requires slots >= 1
    ensures r.Ok? ==> && r.value.queue == [Thread([], 0, [], r.value.e, map[], 0)]
                      && r.value.bottom == r.value.heap.free && r.value.tick == 0
                      && r.value.heap.size == NodeSize * slots
  {
    var h0 := InitHeap(slots);
    var (h, lits, e) :- Boot(h0, KeepLowMarks(h0.size), BuiltinCount);
    Ok(Machine(code, h, h.free, lits, [], 0, e, [], map[], 0,
               [Thread([], 0, [], e, map[], 0)], map[], 0, [], 0))
  }
}
