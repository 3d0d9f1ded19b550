# A Dafny model of the go-compiler virtual machines

The repository compiles a small subset of Go, given as a JSON syntax tree,
into instructions for a stack machine written in JavaScript. Every value
lives in a heap of ten-word nodes. Free nodes are linked into a free list.
A node is allocated from the head of that list. When the list is empty, a
mark-and-sweep collector runs first. It marks from the machine's registers
and sweeps everything above a bottom address.

The repository holds three versions of this machine, and the model
covers all three:

- **server/go_vm.js** is the main one. It compiles Go syntax: `if`, `for`,
  functions, blocks, `var`, channels created with `make(chan …)`,
  `sync.Mutex`, `go f(…)`, `ch <- v`, `<-ch`. Its machine runs goroutines
  as threads in a ready queue, ten instructions per turn. The collector's
  roots are the running thread's registers, every queued thread's
  registers, and the nodes an environment extension is working on.
- **compiler/mark_sweep_gc.js** compiles the source-language component
  tree (`lit`, `nam`, `cond`, `while`, `lam`, `blk`, `ret`, `fun`, …). Its
  machine has one thread, the pair builtins and `display`. Its collector
  is the same mark-sweep, rooted at OS, E, RTS and the nodes an extension
  is working on.
- **compiler/compiler.js** is an earlier Go compiler with one thread and
  `println`. Its collector clears the marks below the bottom after every
  collection. It pins a new frame only when it sees the free list empty.

## How the model is organised

- `Heap` holds the slots, the free list, node headers and children.
  `Collector` is mark and sweep. `Allocator` is `heap_allocate`. `Nodes`
  holds the node constructors and environment access.
- `JsValues`, `Values` and `Operators` cover the JavaScript values, the
  conversions between nodes and values, and the operator tables.
- `CompileEnv` is the compile-time environment. `Code` holds the
  instructions and the jump-target discipline.
- One compiler module per version: `GoVmCompiler`, `MarkSweepCompiler` and
  `EarlyCompiler`. They work over `GoAst` and `SourceAst`.
- One machine module per version: `GoMachine`, `MarkSweepMachine` and
  `EarlyMachine`. `MachineCore` holds the parts the machines share. Each
  machine has a facts module that relates several steps.

The heap is a map from slot address to slot. A slot is either free, with
its link, or a node. A node has its tag, size, mark bit, one-byte field,
two-byte field, and nine payload words. Words are unbounded integers.

Compilation is a pure function. It takes a syntax tree, a compile-time
environment and the write counter, and returns the instruction list or a
compile error. Jump targets are computed from the lengths of the compiled
parts.

Each machine is a record of its registers and heap. One instruction is
one function from machine to machine, or to a fault where the JavaScript
code throws. `run` is a loop bounded by fuel.

Liveness is proved relative to the roots, for a heap whose marked nodes
are closed under children. Every node reachable from the registers an
allocation passes as roots then keeps its contents through that
allocation, including any collection it runs. compiler.js clears every
mark after a collection, so its heaps always qualify. go_vm and
mark_sweep_gc keep the marks below the bottom. For them the model
carries a stronger invariant, `LowMarksClosed`: the marks are closed,
only nodes below the bottom are marked, and those nodes only point
below the bottom. A collection, an allocation and a child write into a
node above the bottom all keep it. An ASSIGN into a frame below the
bottom (a builtin's or constant's name) can break it, and then a
reachable node can be swept. The roots each machine passes are
modelled as that machine's code computes them, quirks included:

- go_vm's CALL pushes the Callframe after it has replaced E.
- mark_sweep_gc's CALL allocates the Callframe while the argument frame
  is in no register.
- compiler.js pins the frame only when the free list is empty.

The model proves what each of these does.

I/O is a parameter. Printed output is collected in the machine state: the
`outputs` or `shown` field.

## Model

| member | source | states |
|---|---|---|
| Heap.NumberOfChildren | server/go_vm.js:204-208 | A number node has no children. Every other node has one child fewer than its size. Only a node has children. |
| Heap.Children | server/go_vm.js:185-187 | A node's children are its first `size - 1` payload words, in order. A number node has none. |
| Heap.SetChild | server/go_vm.js:189-190 | Writing child `i` changes that one word of that one slot. Every other slot is untouched, as are the heap size and the free-list head. |
| Heap.Child | server/go_vm.js:186-187 | Reading a child at an address with no slot gives the no-value word, never a word of another slot. |
| Heap.ChildAfterSetChild | server/go_vm.js:186-190 | A child read after a child write sees the written word at the written slot and index, and the old word everywhere else. |
| Heap.SetByte1 | server/go_vm.js:211-212 | Writing the one-byte field of a node changes nothing else. Writing it on a non-node changes nothing at all. |
| Heap.SetPc | server/go_vm.js:218-219 | Writing the two-byte field of a node changes nothing else. |
| Heap.SetByte1Keeps | server/go_vm.js:211-212 | Writing the one-byte field keeps the heap well formed and keeps the node's children. |
| Heap.SetPcKeeps | server/go_vm.js:218-219 | Writing the two-byte field keeps the heap well formed and keeps the node's children. |
| Heap.FreeListSlotsAreFree | server/go_vm.js:165-169 | Every slot on a free list is a free slot, never a node. |
| Heap.FreeListFrame | server/go_vm.js:88-93 | A free list stays a free list under any change that leaves its slots alone. |
| Heap.SlotRun | server/go_vm.js:1331-1336 | The slot addresses from slot `i` to slot `n` are the multiples of ten in that range, in increasing order. |
| Heap.InitHeap | server/go_vm.js:1321-1338 | The fresh heap has `n` slots of ten words and the free list starts at 0. No slot is a node. |
| Heap.InitFreeList | server/go_vm.js:1331-1338 | Initialisation links every slot, in address order, into one free list that ends with -1. |
| Heap.InitFreeListFrom | server/go_vm.js:1331-1338 | The suffix of the initial free list from slot `i` on is itself a free list. |
| Heap.TakeFree | server/go_vm.js:88-93 | Allocation from a non-empty list returns the head as a fresh node with the given tag and size, unmarked. The new head is the old head's link. Only the head slot changes. Allocation fails exactly when the head is no slot. |
| Heap.TakeFreeKeepsFreeList | server/go_vm.js:88-93 | Taking the head of a free list `xs` returns `xs[0]` and leaves `xs[1..]` as the free list. |
| Heap.TakeFreeWellFormed | server/go_vm.js:88-93 | Taking the head keeps the heap well formed. |
| Heap.FreeSlotAt | server/go_vm.js:165-169 | `free_node` makes the slot free, links it to the old head and makes it the new head. No other slot changes. |
| Heap.FreeSlotAtExtendsFreeList | server/go_vm.js:165-169 | Freeing a slot in front of a free list `xs` gives the free list `[a] + xs`. |
| Collector.SetMark | server/go_vm.js:137 | Setting the mark bit marks that node and changes no other mark and no contents. |
| Collector.SameButMarksChildren | server/go_vm.js:132-146 | Heaps that differ only in mark bits have the same children everywhere. |
| Collector.Mark | server/go_vm.js:132-146 | `mark` only sets mark bits, and never clears one or changes a tag. It marks its argument when that is a node, and skips any other word. Every node it newly marks has all its children marked. This is the intended behaviour; the source's handling of `undefined` is under Findings. |
| Collector.MarkEach | server/go_vm.js:117-123 | Marking every root marks each root that is a node. Like `mark`, it only sets bits, and what it newly marks is closed under children. |
| Collector.MarkEachKeepsClosed | server/go_vm.js:117-123 | If the marked nodes were closed under children before marking the roots, they still are afterwards. |
| Collector.ClosedMarksPath | server/go_vm.js:132-146 | In a heap whose marks are closed under children, every node on a path from a marked node is marked. |
| Collector.MarkEachMarksReachable | server/go_vm.js:117-146 | Starting from closed marks, every node reachable from the roots is marked after the mark phase. |
| Collector.SweptStep | server/go_vm.js:148-160 | The sweep visits exactly the slots from the bottom up to the heap size, one slot of ten words at a time. |
| Collector.SweepFrom | server/go_vm.js:148-160 | The sweep keeps the heap size and the set of slots. |
| Collector.Unmark | server/go_vm.js:155 | Clearing the mark of a marked node changes nothing else. |
| Collector.SweepFromEffect | server/go_vm.js:148-160 | After the sweep, a slot below the bottom is unchanged. A marked node from the bottom up is kept, with its mark cleared. An unmarked slot there is free. |
| Collector.SweepLeavesNoMark | server/go_vm.js:148-160 | No slot the sweep visits is left marked. |
| Collector.FreedFromIsUnmarked | server/go_vm.js:148-160 | The slots the sweep frees are exactly the unmarked slots from the bottom up. |
| Collector.SweepFreeList | server/go_vm.js:148-169 | The sweep pushes the unmarked slots onto the front of the free list, highest address first. |
| Collector.SweepSlotFreeList | server/go_vm.js:151-156 | One sweep step pushes the slot onto the free list exactly when it is unmarked. |
| Collector.MarkSweep | server/go_vm.js:117-130 | A collection keeps the heap size and the set of slots. |
| Collector.ClearMarksBelow | compiler/compiler.js:191-202 | `flip_built_in_tag` clears the marks of the nodes below the bottom and changes nothing else. |
| Collector.MarkSweepClear | compiler/compiler.js:123-128 | compiler.js's collection (mark, sweep, clear low marks) keeps the heap size and the set of slots. |
| Collector.MarkSweepKeepsReachable | server/go_vm.js:117-160 | When the marks are closed before a collection, every node reachable from the roots survives it with its contents. Roots that are not nodes, `undefined` among them, are skipped, as the Findings row explains. |
| Collector.MarkSweepClearKeepsReachable | compiler/compiler.js:123-213 | compiler.js's collection, run on a heap with no marks, keeps every node reachable from the roots with its contents. |
| Collector.MarkSweepFreeList | server/go_vm.js:117-160 | After a collection, the free list is exactly the slots the sweep freed. |
| Collector.MarkSweepClearLeavesNoMark | compiler/compiler.js:177-202 | compiler.js's collection leaves no node marked, so the marks are trivially closed for the next collection. |
| Collector.MarkSweepKeepsLowMarks | server/go_vm.js:148-160 | go_vm and mark_sweep_gc never clear a mark set below the bottom. |
| Collector.StaleMarkHidesChild | server/go_vm.js:132-160 | Counterexample: a node below the bottom that stays marked is not traced again. A reachable child of it above the bottom is swept. |
| Collector.MarkRootAsWritten | server/go_vm.js:132-146 | `mark` as written, applied to a root word: a node is marked as by `Mark`. For `undefined` with the False node in slot 0, slot 0's tag becomes True and slot 0 is marked, and no other slot changes. Otherwise `undefined` changes nothing. |
| Collector.MarkSweepKeepsLowMarksClosed | server/go_vm.js:117-160 | A collection keeps `LowMarksClosed`: the marks stay closed, only nodes below the bottom stay marked, and those nodes point only below the bottom. |
| Collector.AssignBelowBottomOpensMarks | server/go_vm.js:1119 | Counterexample: writing a child above the bottom into a marked frame below the bottom, as an ASSIGN to a builtin's name does, leaves a heap whose marks are not closed. |
| Allocator.Collect | server/go_vm.js:83-86 | The collection an allocation runs keeps the heap size and the set of slots. It clears low marks for compiler.js and keeps them for the other two versions. |
| Allocator.Allocate | server/go_vm.js:77-94 | A node larger than ten words is refused. A non-empty free list gives its head without collecting. A failure is either the size limit or exhaustion. A success is a fresh unmarked node of the requested tag and size. |
| Allocator.Attempt | server/go_vm.js:83-93 | Collection happens only when the list is empty. Exhaustion is the variant's fault: mark_sweep_gc's "heap memory exhausted", compiler.js's "Out of memory". go_vm's `error` is not defined, so there it stops the run with a ReferenceError instead of a message. |
| Allocator.AllocateCollects | server/go_vm.js:83-93 | From an empty list, allocation succeeds exactly when the collection leaves a non-empty list. It then takes that list's head. |
| Allocator.AllocateKeepsReachable | server/go_vm.js:77-160 | From a well-formed heap whose marks are closed (`Closed`), every node reachable from the roots keeps its contents through an allocation. The node returned was not reachable. The free list afterwards is the one the model predicts. `AllocateKeepsLowMarksClosed` carries the closed marks from one allocation to the next. |
| Allocator.AllocateAfterCollection | server/go_vm.js:83-93 | The same as `Allocator.AllocateKeepsReachable` when the free list is empty and the allocation collects, again from closed marks. |
| Allocator.CollectFreeList | server/go_vm.js:117-130 | The list a collection leaves holds exactly the freed slots. When the marks were closed before it, its head, if any, was unreachable. |
| Allocator.CollectKeepsReachable | server/go_vm.js:117-130 | A collection that starts from closed marks keeps every node reachable from the roots, contents and all. |
| Allocator.CollectWellFormed | server/go_vm.js:117-160 | A collection keeps the heap well formed. |
| Allocator.AllocateKeepsLowMarksClosed | server/go_vm.js:77-160 | An allocation with the collector of go_vm and mark_sweep_gc keeps `LowMarksClosed`, and the node it returns lies at or above the bottom. |
| Allocator.TakeFreeKeepsLowMarksClosed | server/go_vm.js:88-93 | Taking the head of a non-empty free list succeeds, returns a slot at or above the bottom, and keeps `LowMarksClosed`. |
| Allocator.SetChildKeepsLowMarksClosed | server/go_vm.js:189-190 | Writing any word as a child of a node at or above the bottom keeps `LowMarksClosed`. |
| Allocator.AllocateWellFormed | server/go_vm.js:77-94 | An allocation keeps the heap well formed. |
| Allocator.AllocateFreeList | server/go_vm.js:88-93 | From a non-empty free list `xs`, allocation leaves `xs[1..]` as the free list. |
| Allocator.AllocateKeepsLowNodes | server/go_vm.js:148-160 | No allocation returns a slot below the bottom or disturbs a node there, the start-up nodes included. |
| Allocator.CollectionKeepsLowNodes | server/go_vm.js:148-160 | The same holds when the allocation collects. |
| Allocator.CollectKeepsLowNodes | server/go_vm.js:148-160 | A collection never frees or changes a node below the bottom. |
| Allocator.ClearingAllocateKeepsNoMarks | compiler/compiler.js:117-139 | In compiler.js, an allocation on an unmarked heap leaves the heap unmarked. |
| Allocator.TakeFreeKeepsNoMarks | compiler/compiler.js:133-138 | Taking the head of the free list sets no mark. |
| Nodes.AllocateWith | server/go_vm.js:77-94 | A node with given payload words: refused above ten words, fails only by exhaustion, and otherwise is a new node of that tag and size. |
| Nodes.AllocateWithFills | server/go_vm.js:312-320 | The new node's first payload words are the ones given. The allocation keeps the heap well formed. |
| Nodes.AllocateWithFromList | server/go_vm.js:88-93 | From a free list `xs`, the node is `xs[0]`, was no node before, and every other node is kept. |
| Nodes.AllocateNumber | server/go_vm.js:462-466 | A number node has size 2, holds `n` in its first word and has no children. |
| Nodes.AllocatePair | server/go_vm.js:447-452 | A pair node has size 3 and exactly the children `[hd, tl]`. |
| Nodes.AllocateLiteral | server/go_vm.js:282-288 | A literal node (true, false, null, unassigned, undefined) has size 1 and no children. |
| Nodes.AllocateBuiltin | server/go_vm.js:297-301 | A builtin node has size 1 and holds the id, modulo 256, in its one-byte field. |
| Nodes.AllocateClosure | server/go_vm.js:312-320 | A closure node holds its arity modulo 256 and its entry address modulo 65536, and has one child, its environment. |
| Nodes.AllocateBlockframe | server/go_vm.js:334-340 | A block frame has exactly one child, the environment it saves. |
| Nodes.AllocateCallframe | server/go_vm.js:351-358 | A call frame holds the return address modulo 65536 and exactly one child, the environment it saves. |
| Nodes.AllocateFrame | server/go_vm.js:372-373 | A frame for `n` values has size `n + 1`. More than nine values is refused. |
| Nodes.AllocateEnvironment | server/go_vm.js:392-393 | An environment of `k` frames has size `k + 1`. More than nine frames is refused. |
| Nodes.CopyWords | server/go_vm.js:424-426 | Copying the first `n` children of one node into another changes only those words of the target. |
| Nodes.ExtendEnv | server/go_vm.js:417-429 | Extension allocates an environment one frame larger, with the frame and the old environment pinned. It refuses an environment that would exceed ten words. |
| Nodes.FillEnvironment | server/go_vm.js:423-427 | Filling the new environment changes only that node's words. |
| Nodes.FrameRootOnlyMattersForCollection | compiler/compiler.js:460-472 | Pinning the frame only when the list is empty gives the same result as pinning it always. |
| Nodes.PinnedIsReachable | server/go_vm.js:104-115 | A pinned node is a root, and so is reachable. |
| Nodes.ExtendAppendsFrame | server/go_vm.js:417-429 | The new environment's frames are the old environment's frames followed by the new frame. When the marks were closed, everything reachable from the roots and the pinned nodes is kept. |
| Nodes.ExtendEnvFills | server/go_vm.js:417-429 | Extension is an allocation followed by copying the old frames and writing the new frame last. |
| Nodes.CopiedFramesThenFrame | server/go_vm.js:423-427 | After the fill, the new environment's children are the old environment's children plus the frame. |
| Nodes.SetValue | server/go_vm.js:403-408 | Assigning through an environment keeps the heap size, the free-list head, the slots and well-formedness. |
| Nodes.SetThenGet | server/go_vm.js:398-408 | Reading back an assigned position gives the value. A position in another frame or at another index is unchanged. |
| Nodes.GetValue | server/go_vm.js:398-402 | When the position names a variable (the environment's child `frame` is a frame with more than `index` children), the value read is that frame's child `index`. |
| JsValues.ApplyBinOp | server/go_vm.js:1011-1028 | `+` succeeds on two numbers. Arithmetic gives numbers and comparisons give booleans. `==`, `!=`, `&&` and `\|\|` never fail. `&&` and `\|\|` return one of their operands by truthiness. |
| JsValues.EqualityOperators | server/go_vm.js:1024-1025 | `==` and `!=` always disagree. `==` is symmetric and reflexive on everything but pairs. |
| JsValues.ApplyUnOp | server/go_vm.js:1036-1039 | `!` negates truthiness and never fails. `-` succeeds exactly on numbers. |
| JsValues.Digits | server/go_vm.js:724-730 | The decimal form of a natural number is a non-empty string of digits. |
| JsValues.DigitsRoundTrip | server/go_vm.js:724-730 | Reading back the decimal form of `n` gives `n`. |
| JsValues.NumberStringRoundTrip | server/go_vm.js:546-551 | The printed form of an integer reads back as that integer, with a leading `-` exactly for negative ones. |
| JsValues.Render | server/go_vm.js:546-551 | `String` of a value as `println` records it: a non-negative number gives decimal digits that parse back to it, a negative one `-` followed by the digits of its magnitude, a boolean `true` or `false`, a string itself. |
| Values.ToAddress | server/go_vm.js:498-514 | Converting a value to a node keeps the heap's size and slots. It fails only by exhaustion, or on a string. On a string go_vm also stops; mark_sweep_gc and compiler.js do not (see Left out). |
| Values.FromAddress | server/go_vm.js:474-496 | Every node but a pair converts to some value. A pair value only comes from a pair node. A word that is not a node reads as the "unknown word tag" string (see Left out). |
| Values.UndefinedRootReadsFalseAsTrue | server/go_vm.js:132-146 | Counterexample: slot 0 holds False and reads as `false`. After `mark` as written visits `undefined` it reads as `true`. After the intended `mark` it still reads as `false`. |
| Values.RepresentsKept | server/go_vm.js:474-496 | What a node represents survives any change that keeps the nodes. |
| Values.FromRepresented | server/go_vm.js:474-496 | A node that represents `v` converts back to `v`. |
| Values.RoundTrip | server/go_vm.js:474-514 | With enough free slots, converting a storable value to a node and back gives the same value. |
| Values.ToAddressRepresents | server/go_vm.js:498-514 | With enough free slots, the conversion succeeds, its node represents the value, and it uses exactly `NodesNeeded(v)` slots of the free list. |
| Values.LiteralRepresents | server/go_vm.js:499-507 | Booleans, undefined and null convert to the canonical literal nodes without allocating. |
| Values.NumberRepresents | server/go_vm.js:504-505 | A number converts to one fresh number node. |
| Values.PairRepresents | server/go_vm.js:508-512 | A pair converts its head, then its tail, then allocates the pair node over both. |
| Values.AllocatePairFromList | server/go_vm.js:447-452 | From a free list `xs`, a pair node is allocated at `xs[0]` with children `[hd, tl]`. Every node is kept and `xs[1..]` is left. |
| Values.ToAddressPairSteps | server/go_vm.js:508-512 | Converting a pair converts its head first, then its tail, then allocates the pair. |
| Values.ValidLiteralsKept | server/go_vm.js:282-288 | The literal nodes stay valid through anything that keeps the nodes. |
| Code.TargetsJoin | server/go_vm.js:709-716 | Joining two pieces of code whose targets lie in a range keeps the targets in that range. |
| Code.WithinJoin | server/go_vm.js:709-716 | Two consecutive pieces that are each self-contained form a self-contained piece. |
| Code.BranchWithin | server/go_vm.js:769-782 | The `if` layout (condition, JOF, body, GOTO, else part) is self-contained when its parts are. |
| Code.LoopWithin | server/go_vm.js:783-793 | The loop layout (condition, JOF, body, POP, GOTO back, final instruction) is self-contained when its parts are. |
| Code.ClosureWithin | server/go_vm.js:835-852 | The closure layout (LDF, GOTO past the body, body, two closing instructions) is self-contained when the body is. |
| Code.FiveParts | server/go_vm.js:769-782 | Indexing into the five-part layout finds each part at its offset. |
| Code.TargetsPrefix | server/go_vm.js:1001-1006 | A prefix of code keeps its targets in range. |
| Code.NumberOf | server/go_vm.js:724-730 | On decimal digit strings, `Number(s)` succeeds and gives their value. Every other string, including the `0x`, `0o` and `0b` spellings that JavaScript also reads, is rejected (see Left out). |
| Code.NumberOfDigits | server/go_vm.js:724-730 | The decimal form of `n` reads back as `n`. |
| CompileEnv.ValueIndex | server/go_vm.js:532-537 | The index of the first occurrence of the name in the frame, or -1 exactly when it is absent. |
| CompileEnv.Position | server/go_vm.js:526-530 | The innermost frame binding the name and the first index in it. None exactly when no frame binds the name. |
| CompileEnv.Extend | server/go_vm.js:671-674 | Extension keeps the old frames and appends the new one last. |
| CompileEnv.Resolve | server/go_vm.js:526-530 | The compilers' lookup of a name succeeds exactly when some frame binds it, and gives its position. Otherwise it is a compile error. |
| CompileEnv.PositionInExtended | server/go_vm.js:526-537 | In an extended environment, a name of the new frame resolves there. Any other name resolves as before. |
| CompileEnv.PositionStable | server/go_vm.js:526-530 | Inner frames not binding a name do not change where it resolves. |
| CompileEnv.GlobalEnv | server/go_vm.js:676-682 | The global compile-time environment has two frames: the builtin names, then the constant names. |
| Operators.GoBinOp | server/go_vm.js:1011-1028 | go_vm's table knows exactly its thirteen symbols. `/` and `%` are reported as not modelled. |
| Operators.GoTableRoundTrip | server/go_vm.js:1011-1028 | Symbol to operator and back is the identity on go_vm's table. |
| Operators.SourceBinOp | compiler/mark_sweep_gc.js:922-938 | mark_sweep_gc's table knows exactly its symbols, with `===` and `!==` and without `&&` and `\|\|`. |
| Operators.EarlyBinOp | compiler/compiler.js:873-891 | compiler.js's table knows mark_sweep_gc's symbols plus `&&` and `\|\|`. |
| Operators.GoUnOp | server/go_vm.js:1036-1039 | go_vm's unary table knows exactly `-` and `!`. |
| Operators.SourceUnOp | compiler/compiler.js:899-902 | The other two tables know exactly `-unary` and `!`. |
| Operators.EarlyTableLacksGoSymbols | compiler/compiler.js:873-902 | compiler.js compiles Go's `==`, `!=` and `-` but its tables reject them. Every other Go binary symbol means the same in both tables. |
| GoAst.ParamNames | server/go_vm.js:840-847 | The parameter names are the first name of each field, in order. A missing list gives none, and a nameless field is rejected. |
| GoAst.FirstNames | server/go_vm.js:840-847 | The first name of each field, in order, exactly when every field has one. |
| GoVmCompiler.ScanAppend | server/go_vm.js:690-707 | Scanning a concatenation of statements scans each part in turn. |
| GoVmCompiler.ScanCounts | server/go_vm.js:690-707 | Scanning finds one local per declaring statement: every `var` declaration and every function declaration, in order. |
| GoVmCompiler.ScanForLocals | server/go_vm.js:690-707 | A block has at most one local per item, and a name is a local exactly when some item declares it with `var`, a general declaration or `func`. Nested blocks are not entered. |
| GoVmCompiler.Comp | server/go_vm.js:723-987 | The code of any construct contains no DONE, so only the DONE that `compile_program` appends can stop `run`. |
| GoVmCompiler.CompileProgram | server/go_vm.js:1397-1406 | A compiled program ends in DONE and has no DONE before its last instruction. |
| GoVmCompiler.SendValue | server/go_vm.js:880-893 | A sent `true` or `false` identifier is sent as that boolean, and a decimal literal as its number. Compilation succeeds exactly in those two cases. |
| GoVmCompiler.CompWithin | server/go_vm.js:723-987 | Every construct compiles to self-contained code. Each jump and closure address lands inside the construct's code or just after it. |
| GoVmCompiler.UnaryWithin | server/go_vm.js:742-763 | Unary expressions, receives included, compile to self-contained code. |
| GoVmCompiler.BinaryWithin | server/go_vm.js:764-768 | Binary expressions compile to self-contained code. |
| GoVmCompiler.SelectorWithin | server/go_vm.js:815-818 | Selector expressions compile to self-contained code. |
| GoVmCompiler.CallWithin | server/go_vm.js:794-808 | Calls compile to self-contained code. |
| GoVmCompiler.GoWithin | server/go_vm.js:819-834 | `go` statements compile to self-contained code. |
| GoVmCompiler.IfWithin | server/go_vm.js:769-782 | `if` statements compile to self-contained code. |
| GoVmCompiler.ForWithin | server/go_vm.js:783-793 | `for` loops compile to self-contained code. |
| GoVmCompiler.BlockWithin | server/go_vm.js:854-863 | Blocks compile to self-contained code. |
| GoVmCompiler.AssignWithin | server/go_vm.js:959-965 | Assignments compile to self-contained code. |
| GoVmCompiler.ReturnWithin | server/go_vm.js:966-969 | Returns compile to self-contained code. |
| GoVmCompiler.FuncDeclWithin | server/go_vm.js:970-986 | Function declarations compile to self-contained code. |
| GoVmCompiler.FuncProcWithin | server/go_vm.js:835-852 | Function literals compile to self-contained code. |
| GoVmCompiler.SpecWithin | server/go_vm.js:895-958 | `var` declarations, channels and mutexes compile to self-contained code. |
| GoVmCompiler.SeqWithin | server/go_vm.js:709-716 | Statement sequences compile to self-contained code. |
| GoVmCompiler.ItemsWithin | server/go_vm.js:709-716 | Each suffix of a sequence compiles to self-contained code. |
| GoVmCompiler.ProgramTargets | server/go_vm.js:1001-1006 | A compiled program ends with DONE, and every jump target in it lands on an instruction before DONE. |
| GoVmCompiler.IfLayout | server/go_vm.js:769-782 | The condition's code comes first, then a JOF to the else part, then the body, then a GOTO past the end, then the else part (empty when there is none). |
| GoVmCompiler.ForLayout | server/go_vm.js:783-793 | The condition, a JOF past the loop, the body, POP, a GOTO back to the condition's start, and a final LDC undefined. |
| GoVmCompiler.FuncDeclLayout | server/go_vm.js:970-986 | LDF of the entry two words on with the parameter count, a GOTO past the body, the body compiled in the parameter frame, LDC undefined, RESET, then ASSIGN to the declared name. |
| GoVmCompiler.BlockLayout | server/go_vm.js:854-863 | ENTER_SCOPE with the number of locals, the body compiled with the locals frame added, then EXIT_SCOPE. |
| GoVmCompiler.IdentLoads | server/go_vm.js:731-741 | An identifier compiles exactly when some frame binds it. It compiles to one LD of the innermost binding position. |
| GoVmCompiler.IntLiteral | server/go_vm.js:724-730 | An integer literal written in decimal compiles to LDC of its value. |
| GoVmCompiler.SendRecvLayout | server/go_vm.js:867-894 | A send compiles to an LD of the channel's position, then a SEND at that position. |
| GoVmCompiler.SeqUnfold | server/go_vm.js:709-716 | A sequence compiles to its first statement, a POP, then the rest. |
| GoVmCompiler.SeqShort | server/go_vm.js:709-716 | An empty sequence compiles to LDC undefined. A one-statement sequence compiles to that statement alone. |
| GoVmCompiler.ItemsEndInCall | server/go_vm.js:794-808 | A sequence whose last statement is a call ends with a CALL of that call's arity. |
| GoVmCompiler.CallEndsInCall | server/go_vm.js:794-808 | A call with an argument list ends with a CALL of that list's length. |
| GoVmCompiler.ProgramCallsMain | server/go_vm.js:1397-1406 | A program opens its outermost scope and ends with CALL 0 of `main`, EXIT_SCOPE and DONE. |
| MarkSweepCompiler.Flatten | compiler/mark_sweep_gc.js:746-751 | Opening up nested sequences leaves no sequence. |
| MarkSweepCompiler.DeclaredNamesAppend | compiler/mark_sweep_gc.js:746-751 | The declared names of a concatenation are those of each part in turn. |
| MarkSweepCompiler.ScanIsDeclaredNames | compiler/mark_sweep_gc.js:746-751 | `scan_for_locals` finds exactly the `let`, `const` and `fun` names of the flattened sequence, in order, without entering blocks. |
| MarkSweepCompiler.CondLayout | compiler/mark_sweep_gc.js:807-818 | The predicate, a JOF to the alternative, the consequent, a GOTO past the end, then the alternative. |
| MarkSweepCompiler.WhileLayout | compiler/mark_sweep_gc.js:819-829 | The predicate, a JOF past the loop, the body, POP, a GOTO back to the predicate, and LDC undefined. |
| MarkSweepCompiler.LamLayout | compiler/mark_sweep_gc.js:846-856 | LDF of the entry two words on, a GOTO past the body, the body compiled in the parameter frame, LDC undefined, then RESET. |
| MarkSweepCompiler.AppEndsInCall | compiler/mark_sweep_gc.js:830-836 | An application ends with a CALL of its argument count. |
| MarkSweepCompiler.RetLayout | compiler/mark_sweep_gc.js:882-890 | A return of an application turns its final CALL into a TAIL_CALL and adds nothing. Any other return appends RESET. |
| MarkSweepCompiler.SeqUnfold | compiler/mark_sweep_gc.js:753-761 | A sequence compiles to its first component, a POP, then the rest. |
| MarkSweepCompiler.SeqShort | compiler/mark_sweep_gc.js:753-761 | An empty sequence compiles to LDC undefined. A single component compiles to itself. |
| MarkSweepCompiler.CompWithin | compiler/mark_sweep_gc.js:767-901 | Every component compiles to self-contained code. |
| MarkSweepCompiler.UnaryWithin | compiler/mark_sweep_gc.js:780-783 | Unary operator combinations compile to self-contained code. |
| MarkSweepCompiler.BinaryWithin | compiler/mark_sweep_gc.js:784-788 | Binary operator combinations compile to self-contained code. |
| MarkSweepCompiler.AssignWithin | compiler/mark_sweep_gc.js:837-881 | Assignments, `let` and `const` compile to self-contained code. |
| MarkSweepCompiler.SeqWithin | compiler/mark_sweep_gc.js:753-761 | Sequences compile to self-contained code. |
| MarkSweepCompiler.ItemsWithin | compiler/mark_sweep_gc.js:753-761 | Each suffix of a sequence compiles to self-contained code. |
| MarkSweepCompiler.CondWithin | compiler/mark_sweep_gc.js:807-818 | Conditionals compile to self-contained code. |
| MarkSweepCompiler.WhileWithin | compiler/mark_sweep_gc.js:819-829 | Loops compile to self-contained code. |
| MarkSweepCompiler.AppWithin | compiler/mark_sweep_gc.js:830-836 | Applications compile to self-contained code. |
| MarkSweepCompiler.LamWithin | compiler/mark_sweep_gc.js:846-856 | Lambda expressions compile to self-contained code. |
| MarkSweepCompiler.BlkWithin | compiler/mark_sweep_gc.js:858-867 | Blocks compile to self-contained code. |
| MarkSweepCompiler.RetWithin | compiler/mark_sweep_gc.js:882-890 | Returns compile to self-contained code. |
| MarkSweepCompiler.FunWithin | compiler/mark_sweep_gc.js:891-900 | Function declarations compile to self-contained code. |
| MarkSweepCompiler.ProgramTargets | compiler/mark_sweep_gc.js:911-916 | A program is ENTER_SCOPE with the number of its locals, its code, EXIT_SCOPE and DONE. Every target lands before DONE. |
| MarkSweepCompiler.Comp | compiler/mark_sweep_gc.js:767-901 | The code of any component contains no DONE, so only the DONE that `compile_program` appends can stop `run`. |
| MarkSweepCompiler.CompileProgram | compiler/mark_sweep_gc.js:911-916 | A compiled program ends in DONE and has no DONE before its last instruction. |
| EarlyCompiler.ScanIgnoresGenDecl | compiler/compiler.js:659-673 | compiler.js's scan finds at most as many locals as go_vm's. It finds the same ones when no statement is a bare `var` declaration. |
| EarlyCompiler.IdentLoads | compiler/compiler.js:699-709 | `true` and `false` compile to constants. Any other name compiles exactly when some frame binds it, to an LD of that position. |
| EarlyCompiler.IntLiteral | compiler/compiler.js:691-698 | An integer literal written in decimal compiles to LDC of its value. |
| EarlyCompiler.ExprStmtPops | compiler/compiler.js:773-776 | An expression statement compiles to its expression followed by POP. |
| EarlyCompiler.FuncDeclLayout | compiler/compiler.js:777-847 | The body is compiled without a closing RESET. `main` gets LDF of its entry one word on and no GOTO. Any other function gets LDF two words on and a GOTO past the body. Both end with ASSIGN to the name. |
| EarlyCompiler.BlockLayout | compiler/compiler.js:800-809 | ENTER_SCOPE with the number of locals, the body with the locals frame added, then EXIT_SCOPE. |
| EarlyCompiler.CompWithin | compiler/compiler.js:689-848 | Every construct compiles to self-contained code. |
| EarlyCompiler.UnaryWithin | compiler/compiler.js:710-713 | Unary expressions compile to self-contained code. |
| EarlyCompiler.BinaryWithin | compiler/compiler.js:714-718 | Binary expressions compile to self-contained code. |
| EarlyCompiler.ExprStmtWithin | compiler/compiler.js:773-776 | Expression statements compile to self-contained code. |
| EarlyCompiler.DeclWithin | compiler/compiler.js:810-819 | Declarations compile to self-contained code. |
| EarlyCompiler.AssignWithin | compiler/compiler.js:820-826 | Assignments compile to self-contained code. |
| EarlyCompiler.ReturnWithin | compiler/compiler.js:827-830 | Returns compile to self-contained code. |
| EarlyCompiler.SeqWithin | compiler/compiler.js:675-682 | Statement sequences compile to self-contained code. |
| EarlyCompiler.ItemsWithin | compiler/compiler.js:675-682 | Each suffix of a sequence compiles to self-contained code. |
| EarlyCompiler.CallWithin | compiler/compiler.js:760-772 | Calls compile to self-contained code. |
| EarlyCompiler.BlockWithin | compiler/compiler.js:800-809 | Blocks compile to self-contained code. |
| EarlyCompiler.FuncDeclWithin | compiler/compiler.js:777-798 | Function declarations compile to self-contained code. |
| EarlyCompiler.ProgramTargets | compiler/compiler.js:862-867 | A program ends with DONE, and every target lands before it. |
| EarlyCompiler.ScanForLocals | compiler/compiler.js:659-673 | A block has at most one local per item, and a name is a local exactly when some item declares it with `var` or `func`. General declarations and nested blocks are skipped. |
| EarlyCompiler.Comp | compiler/compiler.js:689-848 | The code of any construct contains no DONE, so only the DONE that `compile_program` appends can stop `run`. |
| EarlyCompiler.CompileProgram | compiler/compiler.js:862-867 | A compiled program ends in DONE and has no DONE before its last instruction. |
| MachineCore.PopWord | server/go_vm.js:1097 | Popping a non-empty stack splits off its top word. Popping an empty stack gives undefined and leaves it empty. |
| MachineCore.PushThenPopWord | server/go_vm.js:1097 | Popping right after a push gives back the stack and the word. |
| MachineCore.PopArgs | server/go_vm.js:1221-1223 | Popping arguments into a frame writes only that frame, keeps the heap well formed, and removes exactly `n` words from the stack. |
| MachineCore.Peek | server/go_vm.js:39 | `peek(OS, k)` is the word `k` places below the top. On a stack of `k` words or fewer it is the bottom word, because `slice` clamps a start before the beginning. On an empty stack it is undefined. |
| MachineCore.PopArgsPassesArguments | server/go_vm.js:1221-1223 | Popping `n` arguments into a frame fills its first `n` slots with them, first argument first. The rest of the frame and the heap are untouched, and the stack loses exactly those words. |
| MachineCore.FillSlotsFills | server/go_vm.js:1104-1106 | Filling a new frame writes the given word into its first `n` slots and leaves the others. |
| MachineCore.FillSlots | server/go_vm.js:1104-1106 | Filling a frame writes only that frame and keeps the heap well formed. |
| MachineCore.ReadValue | server/go_vm.js:474-496 | Reading a node as a value only fails on pairs nested too deeply. A pair value only comes from a pair node. A word that is not a node reads as the "unknown word tag" string (see Left out). |
| MachineCore.ReadRepresented | server/go_vm.js:474-496 | A node representing `v` reads as `v`. |
| MachineCore.ApplyBinopAt | server/go_vm.js:1031-1034 | An unknown symbol is an error. A success means both operands read as values and the operator accepted them. The boxed result is stated by MachineCore.ApplyRepresented. |
| MachineCore.ApplyUnopAt | server/go_vm.js:1041-1042 | An unknown symbol is an error. A success means the operand read as a value and the operator accepted it. The boxed result is stated by MachineCore.UnopRepresented. |
| MachineCore.ConversionReadsBack | server/go_vm.js:498-514 | Converting a value with enough free slots succeeds, and the node reads back as that value. |
| MachineCore.ApplyRepresented | server/go_vm.js:1031-1034 | `apply_binop` on nodes representing `x` and `y` is the conversion of the operator's result on `x` and `y`. |
| MachineCore.UnopRepresented | server/go_vm.js:1041-1042 | `apply_unop` on a node representing `x` is the conversion of the operator's result on `x`. |
| MachineCore.Boot | server/go_vm.js:1331-1345 | Start-up keeps the heap's size and slots. It fails when the builtins do not fit in one frame. |
| MachineCore.AllocateFromList | server/go_vm.js:88-93 | From a free list `xs`, allocation returns `xs[0]`, keeps every node, and leaves `xs[1..]`. |
| MachineCore.ExtendFromList | server/go_vm.js:417-429 | From a free list, extension takes its head as the new environment, with the old frames plus the new frame. |
| MachineCore.FrameThenExtend | server/go_vm.js:1100-1107 | ENTER_SCOPE's frame and environment are two distinct fresh nodes. The environment's frames are the old ones plus that frame. |
| MachineCore.FillNewFrame | server/go_vm.js:1104-1106 | After the fill, every variable of the new frame holds the given word, and nothing reachable is disturbed. |
| MachineCore.MoveArguments | server/go_vm.js:1218-1223 | The arguments leave the stack. The callee stays below them. |
| MachineCore.MoveArgumentsFromList | server/go_vm.js:1218-1223 | From a free list, the argument frame is its head and no other slot changes. |
| MachineCore.CallframeFromList | server/go_vm.js:351-358 | From a free list, the call frame is its head and holds the environment and return address. |
| MachineCore.CallframeKept | compiler/mark_sweep_gc.js:1034-1036 | A call frame allocated before the extension still holds its environment and return address afterwards. |
| MachineCore.CallframeFirstKept | compiler/compiler.js:985-1002 | The same, when the call frame comes before the argument frame. |
| MachineCore.SourceBuiltin | compiler/mark_sweep_gc.js:673-699 | The builtin table has exactly nine ids. Only `pair` allocates and only `display` shows anything. |
| MachineCore.PairThenHeadAndTail | compiler/mark_sweep_gc.js:680-687 | `head` and `tail` of a new `pair(a, b)` give `a` and `b`, and `is_pair` of it is true. |
| MachineCore.SetHeadThenHead | compiler/mark_sweep_gc.js:689-693 | After `set_head(p, v)`, `head(p)` is `v`. The call returns undefined. |
| MachineCore.SetTailThenTail | compiler/mark_sweep_gc.js:694-698 | After `set_tail(p, v)`, `tail(p)` is `v`. The call returns undefined. |
| MachineCore.DisplayShowsArgument | compiler/mark_sweep_gc.js:674-679 | `display` shows the argument's value and returns it. `error` fails with that value. |
| MachineCore.PopToCallframe | server/go_vm.js:1256-1259 | RESET's loop stops at a call frame, or fails when RTS holds none. It pops at least one entry unless the starting word is itself a call frame. |
| MachineCore.PopToCallframeTopmost | server/go_vm.js:1256-1259 | The loop stops at the topmost call frame. Everything it pops above that frame is not a call frame. |
| GoMachine.QueueWordsHas | server/go_vm.js:108-112 | A word is among the queued threads' registers exactly when some queued thread holds it. |
| GoMachine.RootsAreAllThreads | server/go_vm.js:104-115 | The roots are exactly the running thread's OS, E and RTS and every queued thread's OS, E and RTS. |
| GoMachine.Load | server/go_vm.js:1358-1362 | Loading a thread's registers and saving them again gives the same thread. Heap and queue are unchanged. |
| GoMachine.Dequeue | server/go_vm.js:1358-1362 | Dequeueing succeeds exactly on a non-empty queue. It resumes the front thread and leaves the rest queued. |
| GoMachine.Yield | server/go_vm.js:1146-1163 | A yielding thread joins the back of the queue and the front thread resumes. |
| GoMachine.YieldInBuiltin | server/go_vm.js:557-571 | A builtin that yields does the same, and its result is not pushed. |
| GoMachine.Requeue | server/go_vm.js:1370-1376 | At the end of a quantum the running thread is saved onto the back of the queue. |
| GoMachine.ExecLdc | server/go_vm.js:1094 | LDC pushes exactly one word. It changes nothing else but the heap, whose size and slots it keeps. It fails only by exhaustion or with NotAValue, and it always fails on a string literal, as go_vm's conversion does (see Left out). What the word holds is stated by GoMachineFacts.LdcPushesValue. |
| GoMachine.ExecUnop | server/go_vm.js:1095 | UNOP replaces the top of OS by one word and changes nothing else but the heap, whose slots it keeps. It succeeds only when the operator is known, the operand reads as a value and the operator applies to it. What the word holds is stated by GoMachineFacts.UnopPushesResult. |
| GoMachine.ExecBinop | server/go_vm.js:1096 | BINOP replaces the top two words of OS by one and changes nothing else but the heap, whose slots it keeps. It succeeds only when the operator is known, both operands read as values and the operator applies to them, the lower word being the left operand. What the word holds is stated by GoMachineFacts.BinopPushesResult. |
| GoMachine.ExecJof | server/go_vm.js:1098 | JOF pops the condition. It falls through on the true node and jumps on anything else. |
| GoMachine.ExecEnterScope | server/go_vm.js:1100-1107 | ENTER_SCOPE pushes one block frame onto RTS and keeps the rest. A frame of more than nine variables is refused. |
| GoMachine.ExecExitScope | server/go_vm.js:1108 | EXIT_SCOPE changes only RTS and E. It pops RTS, and E becomes the environment that the popped block frame holds. |
| GoMachine.OpenFrame | server/go_vm.js:1101-1106 | Only the heap and E change. |
| GoMachine.ExecLd | server/go_vm.js:1114-1118 | LD fails exactly when the variable holds Unassigned. Otherwise it pushes the variable's word and changes nothing else. |
| GoMachine.ExecAssign | server/go_vm.js:1119 | ASSIGN changes only the heap, and keeps its slots. The assigned variable then reads as the top of OS. A variable in another frame, or at another index, reads as before. |
| GoMachine.ExecChannel | server/go_vm.js:1120-1126 | CHANNEL pushes 0, counts one more channel and stores the old count in the variable. Nothing else changes. |
| GoMachine.ExecMutex | server/go_vm.js:1127-1131 | MUTEX adds one unlocked mutex, numbered by how many there were, keeps the others, and stores its number in the variable. |
| GoMachine.ExecLdf | server/go_vm.js:1132-1135 | LDF pushes one new closure node holding the arity modulo 256, the entry address modulo 65536 and the current E. It fails only by exhaustion. |
| GoMachine.ExecEndGo | server/go_vm.js:1136-1144 | ENDGO never fails. With an empty queue it changes nothing. |
| GoMachine.ExecSend | server/go_vm.js:1145-1163 | SEND records the value for the channel, moves the sender back to the LD before the SEND, and yields. |
| GoMachine.FirstSender | server/go_vm.js:1171-1178 | The index of the first queued thread that is sending on the channel, or the queue length when none is. |
| GoMachine.ExecRecv | server/go_vm.js:1164-1192 | RECV keeps the code, the literal nodes, the bottom and the tick count. |
| GoMachine.ReceiveFrom | server/go_vm.js:1172-1177 | The receiver pushes a node for the sent value. The sender's entry for the channel is deleted and its PC moves forward by two. Nothing else changes. |
| GoMachine.ExecGoCall | server/go_vm.js:1193-1213 | GOCALL pops the arguments but leaves the callee. It queues a new thread at the closure's entry and skips the next instruction. |
| GoMachine.SpawnFrame | server/go_vm.js:1196-1199 | The arguments leave the spawner's stack. |
| GoMachine.EnterClosure | server/go_vm.js:1219-1226 | CALL's arguments and the callee leave the stack, and E changes. |
| GoMachine.ExecCall | server/go_vm.js:1214-1245 | CALL and TAIL_CALL keep the code, the literal nodes, the bottom and the tick count. On a closure they pop the arguments and the callee, jump to the closure's entry and leave the queue and the mutexes alone. TAIL_CALL keeps RTS; CALL pushes one entry onto it. |
| GoMachine.PushReturn | server/go_vm.js:1227-1228 | CALL's return step changes only the heap, RTS and PC. It pushes one entry onto RTS and jumps to the entry. |
| GoMachine.Builtin | server/go_vm.js:545-643 | A builtin keeps the code, the literal nodes, the bottom and the tick count. |
| GoMachine.ApplyBuiltin | server/go_vm.js:1044-1052 | Applying a builtin keeps the same. |
| GoMachine.Execute | server/go_vm.js:1093-1263 | No instruction changes the code, the literal nodes, the bottom or the tick count. |
| GoMachine.ExecReset | server/go_vm.js:1246-1263 | RESET with an empty RTS ends the goroutine by resuming the front thread. It keeps the code, the literal nodes, the bottom and the tick count. |
| GoMachine.Cycle | server/go_vm.js:1351-1378 | At the start of each quantum the front thread is dequeued; an empty queue is a fault. The dequeued PC lies in the code. At the end of a quantum the running thread is the last queued. Every pass counts one tick. |
| GoMachine.Run | server/go_vm.js:1351-1378 | A halted run stopped at a DONE instruction of the same code. A run out of fuel also kept the code. |
| GoMachine.Init | server/go_vm.js:1314-1349 | The main thread is queued at PC 0 in the global environment with empty stacks. The bottom is the free-list head after start-up. The heap has the requested number of slots. |
| GoMachineFacts.OpenFrameAddsUnassignedFrame | server/go_vm.js:1100-1107 | With two free slots, E gains one frame after its old ones, every variable of the new frame is Unassigned, and every node is kept. |
| GoMachineFacts.EnterScopeThenExit | server/go_vm.js:1100-1108 | With three free slots, ENTER_SCOPE adds a frame whose variables all fault on LD. EXIT_SCOPE then restores E and RTS. |
| GoMachineFacts.CallFramesCalleeEnv | server/go_vm.js:1214-1229 | CALL pushes one call frame. It holds the return address and the callee's new environment, not the caller's. |
| GoMachineFacts.CallframeHoldsEnv | server/go_vm.js:351-358 | A new call frame holds the environment and return address it was given. |
| GoMachineFacts.CallThenResetKeepsCalleeEnv | server/go_vm.js:1214-1263 | RESET right after a CALL returns to the instruction after the CALL, with RTS as before, but with E still the callee's. |
| GoMachineFacts.ResetReturnsToTopmostCallframe | server/go_vm.js:1256-1262 | RESET pops RTS down to its topmost call frame and resumes at its address in its environment. |
| GoMachineFacts.ResetEndsGoroutine | server/go_vm.js:1249-1255 | RESET on an empty RTS resumes the front thread and does not requeue the finished one. |
| GoMachineFacts.GoCallLeavesCallee | server/go_vm.js:1193-1213 | After GOCALL the callee is on top of the spawner's stack, and the new thread starts at that closure's entry. |
| GoMachineFacts.SendBlocks | server/go_vm.js:1145-1163 | The sender is queued last, at the LD before its SEND, with the value recorded. The front thread runs. |
| GoMachineFacts.RecvWithoutSenderBlocks | server/go_vm.js:1179-1191 | With no sender queued on the channel, the receiver is queued at the LD before its RECV and the front thread runs. |
| GoMachineFacts.RecvTakesFirstSender | server/go_vm.js:1170-1178 | With a sender queued, RECV takes the first sender's value and succeeds. The pushed node represents that value. |
| GoMachineFacts.ReceiveFromStores | server/go_vm.js:1172-1177 | The pushed node represents the sent value. |
| GoMachineFacts.SendThenRecvResumesAfterSend | server/go_vm.js:1145-1177 | After its value is received, the sender resumes at the instruction after the SEND, with the channel's entry gone. |
| GoMachineFacts.IdsBelowCount | server/go_vm.js:1127-1131 | The ids below `n` are exactly `0 .. n-1`. |
| GoMachineFacts.MutexIdsAreConsecutive | server/go_vm.js:1127-1131 | MUTEX numbers mutexes 0, 1, 2, … and stores each new one unlocked in its variable. |
| GoMachineFacts.InitHasNoMutexes | server/go_vm.js:1314-1320 | A machine starts with no mutexes and no channels. |
| GoMachineFacts.LockAndUnlock | server/go_vm.js:595-642 | Lock takes an unlocked mutex. On a locked one it yields and leaves the table alone. Unlock releases a locked mutex and fails on any other. |
| GoMachineFacts.LockThenUnlock | server/go_vm.js:595-642 | Lock then Unlock of an unlocked mutex gives back the table. |
| GoMachineFacts.SleepCountsDown | server/go_vm.js:552-592 | `sleep(d)` records `d` and yields. Later rounds count down and yield. With one round left it returns. |
| GoMachineFacts.AllocationKeepsThreadNodes | server/go_vm.js:104-130 | From a well-formed heap with closed marks, an allocation keeps every node reachable from any thread, running or queued. |
| GoMachineFacts.AllocationKeepsCollectorState | server/go_vm.js:104-130 | An allocation with go_vm's roots, from a heap satisfying `LowMarksClosed`, keeps every reachable node and returns an unreachable node at or above the bottom. It keeps the heap well formed and `LowMarksClosed`, and leaves the predicted free list. |
| GoMachineFacts.LdcPushesValue | server/go_vm.js:1094 | With enough free slots, LDC pushes a node representing its literal, built from the next slots of the free list. It keeps every node there was and the literal nodes, changes nothing but OS and the heap, and the word reads back as the literal. |
| GoMachineFacts.UnopPushesResult | server/go_vm.js:1095 | UNOP on a node representing `x` replaces it by a node that reads as the operator's result on `x`; nothing but OS and the heap changes. |
| GoMachineFacts.BinopPushesResult | server/go_vm.js:1096 | BINOP on nodes representing `x` and `y`, `x` lower on OS, replaces them by a node that reads as the operator's result on `x` and `y`; nothing but OS and the heap changes. |
| MarkSweepMachine.RootsAreRegisters | compiler/mark_sweep_gc.js:249-251 | The roots are exactly OS, E and RTS. |
| MarkSweepMachine.ExecLdc | compiler/mark_sweep_gc.js:998 | LDC pushes one word and changes no other register. What the word holds is stated by MarkSweepMachineFacts.LdcPushesValue. |
| MarkSweepMachine.ExecUnop | compiler/mark_sweep_gc.js:999 | UNOP replaces the top of OS by one word and changes nothing else but the heap, whose slots it keeps. It succeeds only when the operator is known, the operand reads as a value and the operator applies to it. What the word holds is stated by MarkSweepMachineFacts.UnopPushesResult. |
| MarkSweepMachine.ExecBinop | compiler/mark_sweep_gc.js:1000 | BINOP replaces the top two words of OS by one and changes nothing else but the heap, whose slots it keeps. It succeeds only when the operator is known and applies to the two values, the lower word being the left operand. What the word holds is stated by MarkSweepMachineFacts.BinopPushesResult. |
| MarkSweepMachine.ExecJof | compiler/mark_sweep_gc.js:1002 | JOF pops the condition. It falls through on the true node and jumps on anything else. |
| MarkSweepMachine.ExecEnterScope | compiler/mark_sweep_gc.js:1004-1011 | ENTER_SCOPE pushes one block frame and leaves OS and PC alone. A frame of more than nine variables is refused. |
| MarkSweepMachine.ExecExitScope | compiler/mark_sweep_gc.js:1012 | EXIT_SCOPE pops RTS and restores E from the popped block frame. |
| MarkSweepMachine.ExecLd | compiler/mark_sweep_gc.js:1013-1017 | LD fails exactly on Unassigned. Otherwise it only pushes the variable's word. |
| MarkSweepMachine.ExecAssign | compiler/mark_sweep_gc.js:1018 | ASSIGN changes only the heap, and keeps its slots. The assigned variable then reads as the top of OS. A variable in another frame, or at another index, reads as before. |
| MarkSweepMachine.ExecLdf | compiler/mark_sweep_gc.js:1019-1022 | LDF pushes one new closure node holding the arity modulo 256, the entry address modulo 65536 and the current E, and changes nothing else but the heap. It fails only by exhaustion. |
| MarkSweepMachine.ExecCall | compiler/mark_sweep_gc.js:1023-1054 | A builtin call leaves PC, E and RTS as they were. On a closure, CALL and TAIL_CALL pop the arguments and the callee and jump to the closure's entry. TAIL_CALL keeps RTS; CALL pushes one entry onto it. |
| MarkSweepMachine.PushCallframe | compiler/mark_sweep_gc.js:1034 | Pushing the call frame changes only the heap and RTS, which gains one entry. |
| MarkSweepMachine.EnterCallee | compiler/mark_sweep_gc.js:1035-1037 | Entering the callee pops it, sets E, and jumps to the entry. |
| MarkSweepMachine.ExecReset | compiler/mark_sweep_gc.js:1055-1065 | RESET pops one RTS entry. At a call frame it resumes there. Otherwise it steps PC back to run RESET again. |
| MarkSweepMachine.ApplyBuiltin | compiler/mark_sweep_gc.js:954-959 | A builtin call leaves PC, E and RTS alone. |
| MarkSweepMachine.Execute | compiler/mark_sweep_gc.js:997-1066 | No instruction changes the code, the literal nodes or the bottom. |
| MarkSweepMachine.Cycle | compiler/mark_sweep_gc.js:1111-1121 | A PC outside the code is a fault. |
| MarkSweepMachine.Run | compiler/mark_sweep_gc.js:1108-1125 | A halted run stopped at DONE with the same code. |
| MarkSweepMachine.FinalValue | compiler/mark_sweep_gc.js:1124 | The result is the value of the top word. |
| MarkSweepMachine.Init | compiler/mark_sweep_gc.js:1071-1106 | Empty stacks, PC 0, nothing shown, and the bottom at the free-list head after start-up. |
| MarkSweepMachineFacts.OpenFrameAddsUnassignedFrame | compiler/mark_sweep_gc.js:1004-1011 | With two free slots, E gains one frame of Unassigned variables after its old ones, and every node is kept. |
| MarkSweepMachineFacts.EnterScopeThenExit | compiler/mark_sweep_gc.js:1004-1012 | With three free slots, the new variables fault on LD and EXIT_SCOPE restores E and RTS. |
| MarkSweepMachineFacts.CallSavesCallerEnv | compiler/mark_sweep_gc.js:1023-1038 | With three free slots, CALL pushes a call frame holding the caller's E and return address, pops arguments and callee, and jumps to the entry. |
| MarkSweepMachineFacts.CallThenResetRestoresCaller | compiler/mark_sweep_gc.js:1023-1065 | RESET right after such a CALL returns to the caller's E, RTS and next instruction. |
| MarkSweepMachineFacts.TailCallKeepsReturnStack | compiler/mark_sweep_gc.js:1039-1054 | TAIL_CALL pushes nothing on RTS. |
| MarkSweepMachineFacts.CallLeavesFrameUnrooted | compiler/mark_sweep_gc.js:1030-1034 | While CALL allocates the call frame, the argument frame is in no register and not pinned. |
| MarkSweepMachineFacts.Cycles | compiler/mark_sweep_gc.js:1111-1121 | Several passes of the loop keep the code. |
| MarkSweepMachineFacts.ResetPopsToCallframe | compiler/mark_sweep_gc.js:1055-1065 | Repeated, RESET ends exactly where go_vm's single RESET ends, after one pass per popped entry. |
| MarkSweepMachineFacts.CallDisplay | compiler/mark_sweep_gc.js:1023-1028 | CALL of `display` shows the argument and leaves it where the callee was. |
| MarkSweepMachineFacts.AllocationKeepsCollectorState | compiler/mark_sweep_gc.js:249-262 | An allocation with mark_sweep_gc's roots, from a heap satisfying `LowMarksClosed`, keeps every reachable node and returns an unreachable node at or above the bottom. It keeps the heap well formed and `LowMarksClosed`, and leaves the predicted free list. |
| MarkSweepMachineFacts.LdcPushesValue | compiler/mark_sweep_gc.js:998 | LDC pushes a node representing its literal, built from the next slots of the free list. It keeps the earlier stack, E, RTS, the literal nodes and the set of slots. |
| MarkSweepMachineFacts.TwoLdcs | compiler/mark_sweep_gc.js:998 | Two LDCs in a row push nodes representing both literals, in order, and leave the rest of the free list. |
| MarkSweepMachineFacts.BinopPushesResult | compiler/mark_sweep_gc.js:1000 | BINOP on nodes representing `x` and `y` replaces them by a node that reads as the operator's result on `x` and `y`. |
| MarkSweepMachineFacts.UnopPushesResult | compiler/mark_sweep_gc.js:999 | UNOP on a node representing `x` replaces it by a node that reads as the operator's result on `x`; nothing but OS and the heap changes. |
| MarkSweepMachineFacts.CompileLiteralBinop | compiler/mark_sweep_gc.js:768-788 | A binary operation on two literals compiles to LDC, LDC, BINOP. |
| MarkSweepMachineFacts.LiteralBinopLeavesResult | compiler/mark_sweep_gc.js:1111-1121 | Running the compiled code of a binary operation on two literals, such as `2 + 3`, takes three passes and leaves one new node on the stack that reads as the operator's result. |
| EarlyMachine.RootsAreRegisters | compiler/compiler.js:206-213 | The roots are exactly E, RTS and OS. |
| EarlyMachine.ExecLdc | compiler/compiler.js:950 | LDC pushes one word and changes no other register. What the word holds is stated by EarlyMachineFacts.LdcPushesValue. |
| EarlyMachine.ExecUnop | compiler/compiler.js:951 | UNOP replaces the top of OS by one word and changes nothing else but the heap, whose slots it keeps. It succeeds only when the operator is known, the operand reads as a value and the operator applies to it. What the word holds is stated by EarlyMachineFacts.UnopPushesResult. |
| EarlyMachine.ExecBinop | compiler/compiler.js:952 | BINOP replaces the top two words of OS by one and changes nothing else but the heap, whose slots it keeps. It succeeds only when the operator is known and applies to the two values, the lower word being the left operand. What the word holds is stated by EarlyMachineFacts.BinopPushesResult. |
| EarlyMachine.ExecJof | compiler/compiler.js:954 | JOF falls through on the true node and jumps on anything else. |
| EarlyMachine.ExecEnterScope | compiler/compiler.js:956-966 | ENTER_SCOPE pushes one block frame. |
| EarlyMachine.ExecExitScope | compiler/compiler.js:967 | EXIT_SCOPE pops RTS and restores E from the popped block frame. |
| EarlyMachine.ExecLd | compiler/compiler.js:968-972 | LD fails exactly on Unassigned. Otherwise it only pushes the variable's word. |
| EarlyMachine.ExecAssign | compiler/compiler.js:973 | ASSIGN changes only the heap, and keeps its slots. The assigned variable then reads as the top of OS. A variable in another frame, or at another index, reads as before. |
| EarlyMachine.ExecLdf | compiler/compiler.js:974-977 | LDF pushes one new closure node holding the arity modulo 256, the entry address modulo 65536 and the current E, and changes nothing else but the heap. It fails only by exhaustion. |
| EarlyMachine.ExecCall | compiler/compiler.js:978-1031 | A builtin call leaves PC, E and RTS as they were. On a closure, CALL and TAIL_CALL pop the arguments and the callee and jump to the closure's entry. TAIL_CALL keeps RTS; CALL pushes one entry onto it. |
| EarlyMachine.PushCallframe | compiler/compiler.js:985 | Pushing the call frame changes only the heap and RTS, which gains one entry. |
| EarlyMachine.EnterCallee | compiler/compiler.js:990-1003 | Entering the callee sets E and jumps to the entry. |
| EarlyMachine.ExecReset | compiler/compiler.js:1032-1040 | RESET fails only when RTS holds no call frame. Otherwise it pops at least one entry and leaves OS alone. |
| EarlyMachine.ApplyBuiltin | compiler/compiler.js:907-911 | A builtin call leaves PC, E and RTS alone. |
| EarlyMachine.Execute | compiler/compiler.js:949-1041 | No instruction changes the code or the literal nodes. |
| EarlyMachine.Cycle | compiler/compiler.js:1073-1076 | A PC outside the code is a fault. |
| EarlyMachine.Run | compiler/compiler.js:1071-1078 | A halted run stopped at DONE with the same code. |
| EarlyMachine.FinalValue | compiler/compiler.js:1077 | The result is the value of the top word. |
| EarlyMachine.Init | compiler/compiler.js:1046-1069 | Empty stacks, PC 0, nothing shown, and a heap of the requested size. |
| EarlyMachineFacts.OpenFrameAddsUnassignedFrame | compiler/compiler.js:956-966 | With two free slots, E gains one frame of Unassigned variables after its old ones, and every node is kept. |
| EarlyMachineFacts.EnterScopeThenExit | compiler/compiler.js:956-967 | The new variables fault on LD, and EXIT_SCOPE restores E and RTS. |
| EarlyMachineFacts.CallSavesCallerEnv | compiler/compiler.js:978-1004 | CALL pushes the call frame, holding the caller's E and return address, before allocating anything else. It pops arguments and callee and jumps to the entry. |
| EarlyMachineFacts.CallThenResetRestoresCaller | compiler/compiler.js:978-1040 | RESET right after such a CALL returns to the caller's E, RTS and next instruction. |
| EarlyMachineFacts.TailCallKeepsReturnStack | compiler/compiler.js:1005-1031 | TAIL_CALL pushes nothing on RTS. |
| EarlyMachineFacts.ResetReturnsToTopmostCallframe | compiler/compiler.js:1032-1040 | RESET pops RTS to its topmost call frame and resumes there. |
| EarlyMachineFacts.ExtendAtPinsFrame | compiler/compiler.js:991-1002 | Pinning the frame only when the list is empty is the same as always pinning it. |
| EarlyMachineFacts.CallPrintln | compiler/compiler.js:587-591 | CALL of `println` shows the argument and leaves it where the callee was. |
| EarlyMachineFacts.LdcPushesValue | compiler/compiler.js:950 | With enough free slots, LDC pushes a node representing its literal, built from the next slots of the free list. It keeps every node there was and the literal nodes, changes nothing but OS and the heap, and the word reads back as the literal. |
| EarlyMachineFacts.UnopPushesResult | compiler/compiler.js:951 | UNOP on a node representing `x` replaces it by a node that reads as the operator's result on `x`; nothing but OS and the heap changes. |
| EarlyMachineFacts.BinopPushesResult | compiler/compiler.js:952 | BINOP on nodes representing `x` and `y`, `x` lower on OS, replaces them by a node that reads as the operator's result on `x` and `y`; nothing but OS and the heap changes. |

## Left out

- Floating-point numbers: numbers are unbounded integers. `/`, `%` and
  the `math_*` constants are outside the model. The operator tables
  report `/` and `%` as not modelled, and the constant frame holds
  number nodes with payload 0.
- JsValues.ApplyBinOp: `+` on two strings and JavaScript's coercions
  (`true - 1`, `true < false`, `"<closure>" + 1`, …) give a not-modelled
  error, because coercions are outside the model. Such operands do arise:
  go_vm compiles `true - 1`, and closures and builtins read as strings.
- The byte-level DataView encoding of words is not modelled. Words are
  integers, and header fields are record fields with the source's
  truncations (arity and builtin id modulo 256, PC modulo 65536) written
  out.
- GoMachine.Run, MarkSweepMachine.Run, EarlyMachine.Run: `run` loops
  until DONE. The model runs at most `fuel` passes and reports running
  out of fuel, so non-terminating programs are not modelled.
- Heap sizes are whole numbers of ten-word slots. Every size the sources
  use (15000, 2000, and the tests' sizes) is one.
- `console.log`, `display`'s debug output, `blockingSleep` and the "DOING
  GC" / "GARBAGE COLLECTION" messages are side effects with no effect on
  the machine. Printed output is collected as a sequence of values or
  strings.
- MachineCore.ReadValue: converting a pair structure nested deeper than
  the heap has slots fails with TooDeep. The source recurses without
  bound on a cyclic structure made with `set_head` or `set_tail`.
- CompileEnv.Resolve: a name no frame binds is a compile error. The source's position loop
  reads past the first frame and crashes.
- Collector.Mark: JavaScript `undefined`, pushed by an empty-stack pop or
  by a builtin that returns nothing (go_vm's `Lock` and `Unlock`,
  mark_sweep_gc's `set_head` and `set_tail`), is the word -1. The model
  gives it no slot, so marking it does nothing. In the source the mark
  guard lets it through and it lands on slot 0 (see Findings); compiler.js's
  `markObject` has the same hole. Raw integer words (channel and mutex
  ids in a frame) likewise alias header bytes in the source when they are
  below the heap size, and are skipped by the model when they name no
  node. A negative word is skipped by the model too, but the source's
  `mark` in go_vm (server/go_vm.js:132-134) and mark_sweep_gc
  (compiler/mark_sweep_gc.js:264-278) guards only `node >= heap_size`,
  so its `is_unmarked` reads the DataView at a negative offset and
  throws a RangeError. Such a word arises because `free_node` rewrites
  only word 0 of a slot: a freed Number node whose payload was, say,
  `0 - 5` keeps -5 in its first child word, ENTER_SCOPE takes that slot
  for its new frame and extends E before filling the frame, and a
  collection during the extension marks the pinned frame's children.
  compiler.js's `markObject` rejects negative addresses and is not
  affected.
- Values.ToAddress: converting a string is a NotAValue fault. In go_vm
  this matches the source: go_vm loads only the helpers of
  server/utils.js, which has no `is_null`, `is_pair`, `head` or `tail`,
  so `JS_value_to_address("hi")` stops with a ReferenceError at
  `is_null` (a string literal in LDC, as in `println("hi")`, stops the
  run). mark_sweep_gc and compiler.js have those helpers: they return the
  string "unknown word tag: …" as the word and keep running.
- Faults in go_vm: go_vm's `error` is not defined either, so each of its
  faults (node too large, heap exhausted, unassigned access, mutex
  already unlocked, and the `error` builtin) stops the run with the
  ReferenceError "error is not defined" rather than the message it
  passes. The model keeps the fault and not the text.
- Values.FromAddress: a word that names no node, `undefined` among them,
  reads as the string "unknown word tag" without the word printed after
  it. In the source such a word reads slot 0's tag byte, so it usually
  reads as `false`.
- MachineCore.ReadValue: inherits the non-node reading of
  `Values.FromAddress`.
- GoVmCompiler.SendValue: only a `true`/`false` identifier and a decimal
  literal compile. The source sends `Number(v.Value)` for anything else,
  which is NaN for a variable as in `ch <- x`; the model reports a
  compile error instead.
- Code.NumberOf: accepts decimal digit strings only. JavaScript's
  `Number` also reads the `0x`, `0o` and `0b` spellings of Go integer
  literals, which the model rejects as a compile error.
- An empty Go block is compiled as an empty statement sequence. The
  parser's JSON gives such a block `List: null`, on which the source's
  `scan_for_locals` (server/go_vm.js:693, compiler/compiler.js:661) throws;
  the syntax datatype has no null list for blocks.
- Allocator.AllocateKeepsReachable, Allocator.AllocateAfterCollection,
  Allocator.CollectFreeList and Allocator.CollectKeepsReachable assume
  closed marks; see the next lines for what establishes them.
- Nodes.ExtendAppendsFrame: its liveness half assumes closed marks.
- GoMachineFacts.AllocationKeepsThreadNodes: assumes closed marks.
  `AllocationKeepsCollectorState` carries `LowMarksClosed` across one
  allocation, and the Allocator lemmas carry it across collection and
  child writes above the bottom. That the initial heap satisfies it, and
  that each whole instruction keeps it, is not proved. An ASSIGN into a
  frame below the bottom breaks it (`Collector.AssignBelowBottomOpensMarks`).
- MachineCore.PopToCallframe: a RESET that finds no call frame is a
  fault. The source keeps popping an empty array for ever.
- `sleep` with a non-number argument is a fault. The source stores
  whatever `address_to_JS_value` returns as the count.
- The `log` component of mark_sweep_gc.js (`&&` and `||`) is not
  modelled. Both branches always crash: the `&&` branch compiles a
  `cond_expr`, for which `compile_comp` has no entry, and the `||`
  branch also reads an undefined variable.
- DONE reached through a jump inside `Execute` is a fault. `run` itself
  stops before it.
- server/server.js, parse.js, the front end and the JSON parser: the
  compilers take the syntax tree as a datatype.
- The copying-collector helpers (`heap_already_copied`, the forwarding
  address) are never called by any of the three machines.
- GoMachine.Execute, MarkSweepMachine.Execute, EarlyMachine.Execute: the
  contract states only what no instruction changes. What each
  instruction does is stated per instruction by the `Exec` functions and
  the facts lemmas.
- The `compile_and_run` entry point and `run(15000)`: `Init` takes the
  heap size as a parameter.

## Findings

| source | as written | input that shows it | evidently intended | confidence | as-written member | corrected member |
|---|---|---|---|---|---|---|
| server/go_vm.js:132-146 | `mark` returns early only for `node >= heap_size`, which is false for `undefined`. The byte offset is then NaN, which the DataView reads as 0: `is_unmarked` tests slot 0's tag byte (False's tag equals UNMARKED) and the mark write sets it to MARKED, which is True's tag. | A root stack holding `undefined` (a goroutine whose last statement is `m.Unlock()`) with the False node in slot 0, at the next collection: every later `false` reads as `true`. | Words that are not nodes are skipped, and marking never changes a tag. | not executed | Collector.MarkRootAsWritten, with Values.UndefinedRootReadsFalseAsTrue | Collector.Mark |
