/** The compiler of server/go_vm.js: Go syntax trees to instructions.
    Each function returns the code of one construct laid out from address
    `wc`, which jumps and closures need in order to name absolute
    addresses. */
module GoVmCompiler {
  import opened Wrappers
  import opened JsValues
  import opened Positions
  import opened Code
  import opened CompileEnv
  import opened GoAst

  /** The builtins of server/go_vm.js, in the order of their ids. */
  const BuiltinNames: Frame := ["println", "sleep", "error", "is_null", "Lock", "Unlock"]

  /** `scan_for_locals`: the names declared by the items of a block,
      in order. Nested blocks are not entered. */
  function ScanForLocals(list: seq<Node>): (names: seq<string>)
    ensures |names| <= |list|
    ensures forall x :: x in names <==> exists i :: 0 <= i < |list| && x in Declared(list[i])
    decreases |list|
  {
    if list == [] then []
    else Declared(list[0]) + ScanForLocals(list[1..])
  }

  /** The name one block item declares, if it declares one. */
  function Declared(n: Node): seq<string> {
    match n
    case DeclStmt(spec) => [spec.name]
    case GenDecl(spec) => [spec.name]
    case FuncDecl(name, _, _) => [name]
    case _ => []
  }

  /** Scanning a block split in two scans each half. */
  lemma {:induction false} ScanAppend(a: seq<Node>, b: seq<Node>)
    ensures ScanForLocals(a + b) == ScanForLocals(a) + ScanForLocals(b)
    decreases |a|
  {
    if a == [] {
      assert a + b == b;
    } else {
      assert (a + b)[1..] == a[1..] + b;
      ScanAppend(a[1..], b);
    }
  }

  /** The indices of the items of `list` that declare a name. */
  ghost function Declaring(list: seq<Node>): set<int> {
    set i | 0 <= i < |list| && Declared(list[i]) != []
  }

  /** The frame a block allocates has one slot per declaring item and
      ignores every other item, nested blocks included. */
  lemma {:induction false} ScanCounts(list: seq<Node>)
    ensures |ScanForLocals(list)| == |Declaring(list)|
    decreases |list|
  {
    if list != [] {
      var k := |list| - 1;
      ScanCounts(list[..k]);
      ScanLast(list);
      DeclaringLast(list);
    }
  }

  /** Scanning a block scans all but its last item, then the last. */
  lemma ScanLast(list: seq<Node>)
    requires list != []
    ensures ScanForLocals(list) == ScanForLocals(list[..|list| - 1]) + Declared(list[|list| - 1])
  {
    var k := |list| - 1;
    assert list == list[..k] + [list[k]];
    ScanAppend(list[..k], [list[k]]);
    assert ScanForLocals([list[k]]) == Declared(list[k]);
  }

  /** The last item of a block adds its index to the declaring ones
      exactly when it declares a name. */
  lemma DeclaringLast(list: seq<Node>)
    requires list != []
    ensures |Declaring(list)| == |Declaring(list[..|list| - 1])| + |Declared(list[|list| - 1])|
  {
    var k := |list| - 1;
    var front := list[..k];
    var extra: set<int> := if Declared(list[k]) != [] then {k} else {};
    assert Declaring(list) == Declaring(front) + extra by {
      forall i ensures i in Declaring(list) <==> i in Declaring(front) + extra {
        if 0 <= i < k {
          assert list[i] == front[i];
        }
      }
    }
    assert k !in Declaring(front);
    assert |Declaring(front) + extra| == |Declaring(front)| + |extra|;
  }

  /** The value a `SendStmt` sends: a boolean identifier or the number
      written in a literal. Anything else is a compile error here, where
      the source sends `Number(undefined)` or `Number` of a string, NaN. */
  function SendValue(v: Node): (r: Result<JsValue, CompileError>)
    ensures v.Ident? && (v.name == "true" || v.name == "false") ==> r == Ok(JBool(v.name == "true"))
    ensures r.Ok? <==> (v.Ident? && (v.name == "true" || v.name == "false")) || (v.BasicLit? && IsDecimal(v.value))
    ensures r.Ok? && v.BasicLit? ==> r.value == JNum(ParseDigits(v.value))
    ensures r.Ok? && v.BasicLit? ==> r.value.JNum? && Ok(r.value.n) == NumberOf(v.value)
  {
    if v.Ident? && (v.name == "true" || v.name == "false") then Ok(JBool(v.name == "true"))
    else if v.BasicLit? then var n :- NumberOf(v.value); Ok(JNum(n))
    else Err(NumberNotModelled(""))
  }

  /** Whether an initial value is `make(chan T)`. */
  function IsMakeChan(v: Node): Result<bool, CompileError> {
    if v.CallExpr? && v.fun.Ident? && v.fun.name == "make" then
      if v.args.Null? || v.args.items == [] then Err(Malformed)
      else Ok(v.args.items[0].ChanType?)
    else Ok(false)
  }

  /** `compile_comp`. */
  function Comp(n: Node, ce: Env, wc: int): (r: Result<seq<Instr>, CompileError>)
    ensures r.Ok? ==> Done !in r.value
    decreases n, 0
  {
    match n
    case BasicLit(kind, value) =>
      if kind == "INT" then var k :- NumberOf(value); Ok([Ldc(JNum(k))])
      else Ok([Ldc(JStr(value))])
    case Ident(name) =>
      if name == "true" || name == "false" then Ok([Ldc(JBool(name == "true"))])
      else var p :- Resolve(ce, name); Ok([Ld(p)])
    case UnaryExpr(op, x) =>
      if op == "<-" then
        if x.Ident? then var p :- Resolve(ce, x.name); Ok([Ld(p), Recv]) else Err(Malformed)
      else if op == "&" then Comp(x, ce, wc)
      else var c :- Comp(x, ce, wc); Ok(c + [Unop(op)])
    case BinaryExpr(op, x, y) =>
      var cx :- Comp(x, ce, wc);
      var cy :- Comp(y, ce, wc + |cx|);
      Ok(cx + cy + [Binop(op)])
    case ParenExpr(x) => Comp(x, ce, wc)
    case ExprStmt(x) => Comp(x, ce, wc)
    case SelectorExpr(x, sel) =>
      var cs :- Comp(sel, ce, wc);
      var cx :- Comp(x, ce, wc + |cs|);
      Ok(cs + cx)
    case CallExpr(fun, args) =>
      var cf :- Comp(fun, ce, wc);
      if args.List? then
        var ca :- CompItems(args.items, 0, ce, wc + |cf|, false);
        Ok(cf + ca + [Call(|args.items|)])
      else Ok(cf + [Call(if fun.SelectorExpr? then 1 else 0)])
    case GoStmt(call) =>
      if !call.CallExpr? then Err(Malformed)
      else
        var cf :- Comp(call.fun, ce, wc);
        if call.args.List? then
          var ca :- CompItems(call.args.items, 0, ce, wc + |cf|, false);
          Ok(cf + ca + [GoCall(|call.args.items|), EndGo])
        else Ok(cf + [GoCall(0), EndGo])
    case IfStmt(cond, body, els) =>
      var cc :- Comp(cond, ce, wc);
      var cb :- Comp(body, ce, wc + |cc| + 1);
      var alt := wc + |cc| + |cb| + 2;
      var ca :- if els.Some? then Comp(els.value, ce, alt) else Ok([]);
      Ok(cc + [Jof(alt)] + cb + [Goto(alt + |ca|)] + ca)
    case ForStmt(cond, body) =>
      var cc :- Comp(cond, ce, wc);
      var cb :- Comp(body, ce, wc + |cc| + 1);
      Ok(cc + [Jof(wc + |cc| + |cb| + 3)] + cb + [Pop, Goto(wc), Ldc(JUndefined)])
    case BlockStmt(list) =>
      var locals := ScanForLocals(list);
      var cl :- CompSeq(list, Extend(locals, ce), wc + 1);
      Ok([EnterScope(|locals|)] + cl + [ExitScope])
    case DeclStmt(spec) => CompSpec(spec, ce, wc)
    case GenDecl(spec) => CompSpec(spec, ce, wc)
    case SendStmt(chan, sent) =>
      var p :- Resolve(ce, chan);
      var v :- SendValue(sent);
      Ok([Ld(p), Send(p, v)])
    case AssignStmt(lhs, rhs) =>
      var c :- Comp(rhs, ce, wc);
      var p :- Resolve(ce, lhs);
      Ok(c + [Assign(p)])
    case ReturnStmt(results) =>
      if results == [] then Err(Malformed)
      else var c :- Comp(results[0], ce, wc); Ok(c + [Reset])
    case FuncDecl(name, params, body) =>
      var c :- CompFuncProc(params, body, ce, wc);
      var p :- Resolve(ce, name);
      Ok(c + [Assign(p)])
    case ChanType => Err(Unsupported("ChanType"))
    case Other(t) => Err(Unsupported(t))
  }

  /** The `FuncProc` that a function declaration desugars to: a closure
      over the body, a jump around the body, the body in the environment
      extended by the parameters, and an implicit `return undefined`. */
  function CompFuncProc(params: Option<seq<Field>>, body: Node, ce: Env, wc: int): (r: Result<seq<Instr>, CompileError>)
    ensures r.Ok? ==> Done !in r.value
    decreases body, 1
  {
    var prms :- if params.None? then Ok([]) else ParamsOf(params.value);
    var cb :- Comp(body, Extend(prms, ce), wc + 2);
    Ok([Ldf(Arity(params), wc + 2), Goto(wc + |cb| + 4)] + cb + [Ldc(JUndefined), Reset])
  }

  function ParamsOf(fields: seq<Field>): Result<seq<string>, CompileError> {
    match FirstNames(fields)
    case Some(names) => Ok(names)
    case None => Err(Malformed)
  }

  /** The first spec of a declaration: `make(chan …)` gives CHANNEL, an
      initial value is compiled and assigned, a `sync.Mutex` with no value
      gives MUTEX, and any other declaration emits nothing. */
  function CompSpec(spec: Spec, ce: Env, wc: int): (r: Result<seq<Instr>, CompileError>)
    ensures r.Ok? ==> Done !in r.value
    decreases spec, 0
  {
    if spec.values.List? then
      if spec.values.items == [] then Err(Malformed)
      else
        var chan :- IsMakeChan(spec.values.items[0]);
        if chan then var p :- Resolve(ce, spec.name); Ok([Channel(p)])
        else
          var c :- Comp(spec.values.items[0], ce, wc);
          var p :- Resolve(ce, spec.name);
          Ok(c + [Assign(p)])
    else if spec.typ.None? then Err(Malformed)
    else if spec.typ.value.SelectorExpr? then
      if spec.typ.value.sel == Ident("Mutex") then var p :- Resolve(ce, spec.name); Ok([Mutex(p)])
      else Ok([])
    else Ok([])
  }

  /** `compile_sequence`: undefined for an empty list, else the items
      with a POP between neighbours. */
  function CompSeq(list: seq<Node>, ce: Env, wc: int): (r: Result<seq<Instr>, CompileError>)
    ensures r.Ok? ==> Done !in r.value
    decreases list, 1
  {
    if list == [] then Ok([Ldc(JUndefined)]) else CompItems(list, 0, ce, wc, true)
  }

  /** The items of `list` from index `i` on, each laid out after the
      previous one, with a POP before each item but the first when
      `pops` holds (sequences) and none otherwise (arguments). */
  function CompItems(list: seq<Node>, i: nat, ce: Env, wc: int, pops: bool): (r: Result<seq<Instr>, CompileError>)
    ensures r.Ok? ==> Done !in r.value
    requires i <= |list|
    decreases list, 0, |list| - i
  {
    if i == |list| then Ok([])
    else
      var pre := if pops && i > 0 then [Pop] else [];
      var c :- Comp(list[i], ce, wc + |pre|);
      var rest :- CompItems(list, i + 1, ce, wc + |pre| + |c|, pops);
      Ok(pre + c + rest)
  }

  /** `compile_program` as `compile_and_run` calls it: the declarations
      followed by a call of `main`, as one block, then DONE. */
  function CompileProgram(decls: seq<Node>): (r: Result<seq<Instr>, CompileError>)
    ensures r.Ok? ==> |r.value| >= 1 && r.value[|r.value| - 1] == Done && Done !in r.value[..|r.value| - 1]
  {
    var c :- Comp(BlockStmt(decls + [CallExpr(Ident("main"), List([]))]), GlobalEnv(BuiltinNames), 0);
    Ok(c + [Done])
  }

  /** Every jump and closure address in the code of a construct lands
      inside that code or just after it. */
  lemma {:induction false} CompWithin(n: Node, ce: Env, wc: int)
    ensures Comp(n, ce, wc).Ok? ==> Within(Comp(n, ce, wc).value, wc)
    decreases n, 2
  {
    match n
    case BasicLit(_, _) =>
    case Ident(_) =>
    case UnaryExpr(op, x) => UnaryWithin(op, x, ce, wc);
    case BinaryExpr(op, x, y) => BinaryWithin(op, x, y, ce, wc);
    case ParenExpr(x) => CompWithin(x, ce, wc);
    case ExprStmt(x) => CompWithin(x, ce, wc);
    case SelectorExpr(x, sel) => SelectorWithin(x, sel, ce, wc);
    case CallExpr(fun, args) => CallWithin(fun, args, ce, wc);
    case GoStmt(call) => GoWithin(call, ce, wc);
    case IfStmt(_, _, _) => IfWithin(n, ce, wc);
    case ForStmt(_, _) => ForWithin(n, ce, wc);
    case BlockStmt(list) => BlockWithin(list, ce, wc);
    case DeclStmt(spec) => SpecWithin(spec, ce, wc);
    case GenDecl(spec) => SpecWithin(spec, ce, wc);
    case SendStmt(_, _) =>
    case AssignStmt(lhs, rhs) => AssignWithin(lhs, rhs, ce, wc);
    case ReturnStmt(results) => ReturnWithin(results, ce, wc);
    case FuncDecl(name, params, body) => FuncDeclWithin(name, params, body, ce, wc);
    case ChanType =>
    case Other(_) =>
  }

  lemma {:induction false} UnaryWithin(op: string, x: Node, ce: Env, wc: int)
    ensures var r := Comp(UnaryExpr(op, x), ce, wc); r.Ok? ==> Within(r.value, wc)
    decreases UnaryExpr(op, x), 1
  {
    if op != "<-" && Comp(UnaryExpr(op, x), ce, wc).Ok? {
      CompWithin(x, ce, wc);
      if op != "&" {
        WithinJoin(Comp(x, ce, wc).value, [Unop(op)], wc);
      }
    }
  }

  lemma {:induction false} BinaryWithin(op: string, x: Node, y: Node, ce: Env, wc: int)
    ensures var r := Comp(BinaryExpr(op, x, y), ce, wc); r.Ok? ==> Within(r.value, wc)
    decreases BinaryExpr(op, x, y), 1
  {
    if Comp(BinaryExpr(op, x, y), ce, wc).Ok? {
      var cx := Comp(x, ce, wc).value;
      var cy := Comp(y, ce, wc + |cx|).value;
      CompWithin(x, ce, wc);
      CompWithin(y, ce, wc + |cx|);
      WithinJoin(cx, cy, wc);
      WithinJoin(cx + cy, [Binop(op)], wc);
    }
  }

  lemma {:induction false} SelectorWithin(x: Node, sel: Node, ce: Env, wc: int)
    ensures var r := Comp(SelectorExpr(x, sel), ce, wc); r.Ok? ==> Within(r.value, wc)
    decreases SelectorExpr(x, sel), 1
  {
    if Comp(SelectorExpr(x, sel), ce, wc).Ok? {
      var cs := Comp(sel, ce, wc).value;
      CompWithin(sel, ce, wc);
      CompWithin(x, ce, wc + |cs|);
      WithinJoin(cs, Comp(x, ce, wc + |cs|).value, wc);
    }
  }

  lemma {:induction false} CallWithin(fun: Node, args: Nodes, ce: Env, wc: int)
    ensures var r := Comp(CallExpr(fun, args), ce, wc); r.Ok? ==> Within(r.value, wc)
    decreases CallExpr(fun, args), 1
  {
    if Comp(CallExpr(fun, args), ce, wc).Ok? {
      var cf := Comp(fun, ce, wc).value;
      CompWithin(fun, ce, wc);
      if args.List? {
        var ca := CompItems(args.items, 0, ce, wc + |cf|, false).value;
        ItemsWithin(args.items, 0, ce, wc + |cf|, false);
        WithinJoin(cf, ca, wc);
        WithinJoin(cf + ca, [Call(|args.items|)], wc);
      } else {
        WithinJoin(cf, [Call(if fun.SelectorExpr? then 1 else 0)], wc);
      }
    }
  }

  lemma {:induction false} GoWithin(call: Node, ce: Env, wc: int)
    ensures var r := Comp(GoStmt(call), ce, wc); r.Ok? ==> Within(r.value, wc)
    decreases GoStmt(call), 1
  {
    if Comp(GoStmt(call), ce, wc).Ok? {
      var cf := Comp(call.fun, ce, wc).value;
      CompWithin(call.fun, ce, wc);
      if call.args.List? {
        var ca := CompItems(call.args.items, 0, ce, wc + |cf|, false).value;
        ItemsWithin(call.args.items, 0, ce, wc + |cf|, false);
        WithinJoin(cf, ca, wc);
        WithinJoin(cf + ca, [GoCall(|call.args.items|), EndGo], wc);
      } else {
        WithinJoin(cf, [GoCall(0), EndGo], wc);
      }
    }
  }

  lemma {:induction false} IfWithin(n: Node, ce: Env, wc: int)
    requires n.IfStmt?
    ensures Comp(n, ce, wc).Ok? ==> Within(Comp(n, ce, wc).value, wc)
    decreases n, 1
  {
    if Comp(n, ce, wc).Ok? {
      var cc, cb, ca := IfNodeParts(n, ce, wc);
      IfPartsWithin(n, ce, wc, cc, cb, ca);
    }
  }

  /** `IfWithin` once the parts are known. */
  lemma {:induction false} IfPartsWithin(n: Node, ce: Env, wc: int, cc: seq<Instr>, cb: seq<Instr>, ca: seq<Instr>)
    requires n.IfStmt?
    requires Comp(n.cond, ce, wc) == Ok(cc)
    requires Comp(n.body, ce, wc + |cc| + 1) == Ok(cb)
    requires n.els.Some? ==> Comp(n.els.value, ce, wc + |cc| + |cb| + 2) == Ok(ca)
    requires n.els.None? ==> ca == []
    ensures Within(cc + [Jof(wc + |cc| + |cb| + 2)] + cb + [Goto(wc + |cc| + |cb| + 2 + |ca|)] + ca, wc)
    decreases n, 0
  {
    CompWithin(n.cond, ce, wc);
    CompWithin(n.body, ce, wc + |cc| + 1);
    if n.els.Some? {
      CompWithin(n.els.value, ce, wc + |cc| + |cb| + 2);
    }
    BranchWithin(cc, cb, ca, wc);
  }

  lemma {:induction false} ForWithin(n: Node, ce: Env, wc: int)
    requires n.ForStmt?
    ensures Comp(n, ce, wc).Ok? ==> Within(Comp(n, ce, wc).value, wc)
    decreases n, 1
  {
    if Comp(n, ce, wc).Ok? {
      var cc, cb := ForNodeParts(n, ce, wc);
      CompWithin(n.cond, ce, wc);
      CompWithin(n.body, ce, wc + |cc| + 1);
      LoopWithin(cc, cb, Ldc(JUndefined), wc);
    }
  }

  lemma {:induction false} BlockWithin(list: seq<Node>, ce: Env, wc: int)
    ensures var r := Comp(BlockStmt(list), ce, wc); r.Ok? ==> Within(r.value, wc)
    decreases BlockStmt(list), 1
  {
    if Comp(BlockStmt(list), ce, wc).Ok? {
      var locals := ScanForLocals(list);
      var cl := CompSeq(list, Extend(locals, ce), wc + 1).value;
      SeqWithin(list, Extend(locals, ce), wc + 1);
      WithinJoin([EnterScope(|locals|)], cl, wc);
      WithinJoin([EnterScope(|locals|)] + cl, [ExitScope], wc);
    }
  }

  lemma {:induction false} AssignWithin(lhs: string, rhs: Node, ce: Env, wc: int)
    ensures var r := Comp(AssignStmt(lhs, rhs), ce, wc); r.Ok? ==> Within(r.value, wc)
    decreases AssignStmt(lhs, rhs), 1
  {
    if Comp(AssignStmt(lhs, rhs), ce, wc).Ok? {
      CompWithin(rhs, ce, wc);
      WithinJoin(Comp(rhs, ce, wc).value, [Assign(Position(ce, lhs).value)], wc);
    }
  }

  lemma {:induction false} ReturnWithin(results: seq<Node>, ce: Env, wc: int)
    ensures var r := Comp(ReturnStmt(results), ce, wc); r.Ok? ==> Within(r.value, wc)
    decreases ReturnStmt(results), 1
  {
    if Comp(ReturnStmt(results), ce, wc).Ok? {
      CompWithin(results[0], ce, wc);
      WithinJoin(Comp(results[0], ce, wc).value, [Reset], wc);
    }
  }

  lemma {:induction false} FuncDeclWithin(name: string, params: Option<seq<Field>>, body: Node, ce: Env, wc: int)
    ensures var r := Comp(FuncDecl(name, params, body), ce, wc); r.Ok? ==> Within(r.value, wc)
    decreases FuncDecl(name, params, body), 1
  {
    if Comp(FuncDecl(name, params, body), ce, wc).Ok? {
      FuncProcWithin(params, body, ce, wc);
      WithinJoin(CompFuncProc(params, body, ce, wc).value, [Assign(Position(ce, name).value)], wc);
    }
  }

  lemma {:induction false} FuncProcWithin(params: Option<seq<Field>>, body: Node, ce: Env, wc: int)
    ensures CompFuncProc(params, body, ce, wc).Ok? ==> Within(CompFuncProc(params, body, ce, wc).value, wc)
    decreases body, 3
  {
    if CompFuncProc(params, body, ce, wc).Ok? {
      var prms, cb := FuncProcParts(params, body, ce, wc);
      CompWithin(body, Extend(prms, ce), wc + 2);
      ClosureWithin(Arity(params), cb, Ldc(JUndefined), wc);
    }
  }

  lemma {:induction false} SpecWithin(spec: Spec, ce: Env, wc: int)
    ensures CompSpec(spec, ce, wc).Ok? ==> Within(CompSpec(spec, ce, wc).value, wc)
    decreases spec, 0
  {
    if CompSpec(spec, ce, wc).Ok? && spec.values.List? && !IsMakeChan(spec.values.items[0]).value {
      CompWithin(spec.values.items[0], ce, wc);
      WithinJoin(Comp(spec.values.items[0], ce, wc).value, [Assign(Position(ce, spec.name).value)], wc);
    }
  }

  lemma {:induction false} SeqWithin(list: seq<Node>, ce: Env, wc: int)
    ensures CompSeq(list, ce, wc).Ok? ==> Within(CompSeq(list, ce, wc).value, wc)
    decreases list, 1
  {
    if list != [] {
      ItemsWithin(list, 0, ce, wc, true);
    }
  }

  lemma {:induction false} ItemsWithin(list: seq<Node>, i: nat, ce: Env, wc: int, pops: bool)
    requires i <= |list|
    ensures CompItems(list, i, ce, wc, pops).Ok? ==> Within(CompItems(list, i, ce, wc, pops).value, wc)
    decreases list, 0, |list| - i
  {
    if i < |list| && CompItems(list, i, ce, wc, pops).Ok? {
      var pre := if pops && i > 0 then [Pop] else [];
      var c := Comp(list[i], ce, wc + |pre|).value;
      CompWithin(list[i], ce, wc + |pre|);
      ItemsWithin(list, i + 1, ce, wc + |pre| + |c|, pops);
      WithinJoin(pre, c, wc);
      WithinJoin(pre + c, CompItems(list, i + 1, ce, wc + |pre| + |c|, pops).value, wc);
    }
  }

  /** In a compiled program every jump and closure address names an
      instruction of the program, and the last instruction is DONE. */
  lemma ProgramTargets(decls: seq<Node>)
    ensures CompileProgram(decls).Ok? ==>
              var code := CompileProgram(decls).value;
              |code| >= 1 && code[|code| - 1] == Done && TargetsWithin(code, 0, |code| - 1)
  {
    var main := BlockStmt(decls + [CallExpr(Ident("main"), List([]))]);
    if Comp(main, GlobalEnv(BuiltinNames), 0).Ok? {
      var c := Comp(main, GlobalEnv(BuiltinNames), 0).value;
      CompWithin(main, GlobalEnv(BuiltinNames), 0);
      TargetsJoin(c, [Done], 0, |c|);
    }
  }

  /** The parts a compiled conditional is made of. */
  lemma IfParts(cond: Node, body: Node, els: Option<Node>, ce: Env, wc: int) returns (cc: seq<Instr>, cb: seq<Instr>, ca: seq<Instr>)
    requires Comp(IfStmt(cond, body, els), ce, wc).Ok?
    ensures Comp(cond, ce, wc) == Ok(cc)
    ensures Comp(body, ce, wc + |cc| + 1) == Ok(cb)
    ensures els.Some? ==> Comp(els.value, ce, wc + |cc| + |cb| + 2) == Ok(ca)
    ensures els.None? ==> ca == []
    ensures Comp(IfStmt(cond, body, els), ce, wc).value
         == cc + [Jof(wc + |cc| + |cb| + 2)] + cb + [Goto(wc + |cc| + |cb| + 2 + |ca|)] + ca
  {
    cc, cb, ca := IfNodeParts(IfStmt(cond, body, els), ce, wc);
  }

  /** `IfParts` for any conditional node; stated without naming the
      constructor, so that the compiler is unfolded for this case only. */
  lemma IfNodeParts(n: Node, ce: Env, wc: int) returns (cc: seq<Instr>, cb: seq<Instr>, ca: seq<Instr>)
    requires n.IfStmt? && Comp(n, ce, wc).Ok?
    ensures Comp(n.cond, ce, wc) == Ok(cc)
    ensures Comp(n.body, ce, wc + |cc| + 1) == Ok(cb)
    ensures n.els.Some? ==> Comp(n.els.value, ce, wc + |cc| + |cb| + 2) == Ok(ca)
    ensures n.els.None? ==> ca == []
    ensures Comp(n, ce, wc).value
         == cc + [Jof(wc + |cc| + |cb| + 2)] + cb + [Goto(wc + |cc| + |cb| + 2 + |ca|)] + ca
  {
    cc := Comp(n.cond, ce, wc).value;
    cb := Comp(n.body, ce, wc + |cc| + 1).value;
    ca := if n.els.Some? then Comp(n.els.value, ce, wc + |cc| + |cb| + 2).value else [];
  }

  /** A conditional: the condition, a JOF to the first instruction of the
      alternative, the consequent, and a GOTO past the alternative. */
  lemma IfLayout(cond: Node, body: Node, els: Option<Node>, ce: Env, wc: int) returns (cc: seq<Instr>, cb: seq<Instr>, ca: seq<Instr>)
    requires Comp(IfStmt(cond, body, els), ce, wc).Ok?
    ensures Comp(cond, ce, wc) == Ok(cc) && Comp(body, ce, wc + |cc| + 1) == Ok(cb)
    ensures els.Some? ==> Comp(els.value, ce, wc + |cc| + |cb| + 2) == Ok(ca)
    ensures els.None? ==> ca == []
    ensures var code := Comp(IfStmt(cond, body, els), ce, wc).value;
            var alt := |cc| + |cb| + 2;
            && alt <= |code|
            && code[..|cc|] == cc
            && code[|cc|] == Jof(wc + alt)
            && code[|cc| + 1..alt - 1] == cb
            && code[alt - 1] == Goto(wc + |code|)
            && code[alt..] == ca
  {
    cc, cb, ca := IfParts(cond, body, els, ce, wc);
    FiveParts(cc, Jof(wc + |cc| + |cb| + 2), cb, Goto(wc + |cc| + |cb| + 2 + |ca|), ca);
  }

  /** The parts a compiled loop is made of. */
  lemma ForParts(cond: Node, body: Node, ce: Env, wc: int) returns (cc: seq<Instr>, cb: seq<Instr>)
    requires Comp(ForStmt(cond, body), ce, wc).Ok?
    ensures Comp(cond, ce, wc) == Ok(cc)
    ensures Comp(body, ce, wc + |cc| + 1) == Ok(cb)
    ensures Comp(ForStmt(cond, body), ce, wc).value
         == cc + [Jof(wc + |cc| + |cb| + 3)] + cb + [Pop, Goto(wc), Ldc(JUndefined)]
  {
    cc, cb := ForNodeParts(ForStmt(cond, body), ce, wc);
  }

  /** `ForParts` for any loop node. */
  lemma ForNodeParts(n: Node, ce: Env, wc: int) returns (cc: seq<Instr>, cb: seq<Instr>)
    requires n.ForStmt? && Comp(n, ce, wc).Ok?
    ensures Comp(n.cond, ce, wc) == Ok(cc)
    ensures Comp(n.body, ce, wc + |cc| + 1) == Ok(cb)
    ensures Comp(n, ce, wc).value == cc + [Jof(wc + |cc| + |cb| + 3)] + cb + [Pop, Goto(wc), Ldc(JUndefined)]
  {
    cc := Comp(n.cond, ce, wc).value;
    cb := Comp(n.body, ce, wc + |cc| + 1).value;
  }

  /** A loop: the condition, a JOF to the final LDC of `undefined`, the
      body, a POP of the body's value and a GOTO back to the condition. */
  lemma ForLayout(cond: Node, body: Node, ce: Env, wc: int) returns (cc: seq<Instr>, cb: seq<Instr>)
    requires Comp(ForStmt(cond, body), ce, wc).Ok?
    ensures Comp(cond, ce, wc) == Ok(cc) && Comp(body, ce, wc + |cc| + 1) == Ok(cb)
    ensures var code := Comp(ForStmt(cond, body), ce, wc).value;
            && |code| == |cc| + |cb| + 4
            && code[..|cc|] == cc
            && code[|cc|] == Jof(wc + |code| - 1)
            && code[|cc| + 1..|code| - 3] == cb
            && code[|code| - 3] == Pop
            && code[|code| - 2] == Goto(wc)
            && code[|code| - 1] == Ldc(JUndefined)
  {
    cc, cb := ForParts(cond, body, ce, wc);
    LoopShape(cc + [Jof(wc + |cc| + |cb| + 3)] + cb, Pop, Goto(wc), Ldc(JUndefined));
    FiveParts(cc, Jof(wc + |cc| + |cb| + 3), cb, Pop, [Goto(wc), Ldc(JUndefined)]);
  }

  /** The parts the closure of a function declaration is made of. */
  lemma FuncProcParts(params: Option<seq<Field>>, body: Node, ce: Env, wc: int) returns (prms: seq<string>, cb: seq<Instr>)
    requires CompFuncProc(params, body, ce, wc).Ok?
    ensures ParamNames(params) == Some(prms)
    ensures Comp(body, Extend(prms, ce), wc + 2) == Ok(cb)
    ensures CompFuncProc(params, body, ce, wc).value
         == [Ldf(Arity(params), wc + 2), Goto(wc + |cb| + 4)] + cb + [Ldc(JUndefined), Reset]
  {
    prms := if params.None? then [] else ParamsOf(params.value).value;
    cb := Comp(body, Extend(prms, ce), wc + 2).value;
  }

  /** The parts a compiled function declaration is made of. */
  lemma FuncDeclParts(name: string, params: Option<seq<Field>>, body: Node, ce: Env, wc: int) returns (prms: seq<string>, cb: seq<Instr>)
    requires Comp(FuncDecl(name, params, body), ce, wc).Ok?
    ensures ParamNames(params) == Some(prms)
    ensures Comp(body, Extend(prms, ce), wc + 2) == Ok(cb)
    ensures Position(ce, name).Some?
    ensures Comp(FuncDecl(name, params, body), ce, wc).value
         == [Ldf(Arity(params), wc + 2), Goto(wc + |cb| + 4)] + cb + [Ldc(JUndefined), Reset] + [Assign(Position(ce, name).value)]
  {
    FuncDeclNode(FuncDecl(name, params, body), ce, wc);
    prms, cb := FuncProcParts(params, body, ce, wc);
  }

  /** A function declaration compiles to its closure and an ASSIGN. */
  lemma FuncDeclNode(n: Node, ce: Env, wc: int)
    requires n.FuncDecl? && Comp(n, ce, wc).Ok?
    ensures CompFuncProc(n.params, n.body, ce, wc).Ok? && Position(ce, n.name).Some?
    ensures Comp(n, ce, wc).value == CompFuncProc(n.params, n.body, ce, wc).value + [Assign(Position(ce, n.name).value)]
  {
  }

  /** A function declaration: LDF of a closure whose code starts two
      instructions on, a GOTO to the ASSIGN that binds it, the body in
      the environment extended by the parameters, and an implicit return
      of `undefined`. */
  lemma FuncDeclLayout(name: string, params: Option<seq<Field>>, body: Node, ce: Env, wc: int)
    requires Comp(FuncDecl(name, params, body), ce, wc).Ok?
    ensures ParamNames(params).Some? && |ParamNames(params).value| == Arity(params)
    ensures Comp(body, Extend(ParamNames(params).value, ce), wc + 2).Ok?
    ensures var code := Comp(FuncDecl(name, params, body), ce, wc).value;
            var cb := Comp(body, Extend(ParamNames(params).value, ce), wc + 2).value;
            && |code| == |cb| + 5
            && code[0] == Ldf(Arity(params), wc + 2)
            && code[1] == Goto(wc + |code| - 1)
            && code[2..|code| - 3] == cb
            && code[|code| - 3] == Ldc(JUndefined)
            && code[|code| - 2] == Reset
            && code[|code| - 1] == Assign(Position(ce, name).value)
  {
    var prms, cb := FuncDeclParts(name, params, body, ce, wc);
    ClosureShape(Ldf(Arity(params), wc + 2), Goto(wc + |cb| + 4), cb, Ldc(JUndefined), Reset, Assign(Position(ce, name).value));
    FiveParts([Ldf(Arity(params), wc + 2)], Goto(wc + |cb| + 4), cb, Ldc(JUndefined), [Reset, Assign(Position(ce, name).value)]);
  }

  /** A block: ENTER_SCOPE with one slot per declaring item, the items
      in the environment extended by the declared names, EXIT_SCOPE. */
  lemma BlockLayout(list: seq<Node>, ce: Env, wc: int)
    requires Comp(BlockStmt(list), ce, wc).Ok?
    ensures var code := Comp(BlockStmt(list), ce, wc).value;
            var locals := ScanForLocals(list);
            && |code| >= 2
            && code[0] == EnterScope(|Declaring(list)|)
            && code[1..|code| - 1] == CompSeq(list, Extend(locals, ce), wc + 1).value
            && code[|code| - 1] == ExitScope
  {
    ScanCounts(list);
    var locals := ScanForLocals(list);
    var cl := CompSeq(list, Extend(locals, ce), wc + 1).value;
    var code := [EnterScope(|locals|)] + cl + [ExitScope];
    assert Comp(BlockStmt(list), ce, wc).value == code;
    assert code[1..|code| - 1] == cl;
  }

  /** A name other than `true` and `false` compiles to an LD of the
      innermost frame slot that binds it, and fails when no frame does. */
  lemma IdentLoads(x: string, ce: Env, wc: int)
    requires x != "true" && x != "false"
    ensures Comp(Ident(x), ce, wc).Ok? <==> exists k :: 0 <= k < |ce| && x in ce[k]
    ensures Comp(Ident(x), ce, wc).Ok? ==>
              var p := Comp(Ident(x), ce, wc).value[0].pos;
              && |Comp(Ident(x), ce, wc).value| == 1 && Comp(Ident(x), ce, wc).value[0].Ld?
              && p.frame < |ce| && p.index < |ce[p.frame]| && ce[p.frame][p.index] == x
              && forall k :: p.frame < k < |ce| ==> x !in ce[k]
  {
  }

  /** An integer literal compiles to an LDC of the number it spells. */
  lemma IntLiteral(n: nat, ce: Env, wc: int)
    ensures Comp(BasicLit("INT", Digits(n)), ce, wc) == Ok([Ldc(JNum(n))])
  {
    NumberOfDigits(n);
  }

  /** A send loads the channel and then sends to the same position, so
      that going back two instructions from after SEND re-runs the whole
      statement; a receive is the LD of the channel and RECV. */
  lemma SendRecvLayout(chan: string, sent: Node, ce: Env, wc: int)
    ensures Comp(SendStmt(chan, sent), ce, wc).Ok? ==>
              var code := Comp(SendStmt(chan, sent), ce, wc).value;
              |code| == 2 && code[0] == Ld(code[1].pos) && code[1].Send?
              && code[1].pos == Position(ce, chan).value
    ensures Comp(UnaryExpr("<-", Ident(chan)), ce, wc).Ok? ==>
              Comp(UnaryExpr("<-", Ident(chan)), ce, wc).value == [Ld(Position(ce, chan).value), Recv]
  {
  }

  /** Items after the first are each preceded by a POP, whatever the
      index at which the listing starts. */
  lemma {:induction false} ItemsShift(list: seq<Node>, i: nat, ce: Env, wc: int, pops: bool)
    requires 1 <= i <= |list| - 1
    ensures CompItems(list, i + 1, ce, wc, pops) == CompItems(list[1..], i, ce, wc, pops)
    decreases |list| - i
  {
    if i + 1 < |list| {
      assert list[i + 1] == list[1..][i];
      var pre := if pops then [Pop] else [];
      var c := Comp(list[i + 1], ce, wc + |pre|);
      if c.Ok? {
        ItemsShift(list, i + 1, ce, wc + |pre| + |c.value|, pops);
      }
      ItemsStepSame(list, i + 1, list[1..], i, ce, wc, pops);
    }
  }

  /** Two listings with the same item at their positions and the same
      listings after them compile alike from those positions. */
  lemma ItemsStepSame(a: seq<Node>, i: nat, b: seq<Node>, j: nat, ce: Env, wc: int, pops: bool)
    requires i < |a| && j < |b| && a[i] == b[j] && (i > 0 <==> j > 0)
    requires var pre := if pops && i > 0 then [Pop] else [];
             var c := Comp(a[i], ce, wc + |pre|);
             c.Ok? ==> CompItems(a, i + 1, ce, wc + |pre| + |c.value|, pops) == CompItems(b, j + 1, ce, wc + |pre| + |c.value|, pops)
    ensures CompItems(a, i, ce, wc, pops) == CompItems(b, j, ce, wc, pops)
  {
  }

  /** The items from index 1 on are a POP and the sequence of the rest. */
  lemma ItemsFromOne(list: seq<Node>, ce: Env, w: int)
    requires |list| >= 2
    ensures CompItems(list, 1, ce, w, true) ==
              match CompSeq(list[1..], ce, w + 1)
              case Ok(rest) => Ok([Pop] + rest)
              case Err(e) => Err(e)
  {
    var c1 := Comp(list[1], ce, w + 1);
    assert list[1..][0] == list[1];
    if c1.Ok? {
      var w2 := w + 1 + |c1.value|;
      if |list| > 2 {
        ItemsShift(list, 1, ce, w2, true);
      } else {
        assert CompItems(list, 2, ce, w2, true) == Ok([]);
        assert CompItems(list[1..], 1, ce, w2, true) == Ok([]);
      }
      ItemsHeadPop(list, ce, w, c1.value);
    }
  }

  /** `ItemsFromOne` once the item at index 1 has compiled. */
  lemma ItemsHeadPop(list: seq<Node>, ce: Env, w: int, c1: seq<Instr>)
    requires |list| >= 2 && Comp(list[1], ce, w + 1) == Ok(c1) && list[1..][0] == list[1]
    requires CompItems(list, 2, ce, w + 1 + |c1|, true) == CompItems(list[1..], 1, ce, w + 1 + |c1|, true)
    ensures CompItems(list, 1, ce, w, true) ==
              match CompSeq(list[1..], ce, w + 1)
              case Ok(rest) => Ok([Pop] + rest)
              case Err(e) => Err(e)
  {
    var rest := CompItems(list[1..], 1, ce, w + 1 + |c1|, true);
    if rest.Ok? {
      assert CompSeq(list[1..], ce, w + 1) == Ok([] + c1 + rest.value);
      assert [Pop] + c1 + rest.value == [Pop] + ([] + c1 + rest.value);
    }
  }

  /** A sequence of two or more items is the first item's code, a POP,
      and the code of the remaining sequence. */
  lemma SeqUnfold(list: seq<Node>, ce: Env, wc: int)
    requires |list| >= 2
    ensures var c0 := Comp(list[0], ce, wc);
            CompSeq(list, ce, wc) ==
              if c0.Err? then Err(c0.error)
              else match CompSeq(list[1..], ce, wc + |c0.value| + 1)
                   case Ok(rest) => Ok(c0.value + [Pop] + rest)
                   case Err(e) => Err(e)
  {
    var c0 := Comp(list[0], ce, wc);
    if c0.Ok? {
      ItemsFromOne(list, ce, wc + |c0.value|);
      var rest := CompSeq(list[1..], ce, wc + |c0.value| + 1);
      if rest.Ok? {
        assert [] + c0.value + ([Pop] + rest.value) == c0.value + [Pop] + rest.value;
      }
    }
  }

  /** A sequence of one item is that item; an empty one is LDC undefined. */
  lemma SeqShort(list: seq<Node>, ce: Env, wc: int)
    requires |list| <= 1
    ensures CompSeq(list, ce, wc) == if list == [] then Ok([Ldc(JUndefined)]) else Comp(list[0], ce, wc)
  {
    if list != [] {
      var c := Comp(list[0], ce, wc);
      assert CompItems(list, 1, ce, wc + (if c.Ok? then |c.value| else 0), true) == Ok([]);
      if c.Ok? {
        assert [] + c.value + [] == c.value;
      }
    }
  }

  /** A listing whose last item is a call ends with that call's CALL. */
  lemma {:induction false} ItemsEndInCall(list: seq<Node>, i: nat, ce: Env, wc: int, pops: bool)
    requires i < |list| && list[|list| - 1].CallExpr? && list[|list| - 1].args.List?
    ensures var r := CompItems(list, i, ce, wc, pops);
            r.Ok? ==> |r.value| > 0 && r.value[|r.value| - 1] == Call(|list[|list| - 1].args.items|)
    decreases |list| - i
  {
    if CompItems(list, i, ce, wc, pops).Ok? {
      var pre, c, rest := ItemsParts(list, i, ce, wc, pops);
      if i + 1 < |list| {
        ItemsEndInCall(list, i + 1, ce, wc + |pre| + |c|, pops);
        LastOfJoin(pre + c, rest);
      } else {
        CallEndsInCall(list[i], ce, wc + |pre|);
        LastOfJoin(pre, c);
        assert pre + c + rest == pre + c;
      }
    }
  }

  /** The parts compiling the items from index `i` on is made of. */
  lemma ItemsParts(list: seq<Node>, i: nat, ce: Env, wc: int, pops: bool) returns (pre: seq<Instr>, c: seq<Instr>, rest: seq<Instr>)
    requires i < |list| && CompItems(list, i, ce, wc, pops).Ok?
    ensures pre == if pops && i > 0 then [Pop] else []
    ensures Comp(list[i], ce, wc + |pre|) == Ok(c)
    ensures CompItems(list, i + 1, ce, wc + |pre| + |c|, pops) == Ok(rest)
    ensures i + 1 == |list| ==> rest == []
    ensures CompItems(list, i, ce, wc, pops).value == pre + c + rest
  {
    pre := if pops && i > 0 then [Pop] else [];
    c := Comp(list[i], ce, wc + |pre|).value;
    rest := CompItems(list, i + 1, ce, wc + |pre| + |c|, pops).value;
  }

  /** A call compiles to code ending in CALL of its number of arguments. */
  lemma CallEndsInCall(n: Node, ce: Env, wc: int)
    requires n.CallExpr? && n.args.List?
    ensures Comp(n, ce, wc).Ok? ==> |Comp(n, ce, wc).value| > 0 && Comp(n, ce, wc).value[|Comp(n, ce, wc).value| - 1] == Call(|n.args.items|)
  {
  }

  /** The program ends by calling `main` with no arguments, leaving the
      outermost scope, and stopping. */
  lemma ProgramCallsMain(decls: seq<Node>)
    ensures CompileProgram(decls).Ok? ==>
              var code := CompileProgram(decls).value;
              |code| >= 4 && code[0].EnterScope? && code[|code| - 3] == Call(0)
              && code[|code| - 2] == ExitScope && code[|code| - 1] == Done
  {
    var list := decls + [CallExpr(Ident("main"), List([]))];
    var ce := GlobalEnv(BuiltinNames);
    var locals := ScanForLocals(list);
    if CompileProgram(decls).Ok? {
      var cl := CompSeq(list, Extend(locals, ce), 1).value;
      ItemsEndInCall(list, 0, Extend(locals, ce), 1, true);
      assert CompileProgram(decls).value == [EnterScope(|locals|)] + cl + [ExitScope] + [Done];
    }
  }
}
