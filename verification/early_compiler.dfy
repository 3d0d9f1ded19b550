/** The compiler of compiler/compiler.js, the earlier port to Go syntax
    trees. It knows fewer node types than the compiler of server/go_vm.js
    (no conditionals, loops, goroutines, channels or mutexes), pops the
    value of every expression statement, and compiles `main` so that its
    body runs in place instead of being called. */
module EarlyCompiler {
  import opened Wrappers
  import opened JsValues
  import opened Positions
  import opened Code
  import opened CompileEnv
  import opened GoAst
  import GoVm = GoVmCompiler

  /** The builtins of compiler/compiler.js, in the order of their ids. */
  const BuiltinNames: Frame :=
    ["println", "error", "pair", "is_pair", "head", "tail", "is_null", "set_head", "set_tail"]

  /** `scan_for_locals`: the names declared by the `DeclStmt` and
      `FuncDecl` items of a block, in order. */
  function ScanForLocals(list: seq<Node>): (names: seq<string>)
    ensures |names| <= |list|
    ensures forall x :: x in names <==> exists i :: 0 <= i < |list| && x in Declared(list[i])
    decreases |list|
  {
    if list == [] then []
    else Declared(list[0]) + ScanForLocals(list[1..])
  }

  function Declared(n: Node): seq<string> {
    match n
    case DeclStmt(spec) => [spec.name]
    case FuncDecl(name, _, _) => [name]
    case _ => []
  }

  /** The blocks of this compiler allocate no slot for a `GenDecl` item;
      on blocks without one they agree with those of server/go_vm.js. */
  lemma {:induction false} ScanIgnoresGenDecl(list: seq<Node>)
    ensures |ScanForLocals(list)| <= |GoVm.ScanForLocals(list)|
    ensures (forall i :: 0 <= i < |list| ==> !list[i].GenDecl?) ==>
              ScanForLocals(list) == GoVm.ScanForLocals(list)
    decreases |list|
  {
    if list != [] {
      ScanIgnoresGenDecl(list[1..]);
      if forall i :: 0 <= i < |list| ==> !list[i].GenDecl? {
        assert forall i :: 0 <= i < |list[1..]| ==> !list[1..][i].GenDecl? by {
          forall i | 0 <= i < |list[1..]| ensures !list[1..][i].GenDecl? {
            assert list[1..][i] == list[i + 1];
          }
        }
        assert !list[0].GenDecl?;
      }
    }
  }

  /** `compile_comp`; a node type the table has no entry for is an
      error. */
  function Comp(n: Node, ce: Env, wc: int): (r: Result<seq<Instr>, CompileError>)
    ensures r.Ok? ==> Done !in r.value
    decreases n, 0
  {
    match n
    case BasicLit(kind, value) =>
      if kind == "INT" then var k :- NumberOf(value); Ok([Ldc(JNum(k))])
      else Ok([Ldc(JStr(value))])
    case Ident(name) =>
      if name == "true" || name == "false" then Ok([Ldc(JBool(name == "true"))])
      else var p :- Resolve(ce, name); Ok([Ld(p)])
    case UnaryExpr(op, x) => var c :- Comp(x, ce, wc); Ok(c + [Unop(op)])
    case BinaryExpr(op, x, y) =>
      var cx :- Comp(x, ce, wc);
      var cy :- Comp(y, ce, wc + |cx|);
      Ok(cx + cy + [Binop(op)])
    case CallExpr(fun, args) =>
      var cf :- Comp(fun, ce, wc);
      if args.List? then
        var ca :- CompItems(args.items, 0, ce, wc + |cf|, false);
        Ok(cf + ca + [Call(|args.items|)])
      else Ok(cf + [Call(0)])
    case ExprStmt(x) => var c :- Comp(x, ce, wc); Ok(c + [Pop])
    case BlockStmt(list) =>
      var locals := ScanForLocals(list);
      var cl :- CompSeq(list, Extend(locals, ce), wc + 1);
      Ok([EnterScope(|locals|)] + cl + [ExitScope])
    case DeclStmt(spec) =>
      if spec.values.Null? || spec.values.items == [] then Err(Malformed)
      else
        var c :- Comp(spec.values.items[0], ce, wc);
        var p :- Resolve(ce, spec.name);
        Ok(c + [Assign(p)])
    case AssignStmt(lhs, rhs) =>
      var c :- Comp(rhs, ce, wc);
      var p :- Resolve(ce, lhs);
      Ok(c + [Assign(p)])
    case ReturnStmt(results) =>
      if results == [] then Err(Malformed)
      else var c :- Comp(results[0], ce, wc); Ok(c + [Reset])
    case FuncDecl(name, params, body) =>
      var c :- CompFuncProc(name, params, body, ce, wc);
      var p :- Resolve(ce, name);
      Ok(c + [Assign(p)])
    case ParenExpr(_) => Err(Unsupported("ParenExpr"))
    case SelectorExpr(_, _) => Err(Unsupported("SelectorExpr"))
    case ChanType => Err(Unsupported("ChanType"))
    case IfStmt(_, _, _) => Err(Unsupported("IfStmt"))
    case ForStmt(_, _) => Err(Unsupported("ForStmt"))
    case GenDecl(_) => Err(Unsupported("GenDecl"))
    case SendStmt(_, _) => Err(Unsupported("SendStmt"))
    case GoStmt(_) => Err(Unsupported("GoStmt"))
    case Other(t) => Err(Unsupported(t))
  }

  /** The `FuncProc` of a function declaration. `main` gets an LDF of the
      next instruction and no jump around its body; any other function
      gets an LDF past a GOTO to the end of its body. Neither gets an
      implicit return. */
  function CompFuncProc(name: string, params: Option<seq<Field>>, body: Node, ce: Env, wc: int): (r: Result<seq<Instr>, CompileError>)
    ensures r.Ok? ==> Done !in r.value
    decreases body, 1
  {
    var prms :- if params.None? then Ok([]) else ParamsOf(params.value);
    if name == "main" then
      var cb :- Comp(body, Extend(prms, ce), wc + 1);
      Ok([Ldf(Arity(params), wc + 1)] + cb)
    else
      var cb :- Comp(body, Extend(prms, ce), wc + 2);
      Ok([Ldf(Arity(params), wc + 2), Goto(wc + 2 + |cb|)] + cb)
  }

  function ParamsOf(fields: seq<Field>): Result<seq<string>, CompileError> {
    match FirstNames(fields)
    case Some(names) => Ok(names)
    case None => Err(Malformed)
  }

  /** `compile_sequence`. */
  function CompSeq(list: seq<Node>, ce: Env, wc: int): (r: Result<seq<Instr>, CompileError>)
    ensures r.Ok? ==> Done !in r.value
    decreases list, 1
  {
    if list == [] then Ok([Ldc(JUndefined)]) else CompItems(list, 0, ce, wc, true)
  }

  function CompItems(list: seq<Node>, i: nat, ce: Env, wc: int, pops: bool): (r: Result<seq<Instr>, CompileError>)
    ensures r.Ok? ==> Done !in r.value
    requires i <= |list|
    decreases list, 0, |list| - i
  {
    if i == |list| then Ok([])
    else
      var pre := if pops && i > 0 then [Pop] else [];
      var c :- Comp(list[i], ce, wc + |pre|);
      var rest :- CompItems(list, i + 1, ce, wc + |pre| + |c|, pops);
      Ok(pre + c + rest)
  }

  /** The program's declarations compiled as one block, then DONE; no
      call of `main` is added. */
  function CompileProgram(decls: seq<Node>): (r: Result<seq<Instr>, CompileError>)
    ensures r.Ok? ==> |r.value| >= 1 && r.value[|r.value| - 1] == Done && Done !in r.value[..|r.value| - 1]
  {
    var c :- Comp(BlockStmt(decls), GlobalEnv(BuiltinNames), 0);
    Ok(c + [Done])
  }

  /** A name other than `true` and `false` compiles to an LD of the
      innermost frame slot that binds it, and fails when no frame does;
      `true` and `false` are constants. */
  lemma IdentLoads(x: string, ce: Env, wc: int)
    ensures x == "true" || x == "false" ==> Comp(Ident(x), ce, wc) == Ok([Ldc(JBool(x == "true"))])
    ensures x != "true" && x != "false" ==>
              (Comp(Ident(x), ce, wc).Ok? <==> exists k :: 0 <= k < |ce| && x in ce[k])
    ensures x != "true" && x != "false" && Comp(Ident(x), ce, wc).Ok? ==>
              var p := Comp(Ident(x), ce, wc).value[0].pos;
              && |Comp(Ident(x), ce, wc).value| == 1 && Comp(Ident(x), ce, wc).value[0].Ld?
              && p.frame < |ce| && p.index < |ce[p.frame]| && ce[p.frame][p.index] == x
              && forall k :: p.frame < k < |ce| ==> x !in ce[k]
  {
  }

  /** An integer literal compiles to an LDC of the number it spells. */
  lemma IntLiteral(n: nat, ce: Env, wc: int)
    ensures Comp(BasicLit("INT", Digits(n)), ce, wc) == Ok([Ldc(JNum(n))])
  {
    NumberOfDigits(n);
  }

  /** An expression statement leaves nothing behind: its code is the
      expression's followed by a POP of the value. */
  lemma ExprStmtPops(x: Node, ce: Env, wc: int)
    ensures var r := Comp(ExprStmt(x), ce, wc);
            && (r.Ok? <==> Comp(x, ce, wc).Ok?)
            && (r.Ok? ==> |r.value| >= 1 && r.value[..|r.value| - 1] == Comp(x, ce, wc).value
                          && r.value[|r.value| - 1] == Pop)
  {
    if Comp(x, ce, wc).Ok? {
      var c := Comp(x, ce, wc).value;
      assert (c + [Pop])[..|c|] == c;
    }
  }

  /** The parts a compiled function declaration is made of. */
  lemma FuncDeclParts(name: string, params: Option<seq<Field>>, body: Node, ce: Env, wc: int) returns (prms: seq<string>, cb: seq<Instr>)
    requires Comp(FuncDecl(name, params, body), ce, wc).Ok?
    ensures ParamNames(params) == Some(prms)
    ensures var start := if name == "main" then wc + 1 else wc + 2;
            Comp(body, Extend(prms, ce), start) == Ok(cb)
    ensures Position(ce, name).Some?
    ensures name == "main" ==>
              Comp(FuncDecl(name, params, body), ce, wc).value
                == [Ldf(Arity(params), wc + 1)] + cb + [Assign(Position(ce, name).value)]
    ensures name != "main" ==>
              Comp(FuncDecl(name, params, body), ce, wc).value
                == [Ldf(Arity(params), wc + 2), Goto(wc + 2 + |cb|)] + cb + [Assign(Position(ce, name).value)]
  {
    FuncDeclNode(FuncDecl(name, params, body), ce, wc);
    prms, cb := FuncProcParts(name, params, body, ce, wc);
  }

  /** A function declaration compiles to its closure and an ASSIGN. */
  lemma FuncDeclNode(n: Node, ce: Env, wc: int)
    requires n.FuncDecl? && Comp(n, ce, wc).Ok?
    ensures CompFuncProc(n.name, n.params, n.body, ce, wc).Ok? && Position(ce, n.name).Some?
    ensures Comp(n, ce, wc).value == CompFuncProc(n.name, n.params, n.body, ce, wc).value + [Assign(Position(ce, n.name).value)]
  {
  }

  /** The parts a compiled closure is made of: `main` has no GOTO around
      its body. */
  lemma FuncProcParts(name: string, params: Option<seq<Field>>, body: Node, ce: Env, wc: int) returns (prms: seq<string>, cb: seq<Instr>)
    requires CompFuncProc(name, params, body, ce, wc).Ok?
    ensures ParamNames(params) == Some(prms)
    ensures Comp(body, Extend(prms, ce), if name == "main" then wc + 1 else wc + 2) == Ok(cb)
    ensures name == "main" ==> CompFuncProc(name, params, body, ce, wc).value == [Ldf(Arity(params), wc + 1)] + cb
    ensures name != "main" ==> CompFuncProc(name, params, body, ce, wc).value == [Ldf(Arity(params), wc + 2), Goto(wc + 2 + |cb|)] + cb
  {
    prms := if params.None? then [] else ParamsOf(params.value).value;
    cb := Comp(body, Extend(prms, ce), if name == "main" then wc + 1 else wc + 2).value;
  }

  /** A function declaration: for `main`, the LDF names the very next
      instruction, the first of the body, which therefore runs in place
      right after the closure is made; for any other function the LDF
      names the instruction after a GOTO, and the GOTO lands on the
      ASSIGN that binds the closure. The body is compiled in the
      environment extended by the parameter frame, and no return of
      `undefined` is added after it. */
  lemma FuncDeclLayout(name: string, params: Option<seq<Field>>, body: Node, ce: Env, wc: int)
    requires Comp(FuncDecl(name, params, body), ce, wc).Ok?
    ensures ParamNames(params).Some? && |ParamNames(params).value| == Arity(params)
    ensures var code := Comp(FuncDecl(name, params, body), ce, wc).value;
            var start := if name == "main" then 1 else 2;
            var cb := Comp(body, Extend(ParamNames(params).value, ce), wc + start);
            && cb.Ok? && |code| == start + |cb.value| + 1
            && code[0] == Ldf(Arity(params), wc + start)
            && (name != "main" ==> code[1] == Goto(wc + |code| - 1))
            && code[start..|code| - 1] == cb.value
            && code[|code| - 1] == Assign(Position(ce, name).value)
  {
    var prms, cb := FuncDeclParts(name, params, body, ce, wc);
    var asg := Assign(Position(ce, name).value);
    if name == "main" {
      var code := [Ldf(Arity(params), wc + 1)] + cb + [asg];
      assert code[1..|code| - 1] == cb;
    } else {
      var code := [Ldf(Arity(params), wc + 2), Goto(wc + 2 + |cb|)] + cb + [asg];
      assert code[2..|code| - 1] == cb;
    }
  }

  /** The parts a compiled block is made of. */
  lemma BlockLayout(list: seq<Node>, ce: Env, wc: int)
    requires Comp(BlockStmt(list), ce, wc).Ok?
    ensures var code := Comp(BlockStmt(list), ce, wc).value;
            && |code| >= 2
            && code[0] == EnterScope(|ScanForLocals(list)|)
            && code[1..|code| - 1] == CompSeq(list, Extend(ScanForLocals(list), ce), wc + 1).value
            && code[|code| - 1] == ExitScope
  {
    var locals := ScanForLocals(list);
    var cl := CompSeq(list, Extend(locals, ce), wc + 1).value;
    var code := [EnterScope(|locals|)] + cl + [ExitScope];
    assert Comp(BlockStmt(list), ce, wc).value == code;
    assert code[1..|code| - 1] == cl;
  }

  /** Every jump and closure address in the code of a construct lands
      inside that code or just after it. */
  lemma {:induction false} CompWithin(n: Node, ce: Env, wc: int)
    ensures Comp(n, ce, wc).Ok? ==> Within(Comp(n, ce, wc).value, wc)
    decreases n, 2
  {
    match n
    case UnaryExpr(op, x) => UnaryWithin(op, x, ce, wc);
    case BinaryExpr(op, x, y) => BinaryWithin(op, x, y, ce, wc);
    case CallExpr(fun, args) => CallWithin(fun, args, ce, wc);
    case ExprStmt(x) => ExprStmtWithin(x, ce, wc);
    case BlockStmt(list) => BlockWithin(list, ce, wc);
    case DeclStmt(spec) => DeclWithin(spec, ce, wc);
    case AssignStmt(lhs, rhs) => AssignWithin(lhs, rhs, ce, wc);
    case ReturnStmt(results) => ReturnWithin(results, ce, wc);
    case FuncDecl(name, params, body) => FuncDeclWithin(name, params, body, ce, wc);
    case _ =>
  }

  lemma {:induction false} UnaryWithin(op: string, x: Node, ce: Env, wc: int)
    ensures var r := Comp(UnaryExpr(op, x), ce, wc); r.Ok? ==> Within(r.value, wc)
    decreases UnaryExpr(op, x), 1
  {
    if Comp(UnaryExpr(op, x), ce, wc).Ok? {
      CompWithin(x, ce, wc);
      WithinJoin(Comp(x, ce, wc).value, [Unop(op)], wc);
    }
  }

  lemma {:induction false} BinaryWithin(op: string, x: Node, y: Node, ce: Env, wc: int)
    ensures var r := Comp(BinaryExpr(op, x, y), ce, wc); r.Ok? ==> Within(r.value, wc)
    decreases BinaryExpr(op, x, y), 1
  {
    if Comp(BinaryExpr(op, x, y), ce, wc).Ok? {
      var cx := Comp(x, ce, wc).value;
      var cy := Comp(y, ce, wc + |cx|).value;
      CompWithin(x, ce, wc);
      CompWithin(y, ce, wc + |cx|);
      WithinJoin(cx, cy, wc);
      WithinJoin(cx + cy, [Binop(op)], wc);
    }
  }

  lemma {:induction false} CallWithin(fun: Node, args: Nodes, ce: Env, wc: int)
    ensures var r := Comp(CallExpr(fun, args), ce, wc); r.Ok? ==> Within(r.value, wc)
    decreases CallExpr(fun, args), 1
  {
    if Comp(CallExpr(fun, args), ce, wc).Ok? {
      var cf := Comp(fun, ce, wc).value;
      CompWithin(fun, ce, wc);
      if args.List? {
        var ca := CompItems(args.items, 0, ce, wc + |cf|, false).value;
        ItemsWithin(args.items, 0, ce, wc + |cf|, false);
        WithinJoin(cf, ca, wc);
        WithinJoin(cf + ca, [Call(|args.items|)], wc);
      } else {
        WithinJoin(cf, [Call(0)], wc);
      }
    }
  }

  lemma {:induction false} ExprStmtWithin(x: Node, ce: Env, wc: int)
    ensures var r := Comp(ExprStmt(x), ce, wc); r.Ok? ==> Within(r.value, wc)
    decreases ExprStmt(x), 1
  {
    if Comp(ExprStmt(x), ce, wc).Ok? {
      CompWithin(x, ce, wc);
      WithinJoin(Comp(x, ce, wc).value, [Pop], wc);
    }
  }

  lemma {:induction false} BlockWithin(list: seq<Node>, ce: Env, wc: int)
    ensures var r := Comp(BlockStmt(list), ce, wc); r.Ok? ==> Within(r.value, wc)
    decreases BlockStmt(list), 1
  {
    if Comp(BlockStmt(list), ce, wc).Ok? {
      var locals := ScanForLocals(list);
      var cl := CompSeq(list, Extend(locals, ce), wc + 1).value;
      SeqWithin(list, Extend(locals, ce), wc + 1);
      WithinJoin([EnterScope(|locals|)], cl, wc);
      WithinJoin([EnterScope(|locals|)] + cl, [ExitScope], wc);
    }
  }

  lemma {:induction false} DeclWithin(spec: Spec, ce: Env, wc: int)
    ensures var r := Comp(DeclStmt(spec), ce, wc); r.Ok? ==> Within(r.value, wc)
    decreases DeclStmt(spec), 1
  {
    if Comp(DeclStmt(spec), ce, wc).Ok? {
      CompWithin(spec.values.items[0], ce, wc);
      WithinJoin(Comp(spec.values.items[0], ce, wc).value, [Assign(Position(ce, spec.name).value)], wc);
    }
  }

  lemma {:induction false} AssignWithin(lhs: string, rhs: Node, ce: Env, wc: int)
    ensures var r := Comp(AssignStmt(lhs, rhs), ce, wc); r.Ok? ==> Within(r.value, wc)
    decreases AssignStmt(lhs, rhs), 1
  {
    if Comp(AssignStmt(lhs, rhs), ce, wc).Ok? {
      CompWithin(rhs, ce, wc);
      WithinJoin(Comp(rhs, ce, wc).value, [Assign(Position(ce, lhs).value)], wc);
    }
  }

  lemma {:induction false} ReturnWithin(results: seq<Node>, ce: Env, wc: int)
    ensures var r := Comp(ReturnStmt(results), ce, wc); r.Ok? ==> Within(r.value, wc)
    decreases ReturnStmt(results), 1
  {
    if Comp(ReturnStmt(results), ce, wc).Ok? {
      CompWithin(results[0], ce, wc);
      WithinJoin(Comp(results[0], ce, wc).value, [Reset], wc);
    }
  }

  lemma {:induction false} FuncDeclWithin(name: string, params: Option<seq<Field>>, body: Node, ce: Env, wc: int)
    ensures var r := Comp(FuncDecl(name, params, body), ce, wc); r.Ok? ==> Within(r.value, wc)
    decreases FuncDecl(name, params, body), 1
  {
    if Comp(FuncDecl(name, params, body), ce, wc).Ok? {
      var prms, cb := FuncDeclParts(name, params, body, ce, wc);
      var asg := [Assign(Position(ce, name).value)];
      var start := if name == "main" then wc + 1 else wc + 2;
      CompWithin(body, Extend(prms, ce), start);
      var end := start + |cb| + 1;
      var head := if name == "main" then [Ldf(Arity(params), wc + 1)]
                  else [Ldf(Arity(params), wc + 2), Goto(wc + 2 + |cb|)];
      TargetsWiden(cb, start, start + |cb|, wc, end);
      TargetsJoin(head, cb, wc, end);
      TargetsJoin(head + cb, asg, wc, end);
    }
  }

  lemma {:induction false} SeqWithin(list: seq<Node>, ce: Env, wc: int)
    ensures CompSeq(list, ce, wc).Ok? ==> Within(CompSeq(list, ce, wc).value, wc)
    decreases list, 1
  {
    if list != [] {
      ItemsWithin(list, 0, ce, wc, true);
    }
  }

  lemma {:induction false} ItemsWithin(list: seq<Node>, i: nat, ce: Env, wc: int, pops: bool)
    requires i <= |list|
    ensures CompItems(list, i, ce, wc, pops).Ok? ==> Within(CompItems(list, i, ce, wc, pops).value, wc)
    decreases list, 0, |list| - i
  {
    if i < |list| && CompItems(list, i, ce, wc, pops).Ok? {
      var pre := if pops && i > 0 then [Pop] else [];
      var c := Comp(list[i], ce, wc + |pre|).value;
      CompWithin(list[i], ce, wc + |pre|);
      ItemsWithin(list, i + 1, ce, wc + |pre| + |c|, pops);
      WithinJoin(pre, c, wc);
      WithinJoin(pre + c, CompItems(list, i + 1, ce, wc + |pre| + |c|, pops).value, wc);
    }
  }

  /** In a compiled program every jump and closure address names an
      instruction of the program, and the last instruction is DONE. */
  lemma ProgramTargets(decls: seq<Node>)
    ensures CompileProgram(decls).Ok? ==>
              var code := CompileProgram(decls).value;
              |code| >= 1 && code[|code| - 1] == Done && TargetsWithin(code, 0, |code| - 1)
  {
    var ce := GlobalEnv(BuiltinNames);
    if Comp(BlockStmt(decls), ce, 0).Ok? {
      var c := Comp(BlockStmt(decls), ce, 0).value;
      CompWithin(BlockStmt(decls), ce, 0);
      TargetsJoin(c, [Done], 0, |c|);
    }
  }
}
