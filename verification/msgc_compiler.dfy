/** The compiler of compiler/mark_sweep_gc.js: JavaScript-like syntax
    trees to instructions, laid out from address `wc` as in the Go
    compiler. */
module MarkSweepCompiler {
  import opened Wrappers
  import opened JsValues
  import opened Positions
  import opened Code
  import opened CompileEnv
  import opened SourceAst

  /** The builtins of compiler/mark_sweep_gc.js, in the order of their ids. */
  const BuiltinNames: Frame :=
    ["display", "error", "pair", "is_pair", "head", "tail", "is_null", "set_head", "set_tail"]

  /** `scan_for_locals`: the names declared by `let`, `const` and function
      declarations, looking through nested sequences but not into
      blocks. */
  function Scan(c: Component): seq<string>
    decreases c
  {
    match c
    case Sequence(stmts) => ScanFrom(stmts, 0)
    case Let(sym, _) => [sym]
    case Const(sym, _) => [sym]
    case Fun(sym, _, _) => [sym]
    case _ => []
  }

  function ScanFrom(stmts: seq<Component>, i: nat): seq<string>
    requires i <= |stmts|
    decreases stmts, |stmts| - i
  {
    if i == |stmts| then [] else Scan(stmts[i]) + ScanFrom(stmts, i + 1)
  }

  /** `compile_comp`. */
  function Comp(c: Component, ce: Env, wc: int): (r: Result<seq<Instr>, CompileError>)
    ensures r.Ok? ==> Done !in r.value
    decreases c, 0
  {
    match c
    case Lit(v) => Ok([Ldc(v)])
    case Nam(x) => var p :- Resolve(ce, x); Ok([Ld(p)])
    case UnaryOp(sym, x) => var cx :- Comp(x, ce, wc); Ok(cx + [Unop(sym)])
    case BinaryOp(sym, x, y) =>
      var cx :- Comp(x, ce, wc);
      var cy :- Comp(y, ce, wc + |cx|);
      Ok(cx + cy + [Binop(sym)])
    case Cond(pred, cons, alt) =>
      var cp :- Comp(pred, ce, wc);
      var cc :- Comp(cons, ce, wc + |cp| + 1);
      var a := wc + |cp| + |cc| + 2;
      var ca :- Comp(alt, ce, a);
      Ok(cp + [Jof(a)] + cc + [Goto(a + |ca|)] + ca)
    case While(pred, body) =>
      var cp :- Comp(pred, ce, wc);
      var cb :- Comp(body, ce, wc + |cp| + 1);
      Ok(cp + [Jof(wc + |cp| + |cb| + 3)] + cb + [Pop, Goto(wc), Ldc(JUndefined)])
    case App(fun, args) =>
      var cf :- Comp(fun, ce, wc);
      var ca :- CompItems(args, 0, ce, wc + |cf|, false);
      Ok(cf + ca + [Call(|args|)])
    case Assmt(sym, expr) => CompAssign(sym, expr, ce, wc)
    case Let(sym, expr) => CompAssign(sym, expr, ce, wc)
    case Const(sym, expr) => CompAssign(sym, expr, ce, wc)
    case Lam(prms, body) => CompLam(prms, body, ce, wc)
    case Sequence(stmts) => CompSeq(stmts, ce, wc)
    case Blk(body) =>
      var locals := Scan(body);
      var cb :- Comp(body, Extend(locals, ce), wc + 1);
      Ok([EnterScope(|locals|)] + cb + [ExitScope])
    case Ret(expr) =>
      var cx :- Comp(expr, ce, wc);
      if expr.App? then Ok(Retag(cx)) else Ok(cx + [Reset])
    case Fun(sym, prms, body) =>
      var cl :- CompLam(prms, body, ce, wc);
      var p :- Resolve(ce, sym);
      Ok(cl + [Assign(p)])
  }

  /** An assignment or declaration: the value, then ASSIGN to the name's
      position. */
  function CompAssign(sym: string, expr: Component, ce: Env, wc: int): (r: Result<seq<Instr>, CompileError>)
    ensures r.Ok? ==> Done !in r.value
    decreases expr, 1
  {
    var cx :- Comp(expr, ce, wc);
    var p :- Resolve(ce, sym);
    Ok(cx + [Assign(p)])
  }

  /** A lambda: LDF, a GOTO around the body, the body in the environment
      extended by the parameters, and an implicit return of `undefined`.
      The source passes the lambda's `arity` field, which its syntax trees
      do not have, so the closure's arity byte is written as 0. */
  function CompLam(prms: seq<string>, body: Component, ce: Env, wc: int): (r: Result<seq<Instr>, CompileError>)
    ensures r.Ok? ==> Done !in r.value
    decreases body, 1
  {
    var cb :- Comp(body, Extend(prms, ce), wc + 2);
    Ok([Ldf(0, wc + 2), Goto(wc + |cb| + 4)] + cb + [Ldc(JUndefined), Reset])
  }

  /** The tail-call rewrite of a return: the CALL that ends the code
      becomes a TAIL_CALL with the same arity. */
  function Retag(code: seq<Instr>): seq<Instr> {
    if |code| > 0 && code[|code| - 1].Call? then code[..|code| - 1] + [TailCall(code[|code| - 1].arity)]
    else code
  }

  /** `compile_sequence`. */
  function CompSeq(stmts: seq<Component>, ce: Env, wc: int): (r: Result<seq<Instr>, CompileError>)
    ensures r.Ok? ==> Done !in r.value
    decreases stmts, 1
  {
    if stmts == [] then Ok([Ldc(JUndefined)]) else CompItems(stmts, 0, ce, wc, true)
  }

  /** The items from index `i` on, with a POP before each but the first
      when `pops` holds. */
  function CompItems(list: seq<Component>, i: nat, ce: Env, wc: int, pops: bool): (r: Result<seq<Instr>, CompileError>)
    ensures r.Ok? ==> Done !in r.value
    requires i <= |list|
    decreases list, 0, |list| - i
  {
    if i == |list| then Ok([])
    else
      var pre := if pops && i > 0 then [Pop] else [];
      var c :- Comp(list[i], ce, wc + |pre|);
      var rest :- CompItems(list, i + 1, ce, wc + |pre| + |c|, pops);
      Ok(pre + c + rest)
  }

  /** `compile_program` on the block that `parse_to_json` wraps around the
      program. */
  function CompileProgram(program: Component): (r: Result<seq<Instr>, CompileError>)
    ensures r.Ok? ==> |r.value| >= 1 && r.value[|r.value| - 1] == Done && Done !in r.value[..|r.value| - 1]
  {
    var c :- Comp(Blk(program), GlobalEnv(BuiltinNames), 0);
    Ok(c + [Done])
  }

  /** The components a sequence stands for once nested sequences are
      opened up, in order; every other component stands for itself. */
  function Flatten(c: Component): (r: seq<Component>)
    ensures forall i :: 0 <= i < |r| ==> !r[i].Sequence?
    decreases c
  {
    if c.Sequence? then FlattenFrom(c.stmts, 0) else [c]
  }

  function FlattenFrom(stmts: seq<Component>, i: nat): (r: seq<Component>)
    requires i <= |stmts|
    ensures forall k :: 0 <= k < |r| ==> !r[k].Sequence?
    decreases stmts, |stmts| - i
  {
    if i == |stmts| then [] else Flatten(stmts[i]) + FlattenFrom(stmts, i + 1)
  }

  /** The names the declarations among `cs` declare, in order. */
  function DeclaredNames(cs: seq<Component>): seq<string> {
    if cs == [] then []
    else (if IsDeclaration(cs[0]) then [cs[0].sym] else []) + DeclaredNames(cs[1..])
  }

  lemma {:induction false} DeclaredNamesAppend(a: seq<Component>, b: seq<Component>)
    ensures DeclaredNames(a + b) == DeclaredNames(a) + DeclaredNames(b)
    decreases |a|
  {
    if a != [] {
      assert (a + b)[1..] == a[1..] + b;
      DeclaredNamesAppend(a[1..], b);
    } else {
      assert a + b == b;
    }
  }

  /** `scan_for_locals` returns, in order, the names declared by the
      components a block's body stands for through nested sequences;
      the declarations inside nested blocks and functions are not among
      them. */
  lemma {:induction false} ScanIsDeclaredNames(c: Component)
    ensures Scan(c) == DeclaredNames(Flatten(c))
    decreases c, 1
  {
    if c.Sequence? {
      ScanFromIsDeclaredNames(c.stmts, 0);
    } else {
      assert [c][1..] == [];
    }
  }

  lemma {:induction false} ScanFromIsDeclaredNames(stmts: seq<Component>, i: nat)
    requires i <= |stmts|
    ensures ScanFrom(stmts, i) == DeclaredNames(FlattenFrom(stmts, i))
    decreases stmts, |stmts| - i
  {
    if i < |stmts| {
      ScanIsDeclaredNames(stmts[i]);
      ScanFromIsDeclaredNames(stmts, i + 1);
      DeclaredNamesAppend(Flatten(stmts[i]), FlattenFrom(stmts, i + 1));
    }
  }

  /** The parts a compiled conditional is made of. */
  lemma CondParts(pred: Component, cons: Component, alt: Component, ce: Env, wc: int) returns (cp: seq<Instr>, cc: seq<Instr>, ca: seq<Instr>)
    requires Comp(Cond(pred, cons, alt), ce, wc).Ok?
    ensures Comp(pred, ce, wc) == Ok(cp)
    ensures Comp(cons, ce, wc + |cp| + 1) == Ok(cc)
    ensures Comp(alt, ce, wc + |cp| + |cc| + 2) == Ok(ca)
    ensures Comp(Cond(pred, cons, alt), ce, wc).value
         == cp + [Jof(wc + |cp| + |cc| + 2)] + cc + [Goto(wc + |cp| + |cc| + 2 + |ca|)] + ca
  {
    cp, cc, ca := CondNodeParts(Cond(pred, cons, alt), ce, wc);
  }

  /** `CondParts` for any conditional component; stated without naming the
      constructor, so that the compiler is unfolded for this case only. */
  lemma CondNodeParts(c: Component, ce: Env, wc: int) returns (cp: seq<Instr>, cc: seq<Instr>, ca: seq<Instr>)
    requires c.Cond? && Comp(c, ce, wc).Ok?
    ensures Comp(c.pred, ce, wc) == Ok(cp)
    ensures Comp(c.cons, ce, wc + |cp| + 1) == Ok(cc)
    ensures Comp(c.alt, ce, wc + |cp| + |cc| + 2) == Ok(ca)
    ensures Comp(c, ce, wc).value
         == cp + [Jof(wc + |cp| + |cc| + 2)] + cc + [Goto(wc + |cp| + |cc| + 2 + |ca|)] + ca
  {
    cp := Comp(c.pred, ce, wc).value;
    cc := Comp(c.cons, ce, wc + |cp| + 1).value;
    ca := Comp(c.alt, ce, wc + |cp| + |cc| + 2).value;
  }

  /** A conditional: the predicate, a JOF to the first instruction of the
      alternative, the consequent, a GOTO to the instruction after the
      alternative, and the alternative. */
  lemma CondLayout(pred: Component, cons: Component, alt: Component, ce: Env, wc: int) returns (cp: seq<Instr>, cc: seq<Instr>, ca: seq<Instr>)
    requires Comp(Cond(pred, cons, alt), ce, wc).Ok?
    ensures Comp(pred, ce, wc) == Ok(cp) && Comp(cons, ce, wc + |cp| + 1) == Ok(cc)
    ensures Comp(alt, ce, wc + |cp| + |cc| + 2) == Ok(ca)
    ensures var code := Comp(Cond(pred, cons, alt), ce, wc).value;
            var a := |cp| + |cc| + 2;
            && a <= |code|
            && code[..|cp|] == cp
            && code[|cp|] == Jof(wc + a)
            && code[|cp| + 1..a - 1] == cc
            && code[a - 1] == Goto(wc + |code|)
            && code[a..] == ca
  {
    cp, cc, ca := CondParts(pred, cons, alt, ce, wc);
    FiveParts(cp, Jof(wc + |cp| + |cc| + 2), cc, Goto(wc + |cp| + |cc| + 2 + |ca|), ca);
  }

  /** The parts a compiled loop is made of. */
  lemma WhileParts(pred: Component, body: Component, ce: Env, wc: int) returns (cp: seq<Instr>, cb: seq<Instr>)
    requires Comp(While(pred, body), ce, wc).Ok?
    ensures Comp(pred, ce, wc) == Ok(cp)
    ensures Comp(body, ce, wc + |cp| + 1) == Ok(cb)
    ensures Comp(While(pred, body), ce, wc).value
         == cp + [Jof(wc + |cp| + |cb| + 3)] + cb + [Pop, Goto(wc), Ldc(JUndefined)]
  {
    cp, cb := WhileNodeParts(While(pred, body), ce, wc);
  }

  /** `WhileParts` for any loop component. */
  lemma WhileNodeParts(c: Component, ce: Env, wc: int) returns (cp: seq<Instr>, cb: seq<Instr>)
    requires c.While? && Comp(c, ce, wc).Ok?
    ensures Comp(c.pred, ce, wc) == Ok(cp)
    ensures Comp(c.body, ce, wc + |cp| + 1) == Ok(cb)
    ensures Comp(c, ce, wc).value == cp + [Jof(wc + |cp| + |cb| + 3)] + cb + [Pop, Goto(wc), Ldc(JUndefined)]
  {
    cp := Comp(c.pred, ce, wc).value;
    cb := Comp(c.body, ce, wc + |cp| + 1).value;
  }

  /** A loop: the predicate, a JOF to the final LDC of `undefined`, the
      body, a POP and a GOTO back to the predicate. */
  lemma WhileLayout(pred: Component, body: Component, ce: Env, wc: int) returns (cp: seq<Instr>, cb: seq<Instr>)
    requires Comp(While(pred, body), ce, wc).Ok?
    ensures Comp(pred, ce, wc) == Ok(cp) && Comp(body, ce, wc + |cp| + 1) == Ok(cb)
    ensures var code := Comp(While(pred, body), ce, wc).value;
            && |code| == |cp| + |cb| + 4
            && code[..|cp|] == cp
            && code[|cp|] == Jof(wc + |code| - 1)
            && code[|cp| + 1..|code| - 3] == cb
            && code[|code| - 3] == Pop
            && code[|code| - 2] == Goto(wc)
            && code[|code| - 1] == Ldc(JUndefined)
  {
    cp, cb := WhileParts(pred, body, ce, wc);
    LoopShape(cp + [Jof(wc + |cp| + |cb| + 3)] + cb, Pop, Goto(wc), Ldc(JUndefined));
    FiveParts(cp, Jof(wc + |cp| + |cb| + 3), cb, Pop, [Goto(wc), Ldc(JUndefined)]);
  }

  /** A lambda: LDF of a closure whose code is the instruction after the
      GOTO, the GOTO to the instruction after RESET, the body in the
      environment extended by the parameters, LDC undefined and RESET. */
  lemma LamLayout(prms: seq<string>, body: Component, ce: Env, wc: int)
    requires Comp(Lam(prms, body), ce, wc).Ok?
    ensures Comp(body, Extend(prms, ce), wc + 2).Ok?
    ensures var code := Comp(Lam(prms, body), ce, wc).value;
            var cb := Comp(body, Extend(prms, ce), wc + 2).value;
            && |code| == |cb| + 4
            && code[0] == Ldf(0, wc + 2)
            && code[1] == Goto(wc + |code|)
            && code[2..|code| - 2] == cb
            && code[|code| - 2] == Ldc(JUndefined)
            && code[|code| - 1] == Reset
  {
    var cb := Comp(body, Extend(prms, ce), wc + 2).value;
    assert Comp(Lam(prms, body), ce, wc).value == [Ldf(0, wc + 2)] + [Goto(wc + |cb| + 4)] + cb + [Ldc(JUndefined)] + [Reset];
    FiveParts([Ldf(0, wc + 2)], Goto(wc + |cb| + 4), cb, Ldc(JUndefined), [Reset]);
  }

  /** An application ends with the CALL of its arity. */
  lemma AppEndsInCall(fun: Component, args: seq<Component>, ce: Env, wc: int)
    ensures var r := Comp(App(fun, args), ce, wc);
            r.Ok? ==> |r.value| > 0 && r.value[|r.value| - 1] == Call(|args|)
  {
  }

  /** A return of an application turns the application's final CALL into
      a TAIL_CALL and adds nothing; any other return adds a RESET. */
  lemma RetLayout(expr: Component, ce: Env, wc: int)
    ensures var r := Comp(Ret(expr), ce, wc);
            var cx := Comp(expr, ce, wc);
            && (r.Ok? <==> cx.Ok?)
            && (r.Ok? && expr.App? ==>
                  && |cx.value| > 0 && |r.value| == |cx.value|
                  && r.value[..|r.value| - 1] == cx.value[..|cx.value| - 1]
                  && r.value[|r.value| - 1] == TailCall(|expr.args|)
                  && Reset !in r.value[|r.value| - 1..])
            && (r.Ok? && !expr.App? ==> r.value == cx.value + [Reset])
  {
    if expr.App? {
      RetOfApp(expr, ce, wc);
    } else {
      assert Comp(Ret(expr), ce, wc).Ok? ==> Comp(Ret(expr), ce, wc).value == Comp(expr, ce, wc).value + [Reset];
    }
  }

  lemma RetOfApp(expr: Component, ce: Env, wc: int)
    requires expr.App?
    ensures var r := Comp(Ret(expr), ce, wc);
            var cx := Comp(expr, ce, wc);
            && (r.Ok? <==> cx.Ok?)
            && (r.Ok? ==>
                  && |cx.value| > 0 && |r.value| == |cx.value|
                  && r.value[..|r.value| - 1] == cx.value[..|cx.value| - 1]
                  && r.value[|r.value| - 1] == TailCall(|expr.args|)
                  && Reset !in r.value[|r.value| - 1..])
  {
    var cx := Comp(expr, ce, wc);
    if cx.Ok? {
      var c := cx.value;
      AppEndsInCall(expr.fun, expr.args, ce, wc);
      var t := c[..|c| - 1] + [TailCall(|expr.args|)];
      assert Comp(Ret(expr), ce, wc) == Ok(t);
      assert t[..|t| - 1] == c[..|c| - 1];
      assert t[|t| - 1..] == [TailCall(|expr.args|)];
    }
  }

  /** Items after the first each carry a POP, whatever the index at which
      the listing starts. */
  lemma {:induction false} ItemsShift(list: seq<Component>, i: nat, ce: Env, wc: int, pops: bool)
    requires 1 <= i <= |list| - 1
    ensures CompItems(list, i + 1, ce, wc, pops) == CompItems(list[1..], i, ce, wc, pops)
    decreases |list| - i
  {
    if i + 1 < |list| {
      assert list[i + 1] == list[1..][i];
      var pre := if pops then [Pop] else [];
      var c := Comp(list[i + 1], ce, wc + |pre|);
      if c.Ok? {
        ItemsShift(list, i + 1, ce, wc + |pre| + |c.value|, pops);
      }
      ItemsStepSame(list, i + 1, list[1..], i, ce, wc, pops);
    }
  }

  /** Two listings with the same item at their positions and the same
      listings after them compile alike from those positions. */
  lemma ItemsStepSame(a: seq<Component>, i: nat, b: seq<Component>, j: nat, ce: Env, wc: int, pops: bool)
    requires i < |a| && j < |b| && a[i] == b[j] && (i > 0 <==> j > 0)
    requires var pre := if pops && i > 0 then [Pop] else [];
             var c := Comp(a[i], ce, wc + |pre|);
             c.Ok? ==> CompItems(a, i + 1, ce, wc + |pre| + |c.value|, pops) == CompItems(b, j + 1, ce, wc + |pre| + |c.value|, pops)
    ensures CompItems(a, i, ce, wc, pops) == CompItems(b, j, ce, wc, pops)
  {
  }

  /** The items from index 1 on are a POP and the sequence of the rest. */
  lemma ItemsFromOne(list: seq<Component>, ce: Env, w: int)
    requires |list| >= 2
    ensures CompItems(list, 1, ce, w, true) ==
              match CompSeq(list[1..], ce, w + 1)
              case Ok(rest) => Ok([Pop] + rest)
              case Err(e) => Err(e)
  {
    var c1 := Comp(list[1], ce, w + 1);
    assert list[1..][0] == list[1];
    if c1.Ok? {
      var w2 := w + 1 + |c1.value|;
      if |list| > 2 {
        ItemsShift(list, 1, ce, w2, true);
      } else {
        assert CompItems(list, 2, ce, w2, true) == Ok([]);
        assert CompItems(list[1..], 1, ce, w2, true) == Ok([]);
      }
      ItemsHeadPop(list, ce, w, c1.value);
    }
  }

  /** `ItemsFromOne` once the item at index 1 has compiled. */
  lemma ItemsHeadPop(list: seq<Component>, ce: Env, w: int, c1: seq<Instr>)
    requires |list| >= 2 && Comp(list[1], ce, w + 1) == Ok(c1) && list[1..][0] == list[1]
    requires CompItems(list, 2, ce, w + 1 + |c1|, true) == CompItems(list[1..], 1, ce, w + 1 + |c1|, true)
    ensures CompItems(list, 1, ce, w, true) ==
              match CompSeq(list[1..], ce, w + 1)
              case Ok(rest) => Ok([Pop] + rest)
              case Err(e) => Err(e)
  {
    var rest := CompItems(list[1..], 1, ce, w + 1 + |c1|, true);
    if rest.Ok? {
      assert CompSeq(list[1..], ce, w + 1) == Ok([] + c1 + rest.value);
      assert [Pop] + c1 + rest.value == [Pop] + ([] + c1 + rest.value);
    }
  }

  /** A sequence of two or more components is the first one's code, a
      POP, and the code of the remaining sequence; so n components get
      n - 1 POPs between them. */
  lemma SeqUnfold(stmts: seq<Component>, ce: Env, wc: int)
    requires |stmts| >= 2
    ensures var c0 := Comp(stmts[0], ce, wc);
            CompSeq(stmts, ce, wc) ==
              if c0.Err? then Err(c0.error)
              else match CompSeq(stmts[1..], ce, wc + |c0.value| + 1)
                   case Ok(rest) => Ok(c0.value + [Pop] + rest)
                   case Err(e) => Err(e)
  {
    var c0 := Comp(stmts[0], ce, wc);
    if c0.Ok? {
      ItemsFromOne(stmts, ce, wc + |c0.value|);
      var rest := CompSeq(stmts[1..], ce, wc + |c0.value| + 1);
      if rest.Ok? {
        assert [] + c0.value + ([Pop] + rest.value) == c0.value + [Pop] + rest.value;
      }
    }
  }

  /** An empty sequence is LDC undefined, and a sequence of one component
      is that component, with no POP. */
  lemma SeqShort(stmts: seq<Component>, ce: Env, wc: int)
    requires |stmts| <= 1
    ensures CompSeq(stmts, ce, wc) == if stmts == [] then Ok([Ldc(JUndefined)]) else Comp(stmts[0], ce, wc)
  {
    if stmts != [] {
      var c := Comp(stmts[0], ce, wc);
      assert CompItems(stmts, 1, ce, wc + (if c.Ok? then |c.value| else 0), true) == Ok([]);
      if c.Ok? {
        assert [] + c.value + [] == c.value;
      }
    }
  }

  /** Every jump and closure address in the code of a component lands
      inside that code or just after it. */
  lemma {:induction false} CompWithin(c: Component, ce: Env, wc: int)
    ensures Comp(c, ce, wc).Ok? ==> Within(Comp(c, ce, wc).value, wc)
    decreases c, 2
  {
    match c
    case Lit(_) =>
    case Nam(_) =>
    case UnaryOp(sym, x) => UnaryWithin(sym, x, ce, wc);
    case BinaryOp(sym, x, y) => BinaryWithin(sym, x, y, ce, wc);
    case Cond(_, _, _) => CondWithin(c, ce, wc);
    case While(_, _) => WhileWithin(c, ce, wc);
    case App(fun, args) => AppWithin(fun, args, ce, wc);
    case Assmt(sym, expr) => AssignWithin(sym, expr, ce, wc);
    case Let(sym, expr) => AssignWithin(sym, expr, ce, wc);
    case Const(sym, expr) => AssignWithin(sym, expr, ce, wc);
    case Lam(prms, body) => LamWithin(prms, body, ce, wc);
    case Sequence(stmts) => SeqWithin(stmts, ce, wc);
    case Blk(body) => BlkWithin(body, ce, wc);
    case Ret(expr) => RetWithin(expr, ce, wc);
    case Fun(sym, prms, body) => FunWithin(sym, prms, body, ce, wc);
  }

  lemma {:induction false} UnaryWithin(sym: string, x: Component, ce: Env, wc: int)
    ensures var r := Comp(UnaryOp(sym, x), ce, wc); r.Ok? ==> Within(r.value, wc)
    decreases UnaryOp(sym, x), 1
  {
    if Comp(UnaryOp(sym, x), ce, wc).Ok? {
      CompWithin(x, ce, wc);
      WithinJoin(Comp(x, ce, wc).value, [Unop(sym)], wc);
    }
  }

  lemma {:induction false} BinaryWithin(sym: string, x: Component, y: Component, ce: Env, wc: int)
    ensures var r := Comp(BinaryOp(sym, x, y), ce, wc); r.Ok? ==> Within(r.value, wc)
    decreases BinaryOp(sym, x, y), 1
  {
    if Comp(BinaryOp(sym, x, y), ce, wc).Ok? {
      var cx := Comp(x, ce, wc).value;
      var cy := Comp(y, ce, wc + |cx|).value;
      CompWithin(x, ce, wc);
      CompWithin(y, ce, wc + |cx|);
      WithinJoin(cx, cy, wc);
      WithinJoin(cx + cy, [Binop(sym)], wc);
    }
  }

  lemma {:induction false} CondWithin(c: Component, ce: Env, wc: int)
    requires c.Cond?
    ensures Comp(c, ce, wc).Ok? ==> Within(Comp(c, ce, wc).value, wc)
    decreases c, 1
  {
    if Comp(c, ce, wc).Ok? {
      var cp, cc, ca := CondNodeParts(c, ce, wc);
      CondPartsWithin(c, ce, wc, cp, cc, ca);
    }
  }

  /** `CondWithin` once the parts are known. */
  lemma {:induction false} CondPartsWithin(c: Component, ce: Env, wc: int, cp: seq<Instr>, cc: seq<Instr>, ca: seq<Instr>)
    requires c.Cond?
    requires Comp(c.pred, ce, wc) == Ok(cp)
    requires Comp(c.cons, ce, wc + |cp| + 1) == Ok(cc)
    requires Comp(c.alt, ce, wc + |cp| + |cc| + 2) == Ok(ca)
    ensures Within(cp + [Jof(wc + |cp| + |cc| + 2)] + cc + [Goto(wc + |cp| + |cc| + 2 + |ca|)] + ca, wc)
    decreases c, 0
  {
    CompWithin(c.pred, ce, wc);
    CompWithin(c.cons, ce, wc + |cp| + 1);
    CompWithin(c.alt, ce, wc + |cp| + |cc| + 2);
    BranchWithin(cp, cc, ca, wc);
  }

  lemma {:induction false} WhileWithin(c: Component, ce: Env, wc: int)
    requires c.While?
    ensures Comp(c, ce, wc).Ok? ==> Within(Comp(c, ce, wc).value, wc)
    decreases c, 1
  {
    if Comp(c, ce, wc).Ok? {
      var cp, cb := WhileNodeParts(c, ce, wc);
      CompWithin(c.pred, ce, wc);
      CompWithin(c.body, ce, wc + |cp| + 1);
      LoopWithin(cp, cb, Ldc(JUndefined), wc);
    }
  }

  lemma {:induction false} AppWithin(fun: Component, args: seq<Component>, ce: Env, wc: int)
    ensures var r := Comp(App(fun, args), ce, wc); r.Ok? ==> Within(r.value, wc)
    decreases App(fun, args), 1
  {
    if Comp(App(fun, args), ce, wc).Ok? {
      var cf := Comp(fun, ce, wc).value;
      var ca := CompItems(args, 0, ce, wc + |cf|, false).value;
      CompWithin(fun, ce, wc);
      ItemsWithin(args, 0, ce, wc + |cf|, false);
      WithinJoin(cf, ca, wc);
      WithinJoin(cf + ca, [Call(|args|)], wc);
    }
  }

  lemma {:induction false} AssignWithin(sym: string, expr: Component, ce: Env, wc: int)
    ensures var r := CompAssign(sym, expr, ce, wc); r.Ok? ==> Within(r.value, wc)
    decreases expr, 3
  {
    if CompAssign(sym, expr, ce, wc).Ok? {
      CompWithin(expr, ce, wc);
      WithinJoin(Comp(expr, ce, wc).value, [Assign(Position(ce, sym).value)], wc);
    }
  }

  lemma {:induction false} LamWithin(prms: seq<string>, body: Component, ce: Env, wc: int)
    ensures var r := CompLam(prms, body, ce, wc); r.Ok? ==> Within(r.value, wc)
    decreases body, 3
  {
    if CompLam(prms, body, ce, wc).Ok? {
      var cb := Comp(body, Extend(prms, ce), wc + 2).value;
      CompWithin(body, Extend(prms, ce), wc + 2);
      var head := [Ldf(0, wc + 2), Goto(wc + |cb| + 4)];
      TargetsWiden(cb, wc + 2, wc + 2 + |cb|, wc, wc + |cb| + 4);
      TargetsJoin(head, cb, wc, wc + |cb| + 4);
      TargetsJoin(head + cb, [Ldc(JUndefined), Reset], wc, wc + |cb| + 4);
    }
  }

  lemma {:induction false} BlkWithin(body: Component, ce: Env, wc: int)
    ensures var r := Comp(Blk(body), ce, wc); r.Ok? ==> Within(r.value, wc)
    decreases Blk(body), 1
  {
    if Comp(Blk(body), ce, wc).Ok? {
      var locals := Scan(body);
      var cb := Comp(body, Extend(locals, ce), wc + 1).value;
      CompWithin(body, Extend(locals, ce), wc + 1);
      WithinJoin([EnterScope(|locals|)], cb, wc);
      WithinJoin([EnterScope(|locals|)] + cb, [ExitScope], wc);
    }
  }

  lemma {:induction false} RetWithin(expr: Component, ce: Env, wc: int)
    ensures var r := Comp(Ret(expr), ce, wc); r.Ok? ==> Within(r.value, wc)
    decreases Ret(expr), 1
  {
    if Comp(Ret(expr), ce, wc).Ok? {
      var cx := Comp(expr, ce, wc).value;
      CompWithin(expr, ce, wc);
      if expr.App? {
        AppEndsInCall(expr.fun, expr.args, ce, wc);
        TargetsPrefix(cx, |cx| - 1, wc, wc + |cx|);
        TargetsJoin(cx[..|cx| - 1], [TailCall(|expr.args|)], wc, wc + |cx|);
      } else {
        WithinJoin(cx, [Reset], wc);
      }
    }
  }

  lemma {:induction false} FunWithin(sym: string, prms: seq<string>, body: Component, ce: Env, wc: int)
    ensures var r := Comp(Fun(sym, prms, body), ce, wc); r.Ok? ==> Within(r.value, wc)
    decreases Fun(sym, prms, body), 1
  {
    if Comp(Fun(sym, prms, body), ce, wc).Ok? {
      LamWithin(prms, body, ce, wc);
      WithinJoin(CompLam(prms, body, ce, wc).value, [Assign(Position(ce, sym).value)], wc);
    }
  }

  lemma {:induction false} SeqWithin(stmts: seq<Component>, ce: Env, wc: int)
    ensures CompSeq(stmts, ce, wc).Ok? ==> Within(CompSeq(stmts, ce, wc).value, wc)
    decreases stmts, 1
  {
    if stmts != [] {
      ItemsWithin(stmts, 0, ce, wc, true);
    }
  }

  lemma {:induction false} ItemsWithin(list: seq<Component>, i: nat, ce: Env, wc: int, pops: bool)
    requires i <= |list|
    ensures CompItems(list, i, ce, wc, pops).Ok? ==> Within(CompItems(list, i, ce, wc, pops).value, wc)
    decreases list, 0, |list| - i
  {
    if i < |list| && CompItems(list, i, ce, wc, pops).Ok? {
      var pre := if pops && i > 0 then [Pop] else [];
      var c := Comp(list[i], ce, wc + |pre|).value;
      CompWithin(list[i], ce, wc + |pre|);
      ItemsWithin(list, i + 1, ce, wc + |pre| + |c|, pops);
      WithinJoin(pre, c, wc);
      WithinJoin(pre + c, CompItems(list, i + 1, ce, wc + |pre| + |c|, pops).value, wc);
    }
  }

  /** In a compiled program every jump and closure address names an
      instruction of the program, and the program is one block followed by
      DONE. */
  lemma ProgramTargets(program: Component)
    ensures CompileProgram(program).Ok? ==>
              var code := CompileProgram(program).value;
              && |code| >= 3 && code[0] == EnterScope(|Scan(program)|)
              && code[|code| - 2] == ExitScope && code[|code| - 1] == Done
              && TargetsWithin(code, 0, |code| - 1)
  {
    var ce := GlobalEnv(BuiltinNames);
    if Comp(Blk(program), ce, 0).Ok? {
      var c := Comp(Blk(program), ce, 0).value;
      CompWithin(Blk(program), ce, 0);
      TargetsJoin(c, [Done], 0, |c|);
    }
  }
}
