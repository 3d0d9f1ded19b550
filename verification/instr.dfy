/** The instruction set of the three machines (each compiler emits a
    subset of it) and what the compilers can fail with. */
module Code {
  import opened Wrappers
  import opened JsValues
  import opened Positions

  /** Operator instructions carry the operator's source symbol; each
      machine looks the symbol up in its own operator table when the
      instruction runs. Jump and closure addresses are absolute. */
  datatype Instr =
    | Ldc(val: JsValue)
    | Unop(sym: string)
    | Binop(sym: string)
    | Pop
    | Jof(addr: int)
    | Goto(addr: int)
    | EnterScope(num: nat)
    | ExitScope
    | Ld(pos: Pos)
    | Assign(pos: Pos)
    | Ldf(arity: nat, addr: int)
    | Call(arity: nat)
    | TailCall(arity: nat)
    | Reset
    | Done
    | Channel(pos: Pos)
    | Mutex(pos: Pos)
    | EndGo
    | Send(pos: Pos, value: JsValue)
    | Recv
    | GoCall(arity: nat)

  /** Why compilation stops; in the source each of these is a JavaScript
      exception thrown from inside the compiler. */
  datatype CompileError =
    | Unbound(name: string)          // the name is declared in no frame
    | Unsupported(nodeType: string)  // the compiler has no case for this node
    | Malformed                      // a list or field the compiler indexes is missing
    | NumberNotModelled(text: string) // a numeric literal that is not plain decimal

  /** The address a jump or closure instruction refers to stays within
      `lo..hi`. */
  predicate TargetWithin(ins: Instr, lo: int, hi: int) {
    match ins
    case Jof(a) => lo <= a <= hi
    case Goto(a) => lo <= a <= hi
    case Ldf(_, a) => lo <= a <= hi
    case _ => true
  }

  predicate TargetsWithin(code: seq<Instr>, lo: int, hi: int) {
    forall i :: 0 <= i < |code| ==> TargetWithin(code[i], lo, hi)
  }

  lemma TargetsJoin(a: seq<Instr>, b: seq<Instr>, lo: int, hi: int)
    requires TargetsWithin(a, lo, hi) && TargetsWithin(b, lo, hi)
    ensures TargetsWithin(a + b, lo, hi)
  {
    forall i | 0 <= i < |a + b|
      ensures TargetWithin((a + b)[i], lo, hi)
    {
      if i >= |a| {
        assert (a + b)[i] == b[i - |a|];
      }
    }
  }

  lemma TargetsWiden(a: seq<Instr>, lo: int, hi: int, lo': int, hi': int)
    requires TargetsWithin(a, lo, hi) && lo' <= lo && hi <= hi'
    ensures TargetsWithin(a, lo', hi')
  {
    forall i | 0 <= i < |a|
      ensures TargetWithin(a[i], lo', hi')
    {
      assert TargetWithin(a[i], lo, hi);
    }
  }

  /** Code laid out from address `wc` refers only to its own
      instructions and to the address just after it. */
  predicate Within(code: seq<Instr>, wc: int) {
    TargetsWithin(code, wc, wc + |code|)
  }

  lemma WithinJoin(a: seq<Instr>, b: seq<Instr>, wc: int)
    requires Within(a, wc) && Within(b, wc + |a|)
    ensures Within(a + b, wc)
  {
    TargetsWiden(a, wc, wc + |a|, wc, wc + |a + b|);
    TargetsWiden(b, wc + |a|, wc + |a| + |b|, wc, wc + |a + b|);
    TargetsJoin(a, b, wc, wc + |a + b|);
  }

  /** A two-way branch laid out from `wc`: a JOF past the first part to the
      second, and a GOTO past the second, around parts that are each
      within their own addresses. */
  lemma BranchWithin(cc: seq<Instr>, cb: seq<Instr>, ca: seq<Instr>, wc: int)
    requires Within(cc, wc) && Within(cb, wc + |cc| + 1) && Within(ca, wc + |cc| + |cb| + 2)
    ensures Within(cc + [Jof(wc + |cc| + |cb| + 2)] + cb + [Goto(wc + |cc| + |cb| + 2 + |ca|)] + ca, wc)
  {
    var alt := wc + |cc| + |cb| + 2;
    var end := alt + |ca|;
    TargetsWiden(cc, wc, wc + |cc|, wc, end);
    TargetsWiden(cb, wc + |cc| + 1, wc + |cc| + 1 + |cb|, wc, end);
    TargetsWiden(ca, alt, end, wc, end);
    TargetsJoin(cc, [Jof(alt)], wc, end);
    TargetsJoin(cc + [Jof(alt)], cb, wc, end);
    TargetsJoin(cc + [Jof(alt)] + cb, [Goto(end)], wc, end);
    TargetsJoin(cc + [Jof(alt)] + cb + [Goto(end)], ca, wc, end);
  }

  /** A loop laid out from `wc`: the test, a JOF to the final instruction,
      the body, then POP, a GOTO back to `wc` and one more instruction. */
  lemma LoopWithin(cc: seq<Instr>, cb: seq<Instr>, last: Instr, wc: int)
    requires Within(cc, wc) && Within(cb, wc + |cc| + 1) && TargetWithin(last, wc, wc + |cc| + |cb| + 4)
    ensures Within(cc + [Jof(wc + |cc| + |cb| + 3)] + cb + [Pop, Goto(wc), last], wc)
  {
    var exit := wc + |cc| + |cb| + 3;
    var end := exit + 1;
    TargetsWiden(cc, wc, wc + |cc|, wc, end);
    TargetsWiden(cb, wc + |cc| + 1, wc + |cc| + 1 + |cb|, wc, end);
    TargetsJoin(cc, [Jof(exit)], wc, end);
    TargetsJoin(cc + [Jof(exit)], cb, wc, end);
    TargetsJoin(cc + [Jof(exit)] + cb, [Pop, Goto(wc), last], wc, end);
  }

  /** Where the parts of `a + [x] + b + [y] + c` sit. */
  lemma FiveParts(a: seq<Instr>, x: Instr, b: seq<Instr>, y: Instr, c: seq<Instr>)
    ensures var code := a + [x] + b + [y] + c;
            && |code| == |a| + |b| + |c| + 2
            && code[..|a|] == a && code[|a|] == x && code[|a| + 1..|a| + 1 + |b|] == b
            && code[|a| + 1 + |b|] == y && code[|a| + |b| + 2..] == c
  {
    var code := a + [x] + b + [y] + c;
    assert code[..|a|] == a;
    assert code[|a| + 1..|a| + 1 + |b|] == b;
    assert code[|a| + |b| + 2..] == c;
  }

  /** An LDF, a GOTO past the body, the body, and a tail of two with no
      target stay within their own span. */
  lemma ClosureWithin(arity: nat, cb: seq<Instr>, u: Instr, wc: int)
    requires Within(cb, wc + 2) && TargetWithin(u, wc, wc + |cb| + 4)
    ensures Within([Ldf(arity, wc + 2), Goto(wc + |cb| + 4)] + cb + [u, Reset], wc)
  {
    var end := wc + |cb| + 4;
    var head := [Ldf(arity, wc + 2), Goto(end)];
    TargetsWiden(cb, wc + 2, wc + 2 + |cb|, wc, end);
    TargetsJoin(head, cb, wc, end);
    TargetsJoin(head + cb, [u, Reset], wc, end);
  }

  /** The last instruction of a joined code is the last of its second part. */
  lemma LastOfJoin(a: seq<Instr>, b: seq<Instr>)
    requires b != []
    ensures |a + b| > 0 && (a + b)[|a + b| - 1] == b[|b| - 1]
  {
  }

  /** The code of a closure with its ASSIGN, regrouped as five parts. */
  lemma ClosureShape(l: Instr, g: Instr, cb: seq<Instr>, u: Instr, r: Instr, a: Instr)
    ensures [l, g] + cb + [u, r] + [a] == [l] + [g] + cb + [u] + [r, a]
  {
    var x, y := [l, g] + cb + [u, r] + [a], [l] + [g] + cb + [u] + [r, a];
    assert |x| == |y|;
    forall i | 0 <= i < |x|
      ensures x[i] == y[i]
    {
      if 2 <= i < 2 + |cb| {
        assert x[i] == cb[i - 2] == y[i];
      }
    }
  }

  /** The code of a loop, regrouped with its POP on its own. */
  lemma LoopShape(p: seq<Instr>, x: Instr, y: Instr, z: Instr)
    ensures p + [x, y, z] == p + [x] + [y, z]
  {
  }

  /** Dropping the last instruction keeps the addresses of the rest in
      range. */
  lemma TargetsPrefix(a: seq<Instr>, n: nat, lo: int, hi: int)
    requires TargetsWithin(a, lo, hi) && n <= |a|
    ensures TargetsWithin(a[..n], lo, hi)
  {
    forall i | 0 <= i < n
      ensures TargetWithin(a[..n][i], lo, hi)
    {
      assert a[..n][i] == a[i];
    }
  }

  /** A string of decimal digits. */
  predicate IsDecimal(s: string) {
    |s| >= 1 && forall i :: 0 <= i < |s| ==> '0' <= s[i] <= '9'
  }

  /** JavaScript's `Number(s)` on a string of decimal digits. Other
      spellings (hexadecimal, signs, blanks, fractions) are outside the
      model. */
  function NumberOf(s: string): (r: Result<int, CompileError>)
    ensures r.Ok? <==> IsDecimal(s)
    ensures r.Ok? ==> r.value == ParseDigits(s)
  {
    if IsDecimal(s) then Ok(ParseDigits(s)) else Err(NumberNotModelled(s))
  }

  /** Printing a natural number and reading it back with `Number` gives it
      back. */
  lemma NumberOfDigits(n: nat)
    ensures NumberOf(Digits(n)) == Ok(n)
  {
    DigitsRoundTrip(n);
  }
}
