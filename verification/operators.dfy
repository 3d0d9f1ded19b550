/** The operator tables of the three machines. An instruction carries the
    operator's source symbol; each machine looks it up when the
    instruction runs, and a symbol its table lacks stops the machine (in
    the source, calling the missing table entry throws). Division and
    remainder are in every table but work on floating-point numbers,
    which the model leaves out. */
module Operators {
  import opened Wrappers
  import opened JsValues
  import opened Faults

  /** go_vm's binary operators: Go's `==` and `!=`, and `&&` and `||`. */
  function GoBinOp(sym: string): (r: Result<BinOp, Fault>)
    ensures r.Ok? <==> sym in GoBinSymbols
    ensures r.Err? ==> r.error == if sym in {"/", "%"} then OperatorError(NotModelled) else UnknownOperator(sym)
  {
    match sym
    case "+" => Ok(Add)
    case "*" => Ok(Mul)
    case "-" => Ok(Sub)
    case "<" => Ok(Lt)
    case "<=" => Ok(Le)
    case ">=" => Ok(Ge)
    case ">" => Ok(Gt)
    case "==" => Ok(Eq)
    case "!=" => Ok(Ne)
    case "&&" => Ok(And)
    case "||" => Ok(Or)
    case "/" => Err(OperatorError(NotModelled))
    case "%" => Err(OperatorError(NotModelled))
    case _ => Err(UnknownOperator(sym))
  }

  const GoBinSymbols: set<string> := {"+", "*", "-", "<", "<=", ">=", ">", "==", "!=", "&&", "||"}

  /** The symbol go_vm's compiler emits for each operator. */
  function GoSymbol(op: BinOp): string {
    match op
    case Add => "+"
    case Sub => "-"
    case Mul => "*"
    case Lt => "<"
    case Le => "<="
    case Ge => ">="
    case Gt => ">"
    case Eq => "=="
    case Ne => "!="
    case And => "&&"
    case Or => "||"
  }

  /** Every operator has exactly one symbol in go_vm's table. */
  lemma GoTableRoundTrip(op: BinOp, sym: string)
    ensures GoBinOp(GoSymbol(op)) == Ok(op)
    ensures GoBinOp(sym).Ok? ==> GoSymbol(GoBinOp(sym).value) == sym
  {
  }

  /** mark_sweep_gc's binary operators: JavaScript's `===` and `!==`, and
      no logical operators (those compile to conditionals there). */
  function SourceBinOp(sym: string): (r: Result<BinOp, Fault>)
    ensures r.Ok? <==> sym in SourceBinSymbols
    ensures r.Ok? ==> r.value != And && r.value != Or
    ensures r.Err? ==> r.error == if sym in {"/", "%"} then OperatorError(NotModelled) else UnknownOperator(sym)
  {
    match sym
    case "+" => Ok(Add)
    case "*" => Ok(Mul)
    case "-" => Ok(Sub)
    case "<" => Ok(Lt)
    case "<=" => Ok(Le)
    case ">=" => Ok(Ge)
    case ">" => Ok(Gt)
    case "===" => Ok(Eq)
    case "!==" => Ok(Ne)
    case "/" => Err(OperatorError(NotModelled))
    case "%" => Err(OperatorError(NotModelled))
    case _ => Err(UnknownOperator(sym))
  }

  const SourceBinSymbols: set<string> := {"+", "*", "-", "<", "<=", ">=", ">", "===", "!=="}

  /** compiler.js's binary operators: mark_sweep_gc's table plus `&&` and
      `||`. */
  function EarlyBinOp(sym: string): (r: Result<BinOp, Fault>)
    ensures r.Ok? <==> sym in SourceBinSymbols || sym in {"&&", "||"}
  {
    match sym
    case "&&" => Ok(And)
    case "||" => Ok(Or)
    case _ => SourceBinOp(sym)
  }

  /** Unary operators: go_vm spells negation `-`, the other two `-unary`. */
  function GoUnOp(sym: string): (r: Result<UnOp, Fault>)
    ensures r.Ok? <==> sym == "-" || sym == "!"
    ensures r.Err? ==> r.error == UnknownOperator(sym)
  {
    match sym
    case "-" => Ok(Neg)
    case "!" => Ok(Not)
    case _ => Err(UnknownOperator(sym))
  }

  function SourceUnOp(sym: string): (r: Result<UnOp, Fault>)
    ensures r.Ok? <==> sym == "-unary" || sym == "!"
    ensures r.Err? ==> r.error == UnknownOperator(sym)
  {
    match sym
    case "-unary" => Ok(Neg)
    case "!" => Ok(Not)
    case _ => Err(UnknownOperator(sym))
  }

  /** compiler.js compiles Go source but kept the JavaScript tables: Go's
      `==`, `!=` and unary `-` have no entry there, while every other
      operator of the Go table means the same in both. */
  lemma EarlyTableLacksGoSymbols(sym: string)
    ensures EarlyBinOp("==").Err? && EarlyBinOp("!=").Err? && SourceUnOp("-").Err?
    ensures GoBinOp(sym).Ok? && sym != "==" && sym != "!=" ==> EarlyBinOp(sym) == GoBinOp(sym)
  {
  }
}
