/** The syntax trees that compiler/mark_sweep_gc.js compiles: the JSON
    form its `ast_to_json` builds from a JavaScript-like program, one
    constructor per tag. Logical compositions (`log`) are not part of this
    model. */
module SourceAst {
  import opened JsValues

  datatype Component =
    | Lit(val: JsValue)
    | Nam(sym: string)
    | UnaryOp(sym: string, frst: Component)
    | BinaryOp(sym: string, frst: Component, scnd: Component)
    | Cond(pred: Component, cons: Component, alt: Component)
    | While(pred: Component, body: Component)
    | App(fun: Component, args: seq<Component>)
    | Assmt(sym: string, expr: Component)
    | Lam(prms: seq<string>, body: Component)
    | Sequence(stmts: seq<Component>)
    | Blk(body: Component)
    | Let(sym: string, expr: Component)
    | Const(sym: string, expr: Component)
    | Ret(expr: Component)
    | Fun(sym: string, prms: seq<string>, body: Component)

  /** Whether the component declares a name in the block around it. */
  predicate IsDeclaration(c: Component) {
    c.Let? || c.Const? || c.Fun?
  }
}
