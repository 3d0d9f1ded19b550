/** The Go syntax trees that server/go_vm.js and compiler/compiler.js
    compile: the part of the JSON form of Go's `ast` package that the two
    compilers read. Names stand where the source reads `.Name` of an
    identifier node. */
module GoAst {
  import opened Wrappers

  /** One field of a parameter list; the compilers use its first name. */
  datatype Field = Field(names: seq<string>)

  /** The first spec of a `var` declaration: its first name, its type
      expression and its initial values, as far as the compilers look. */
  datatype Spec = Spec(name: string, typ: Option<Node>, values: Nodes)

  /** A list field of the JSON form, which is `null` when the list is
      absent. */
  datatype Nodes = Null | List(items: seq<Node>)

  datatype Node =
    | BasicLit(kind: string, value: string)
    | Ident(name: string)
    | UnaryExpr(op: string, x: Node)
    | BinaryExpr(op: string, x: Node, y: Node)
    | ParenExpr(x: Node)
    | SelectorExpr(x: Node, sel: Node)
    | CallExpr(fun: Node, args: Nodes)
    | ChanType
    | ExprStmt(x: Node)
    | IfStmt(cond: Node, body: Node, els: Option<Node>)
    | ForStmt(cond: Node, body: Node)
    | BlockStmt(list: seq<Node>)
    | DeclStmt(spec: Spec)
    | GenDecl(spec: Spec)
    | AssignStmt(lhs: string, rhs: Node)
    | ReturnStmt(results: seq<Node>)
    | SendStmt(chan: string, sent: Node)
    | GoStmt(call: Node)
    | FuncDecl(name: string, params: Option<seq<Field>>, body: Node)
    | Other(nodeType: string)

  /** The parameter names a function declaration binds: the first name of
      each field. A field without names has none to take. */
  function ParamNames(params: Option<seq<Field>>): (r: Option<seq<string>>)
    ensures params.None? ==> r == Some([])
    ensures params.Some? ==>
              (r.Some? <==> forall i :: 0 <= i < |params.value| ==> params.value[i].names != [])
    ensures r.Some? && params.Some? ==>
              |r.value| == |params.value|
              && forall i :: 0 <= i < |params.value| ==> r.value[i] == params.value[i].names[0]
  {
    if params.None? then Some([]) else FirstNames(params.value)
  }

  function FirstNames(fields: seq<Field>): (r: Option<seq<string>>)
    ensures r.Some? <==> forall i :: 0 <= i < |fields| ==> fields[i].names != []
    ensures r.Some? ==> |r.value| == |fields|
                        && forall i :: 0 <= i < |fields| ==> r.value[i] == fields[i].names[0]
    decreases |fields|
  {
    if fields == [] then Some([])
    else if fields[0].names == [] then None
    else
      var rest :- FirstNames(fields[1..]);
      Some([fields[0].names[0]] + rest)
  }

  /** The number of parameters a function declaration reports as its
      arity: one per field. */
  function Arity(params: Option<seq<Field>>): nat {
    if params.None? then 0 else |params.value|
  }
}
