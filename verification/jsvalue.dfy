/** The JavaScript values the machines convert heap nodes to and from,
    the operators the machines apply to them, and their printed form. */
module JsValues {
  import opened Wrappers

  /** Numbers are modelled as unbounded integers. `JStr` only arises from
      converting nodes that have no value of their own ("<closure>",
      "<builtin>", "<unassigned>", "unknown word tag"). */
  datatype JsValue =
    | JBool(b: bool)
    | JNum(n: int)
    | JUndefined
    | JNull
    | JStr(s: string)
    | JPair(hd: JsValue, tl: JsValue)

  datatype BinOp = Add | Sub | Mul | Lt | Le | Ge | Gt | Eq | Ne | And | Or
  datatype UnOp = Neg | Not

  /** Why an operator could not produce a value the model can hold. */
  datatype OpError =
    | PlusOperands      // "+ expects two numbers or two strings"
    | NotModelled       // a JavaScript coercion outside the model

  /** JavaScript truthiness. */
  predicate Truthy(v: JsValue) {
    match v
    case JBool(b) => b
    case JNum(n) => n != 0
    case JUndefined => false
    case JNull => false
    case JStr(s) => s != ""
    case JPair(_, _) => true
  }

  /** JavaScript's `===`: arrays are compared by identity, and the
      conversion builds a fresh array each time, so two pairs are never
      identical. */
  predicate StrictEquals(x: JsValue, y: JsValue) {
    match (x, y)
    case (JBool(a), JBool(b)) => a == b
    case (JNum(a), JNum(b)) => a == b
    case (JUndefined, JUndefined) => true
    case (JNull, JNull) => true
    case (JStr(a), JStr(b)) => a == b
    case _ => false
  }

  /** The binary operators on two operands, `x` the left one. */
  function ApplyBinOp(op: BinOp, x: JsValue, y: JsValue): (r: Result<JsValue, OpError>)
    ensures op == Add ==> (r.Ok? <==> x.JNum? && y.JNum?)
    ensures op in {Add, Sub, Mul} && r.Ok? ==> r.value.JNum?
    ensures op in {Lt, Le, Ge, Gt, Eq, Ne} && r.Ok? ==> r.value.JBool?
    ensures op in {Eq, Ne, And, Or} ==> r.Ok?
    ensures op == And ==> r.value == (if Truthy(x) then y else x)
    ensures op == Or ==> r.value == (if Truthy(x) then x else y)
  {
    match op
    case Add =>
      if x.JNum? && y.JNum? then Ok(JNum(x.n + y.n))
      else if x.JStr? && y.JStr? then Err(NotModelled)
      else Err(PlusOperands)
    case Sub => if x.JNum? && y.JNum? then Ok(JNum(x.n - y.n)) else Err(NotModelled)
    case Mul => if x.JNum? && y.JNum? then Ok(JNum(x.n * y.n)) else Err(NotModelled)
    case Lt => if x.JNum? && y.JNum? then Ok(JBool(x.n < y.n)) else Err(NotModelled)
    case Le => if x.JNum? && y.JNum? then Ok(JBool(x.n <= y.n)) else Err(NotModelled)
    case Ge => if x.JNum? && y.JNum? then Ok(JBool(x.n >= y.n)) else Err(NotModelled)
    case Gt => if x.JNum? && y.JNum? then Ok(JBool(x.n > y.n)) else Err(NotModelled)
    case Eq => Ok(JBool(StrictEquals(x, y)))
    case Ne => Ok(JBool(!StrictEquals(x, y)))
    case And => Ok(if Truthy(x) then y else x)
    case Or => Ok(if Truthy(x) then x else y)
  }

  /** `==` and `!=` always give opposite answers, and `==` is symmetric. */
  lemma EqualityOperators(x: JsValue, y: JsValue)
    ensures ApplyBinOp(Eq, x, y).value.b == !ApplyBinOp(Ne, x, y).value.b
    ensures ApplyBinOp(Eq, x, y) == ApplyBinOp(Eq, y, x)
    ensures !x.JPair? ==> ApplyBinOp(Eq, x, x) == Ok(JBool(true))
  {
  }

  function ApplyUnOp(op: UnOp, x: JsValue): (r: Result<JsValue, OpError>)
    ensures op == Not ==> r == Ok(JBool(!Truthy(x)))
    ensures op == Neg ==> (r.Ok? <==> x.JNum?)
  {
    match op
    case Neg => if x.JNum? then Ok(JNum(-x.n)) else Err(NotModelled)
    case Not => Ok(JBool(!Truthy(x)))
  }

  /** The decimal digits of a natural number, most significant first. */
  function Digits(n: nat): (s: string)
    ensures |s| >= 1
    ensures forall i :: 0 <= i < |s| ==> '0' <= s[i] <= '9'
    decreases n
  {
    if n < 10 then [DigitChar(n)] else Digits(n / 10) + [DigitChar(n % 10)]
  }

  function DigitChar(d: nat): (c: char)
    requires d < 10
    ensures '0' <= c <= '9' && c as int - '0' as int == d
  {
    ('0' as int + d) as char
  }

  /** Reads back a string of decimal digits. */
  function ParseDigits(s: string): int
    decreases |s|
  {
    if s == [] then 0 else 10 * ParseDigits(s[..|s| - 1]) + (s[|s| - 1] as int - '0' as int)
  }

  /** Printing a natural number in decimal loses nothing. */
  lemma {:induction false} DigitsRoundTrip(n: nat)
    ensures ParseDigits(Digits(n)) == n
    decreases n
  {
    if n >= 10 {
      DigitsRoundTrip(n / 10);
      var s := Digits(n);
      assert s[..|s| - 1] == Digits(n / 10);
    }
  }

  /** JavaScript's `String(n)` for an integer. */
  function NumberString(n: int): (s: string)
    ensures |s| >= 1
  {
    if n < 0 then "-" + Digits(-n) else Digits(n)
  }

  /** A printed integer reads back as itself. */
  lemma NumberStringRoundTrip(n: int)
    ensures var s := NumberString(n);
            if s[0] == '-' then n < 0 && ParseDigits(s[1..]) == -n else ParseDigits(s) == n
  {
    if n < 0 {
      DigitsRoundTrip(-n);
      assert NumberString(n)[1..] == Digits(-n);
    } else {
      DigitsRoundTrip(n);
    }
  }

  /** JavaScript's `String(v)`, which `println` appends to the output. An
      array prints its elements joined by commas, with `undefined` and
      `null` elements printed empty. */
  function Render(v: JsValue): (r: string)
    ensures v.JNum? && v.n >= 0 ==> ParseDigits(r) == v.n && forall i :: 0 <= i < |r| ==> '0' <= r[i] <= '9'
    ensures v.JNum? && v.n < 0 ==> |r| >= 2 && r[0] == '-' && ParseDigits(r[1..]) == -v.n
    ensures v.JBool? ==> r == (if v.b then "true" else "false")
    ensures v.JStr? ==> r == v.s
    decreases v, 0
  {
    match v
    case JBool(b) => if b then "true" else "false"
    case JNum(n) => NumberStringRoundTrip(n); NumberString(n)
    case JUndefined => "undefined"
    case JNull => "null"
    case JStr(s) => s
    case JPair(hd, tl) => RenderElement(hd) + "," + RenderElement(tl)
  }

  function RenderElement(v: JsValue): string
    decreases v, 1
  {
    if v.JUndefined? || v.JNull? then "" else Render(v)
  }
}
