/** Syntax trees, values and scopes of the interpreter. */
module Values {
  import opened Options

  /** What can go wrong while evaluating; diagnostics are reduced to their kind. */
  datatype Error =
    | UnknownVariable   // name not bound in any scope
    | ReadOnly          // write to a captured variable
    | Mismatch          // wrong type or number of elements, bad operand, bad argument
    | Temporary         // assignment to something that is not a variable
    | AlwaysTrue        // "condition is always true"
    | Infinite          // "loop seems to be infinite"
    | TooDeep           // call depth exceeded
    | Forbidden         // control flow escaping its loop or function

  datatype Result<+T> = Ok(value: T) | Err(error: Error) {
    predicate IsFailure() { Err? }

    function PropagateFailure<U>(): Result<U>
      requires Err?
    {
      Err(error)
    }

    function Extract(): T
      requires Ok?
    {
      value
    }
  }

  // ----- Syntax -----

  datatype UnOp = Pos | Neg | Not

  datatype BinOp = Add | Sub | Mul | Div | And | Or | Eq | Neq | Lt | Leq | Gt | Geq | In | NotIn

  datatype Const = CNone | CAuto | CBool(b: bool) | CInt(i: int) | CStr(s: string)

  /** A pattern; the items of a destructuring are plain, named or spread. */
  datatype Pattern =
    | Bind(name: string)
    | Placeholder
    | Destructuring(items: seq<PatternItem>)

  datatype PatternItem =
    | Slot(pattern: Pattern)
    | Field(key: string, pattern: Pattern)
    | Rest(sink: Option<string>)

  datatype Param =
    | PosParam(pattern: Pattern)
    | NamedParam(name: string, default: Expr)
    | SinkParam(sink: Option<string>)

  /** An item of an array, a dictionary or an argument list. */
  datatype Marker = Plain | Key(name: string) | Spread

  datatype Item = Item(marker: Marker, expr: Expr)

  datatype Expr =
    | Literal(c: Const)
    | Ident(name: string)
    | ArrayLit(items: seq<Item>)
    | DictLit(items: seq<Item>)
    | Unary(unop: UnOp, arg: Expr)
    | Binary(op: BinOp, lhs: Expr, rhs: Expr)
    | Assign(compound: Option<BinOp>, target: Expr, rhs: Expr)
    | DestructAssign(pattern: Pattern, rhs: Expr)
    | Block(body: seq<Stmt>)
    | If(cond: Expr, thn: Expr, els: Option<Expr>)
    | While(cond: Expr, loop: Expr)
    | For(pattern: Pattern, iterable: Expr, loop: Expr)
    | Break
    | Continue
    | Return(result: Option<Expr>)
    | Lambda(self: Option<string>, params: seq<Param>, code: Expr)
    | Call(callee: Expr, items: seq<Item>)

  /** Let bindings occur in statement position of a code block. */
  datatype Stmt =
    | Do(expr: Expr)
    | Let(pattern: Pattern, init: Option<Expr>)

  // ----- Values -----

  datatype Arg = Arg(name: Option<string>, value: Value)

  datatype Entry = Entry(key: string, value: Value)

  datatype Value =
    | NoneVal
    | AutoVal
    | BoolVal(b: bool)
    | IntVal(i: int)
    | StrVal(s: string)
    | ArrayVal(elems: seq<Value>)
    | DictVal(entries: seq<Entry>)
    | ArgsVal(args: seq<Arg>)
    | FuncVal(closure: Closure)

  /** A closure keeps the captured variables by value. */
  datatype Closure = Closure(
    self: Option<string>,
    params: seq<Param>,
    code: Expr,
    defaults: seq<Value>,
    captured: map<string, Value>)
}
