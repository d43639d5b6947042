/** The syntax of condition expressions: the operator table of
    `lowestPrecedence`, the expression trees `Choice.parse` builds and the
    values `Choice.interp` produces. */
module Syntax {

  datatype Option<+T> = None | Some(value: T)

  /** The binary operators of the precedence table. */
  datatype BinOp = Pow | Mul | Div | Mod | Add | Sub | Lt | Gt | Ge | Le | Ne | Eq | And | Or

  /** An entry of the precedence table: prefix `!` or a binary operator. */
  datatype Token = Bang | Bin(op: BinOp)

  /** The operator's text, which is also the `operand` string of its tree node. */
  function BinSymbol(op: BinOp): string {
    match op
    case Pow => "**"
    case Mul => "*"
    case Div => "/"
    case Mod => "%"
    case Add => "+"
    case Sub => "-"
    case Lt => "<"
    case Gt => ">"
    case Ge => ">="
    case Le => "<="
    case Ne => "!="
    case Eq => "=="
    case And => "&&"
    case Or => "||"
  }

  function Symbol(t: Token): string {
    match t
    case Bang => "!"
    case Bin(op) => BinSymbol(op)
  }

  /** Number of characters the operator occupies in the text: 1 or 2. */
  function Width(t: Token): (r: nat)
    ensures 1 <= r <= 2
  {
    |Symbol(t)|
  }

  /** The precedence table of `lowestPrecedence`. */
  function Precedence(t: Token): nat {
    match t
    case Bang => 14
    case Bin(Pow) => 13
    case Bin(Mul) => 12
    case Bin(Div) => 12
    case Bin(Mod) => 12
    case Bin(Add) => 11
    case Bin(Sub) => 11
    case Bin(Lt) => 9
    case Bin(Gt) => 9
    case Bin(Ge) => 9
    case Bin(Le) => 9
    case Bin(Ne) => 8
    case Bin(Eq) => 8
    case Bin(And) => 4
    case Bin(Or) => 3
  }

  /** The table key made of the two characters `a` and `b`, if there is one. */
  function TwoCharToken(a: char, b: char): (r: Option<Token>)
    ensures r.Some? ==> Symbol(r.value) == [a, b]
    ensures r.Some? ==> a != '(' && b != '('
  {
    if a == '*' && b == '*' then Some(Bin(Pow))
    else if a == '>' && b == '=' then Some(Bin(Ge))
    else if a == '<' && b == '=' then Some(Bin(Le))
    else if a == '!' && b == '=' then Some(Bin(Ne))
    else if a == '=' && b == '=' then Some(Bin(Eq))
    else if a == '&' && b == '&' then Some(Bin(And))
    else if a == '|' && b == '|' then Some(Bin(Or))
    else None
  }

  /** The table key made of the single character `a`, if there is one. */
  function OneCharToken(a: char): (r: Option<Token>)
    ensures r.Some? ==> Symbol(r.value) == [a]
    ensures r.Some? ==> a != '('
  {
    if a == '!' then Some(Bang)
    else if a == '*' then Some(Bin(Mul))
    else if a == '/' then Some(Bin(Div))
    else if a == '%' then Some(Bin(Mod))
    else if a == '+' then Some(Bin(Add))
    else if a == '-' then Some(Bin(Sub))
    else if a == '<' then Some(Bin(Lt))
    else if a == '>' then Some(Bin(Gt))
    else None
  }

  /** Every table entry is found again from its own text, so the lookups
      recognise exactly the fifteen keys of the table. */
  lemma LookupFindsEveryKey(t: Token)
    ensures Width(t) == 1 ==> OneCharToken(Symbol(t)[0]) == Some(t)
    ensures Width(t) == 2 ==> TwoCharToken(Symbol(t)[0], Symbol(t)[1]) == Some(t)
  {
  }

  /** An expression tree. `Var`, `Not`, `Binary` correspond to the
      `["var", e]`, `["!", e]` and `[op, e1, e2]` arrays of the source;
      `NoOp` is the `["", e1, e2]` array the earlier parser builds when it
      finds no operator; `Undefined` is an `Expr` built from the `undefined`
      that `parse` returns for text it cannot read. */
  datatype Expr =
    | BoolLit(b: bool)
    | NumLit(n: real)
    | Var(index: Expr)
    | Not(arg: Expr)
    | Binary(op: BinOp, left: Expr, right: Expr)
    | NoOp(first: Expr, second: Expr)
    | Undefined

  function Size(e: Expr): (r: nat)
    ensures r >= 1
  {
    match e
    case Var(i) => 1 + Size(i)
    case Not(a) => 1 + Size(a)
    case Binary(_, l, r) => 1 + Size(l) + Size(r)
    case NoOp(l, r) => 1 + Size(l) + Size(r)
    case _ => 1
  }

  /** The result of an evaluation: a boolean or a number. */
  datatype Value = Bool(b: bool) | Num(n: real)
}
