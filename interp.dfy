/** `Choice.interp`: the tree-walking evaluator, for both versions of the
    plugin. The later version (`Main`) compares with `===` and `!==` and has
    `**`; the earlier one (`Early`) compares with loose `==` and has neither
    `!=` nor `**`. Neither has a case for `%`. The variable lookup of the
    game engine is the parameter `vars`. */
module Interp {
  import opened Syntax

  datatype Dialect = Main | Early

  /** Why an evaluation has no boolean or number result: the `undefined` of a
      failed parse, an operator `interp` has no case for (it then returns
      `undefined`), a zero divisor or a power JavaScript would give as an
      infinity, NaN or an irrational number, or a boolean used as a variable index. */
  datatype EvalError = UndefinedNode | Unsupported(op: BinOp) | ZeroDivisor | InexactPower | BooleanIndex

  datatype Result = Ok(value: Value) | Err(error: EvalError)

  /** JavaScript's ToNumber on a boolean or a number. */
  function ToNumber(v: Value): real {
    match v
    case Bool(b) => if b then 1.0 else 0.0
    case Num(n) => n
  }

  /** JavaScript truthiness of a boolean or a number. */
  predicate Truthy(v: Value) {
    match v
    case Bool(b) => b
    case Num(n) => n != 0.0
  }

  function IntPow(b: real, n: nat): (r: real)
    ensures b != 0.0 ==> r != 0.0
  {
    if n == 0 then 1.0 else b * IntPow(b, n - 1)
  }

  /** `b ** e` where it is an exact rational number: an integer exponent,
      and a base other than zero when the exponent is negative. */
  function Power(b: real, e: real): Result {
    if e != e.Floor as real then Err(InexactPower)
    else if e >= 0.0 then Ok(Num(IntPow(b, e.Floor as nat)))
    else if b == 0.0 then Err(ZeroDivisor)
    else Ok(Num(1.0 / IntPow(b, (-e.Floor) as nat)))
  }

  /** The operators `interp` has a case for. */
  predicate Supports(d: Dialect, op: BinOp) {
    match d
    case Main => op != Mod
    case Early => op != Mod && op != Ne && op != Pow
  }

  /** A binary operator other than `||` and `&&` applied to two values. */
  function Apply(d: Dialect, op: BinOp, a: Value, b: Value): Result {
    var x := ToNumber(a);
    var y := ToNumber(b);
    match op
    case Lt => Ok(Bool(x < y))
    case Gt => Ok(Bool(x > y))
    case Le => Ok(Bool(x <= y))
    case Ge => Ok(Bool(x >= y))
    case Eq => if d == Main then Ok(Bool(a == b)) else Ok(Bool(x == y))
    case Ne => Ok(Bool(a != b))
    case Add => Ok(Num(x + y))
    case Sub => Ok(Num(x - y))
    case Mul => Ok(Num(x * y))
    case Div => if y == 0.0 then Err(ZeroDivisor) else Ok(Num(x / y))
    case Pow => Power(x, y)
    case _ => Err(Unsupported(op))
  }

  /** `interp(expr)` against the variable lookup `vars`. `||` and `&&`
      evaluate their right operand only when JavaScript does and return one of
      the operands' values; the other operators evaluate both operands, left first. */
  function Eval(d: Dialect, e: Expr, vars: real -> real): Result {
    match e
    case BoolLit(b) => Ok(Bool(b))
    case NumLit(n) => Ok(Num(n))
    case NoOp(_, _) => Ok(Num(0.0))
    case Undefined => Err(UndefinedNode)
    case Var(i) =>
      match Eval(d, i, vars) {
        case Ok(Num(k)) => Ok(Num(vars(k)))
        case Ok(Bool(_)) => Err(BooleanIndex)
        case Err(x) => Err(x)
      }
    case Not(a) =>
      match Eval(d, a, vars) {
        case Ok(v) => Ok(Bool(!Truthy(v)))
        case Err(x) => Err(x)
      }
    case Binary(op, l, r) =>
      if !Supports(d, op) then Err(Unsupported(op))
      else if op == Or then
        match Eval(d, l, vars) {
          case Ok(v) => if Truthy(v) then Ok(v) else Eval(d, r, vars)
          case Err(x) => Err(x)
        }
      else if op == And then
        match Eval(d, l, vars) {
          case Ok(v) => if !Truthy(v) then Ok(v) else Eval(d, r, vars)
          case Err(x) => Err(x)
        }
      else
        match Eval(d, l, vars) {
          case Err(x) => Err(x)
          case Ok(a) =>
            match Eval(d, r, vars) {
              case Err(x) => Err(x)
              case Ok(b) => Apply(d, op, a, b)
            }
        }
  }

  /** The stored flag's truthiness: an evaluation without a result counts as false. */
  predicate Flag(r: Result) {
    r.Ok? && Truthy(r.value)
  }

  /** An evaluation error reaches the root: `!` of an error, and a supported
      binary operator whose left operand fails, fail with the same error.
      JavaScript's `interp` instead goes on computing with `undefined`, for
      which `!undefined` is true and `undefined || x` is `x`. */
  lemma ErrorsPropagate(d: Dialect, a: Expr, op: BinOp, r: Expr, vars: real -> real)
    requires Eval(d, a, vars).Err?
    ensures Eval(d, Not(a), vars) == Eval(d, a, vars)
    ensures Supports(d, op) ==> Eval(d, Binary(op, a, r), vars) == Eval(d, a, vars)
    ensures Supports(d, op) && op != Or && op != And ==> Eval(d, Binary(op, r, a), vars).Err?
  {
  }

  /** `!=` is always the negation of `==`, with the same errors. */
  lemma NeIsNotEq(l: Expr, r: Expr, vars: real -> real)
    ensures var eq := Eval(Main, Binary(Eq, l, r), vars);
      var ne := Eval(Main, Binary(Ne, l, r), vars);
      (eq.Ok? <==> ne.Ok?)
      && (eq.Ok? ==> eq.value.Bool? && ne.value == Bool(!eq.value.b))
      && (eq.Err? ==> ne == eq)
  {
  }

  /** Loose `==` agrees with strict `===` on two values of one type; across
      types `===` is always false, while `==` compares the numbers, so that
      `true == 1` holds. */
  lemma LooseEqualityDiffersOnlyAcrossTypes(a: Value, b: Value)
    ensures a.Bool? == b.Bool? ==> Apply(Main, Eq, a, b) == Apply(Early, Eq, a, b)
    ensures a.Bool? != b.Bool? ==> Apply(Main, Eq, a, b) == Ok(Bool(false))
    ensures a.Bool? != b.Bool? ==> Apply(Early, Eq, a, b) == Ok(Bool(ToNumber(a) == ToNumber(b)))
  {
  }

  /** The variable indices an expression reads, where it reads them from literals. */
  function VarIndices(e: Expr): set<real> {
    match e
    case Var(i) => (if i.NumLit? then {i.n} else {}) + VarIndices(i)
    case Not(a) => VarIndices(a)
    case Binary(_, l, r) => VarIndices(l) + VarIndices(r)
    case NoOp(l, r) => VarIndices(l) + VarIndices(r)
    case _ => {}
  }

  /** Every variable index is a literal. */
  predicate LiteralIndices(e: Expr) {
    match e
    case Var(i) => i.NumLit?
    case Not(a) => LiteralIndices(a)
    case Binary(_, l, r) => LiteralIndices(l) && LiteralIndices(r)
    case NoOp(l, r) => LiteralIndices(l) && LiteralIndices(r)
    case _ => true
  }

  /** Evaluation is a function of the tree and of the variables it reads:
      two variable tables that agree on those give the same result. */
  lemma {:induction false} EvalReadsOnlyItsVariables(d: Dialect, e: Expr, v1: real -> real, v2: real -> real)
    requires LiteralIndices(e)
    requires forall k :: k in VarIndices(e) ==> v1(k) == v2(k)
    ensures Eval(d, e, v1) == Eval(d, e, v2)
  {
    match e
    case Var(i) =>
    case Not(a) =>
      EvalReadsOnlyItsVariables(d, a, v1, v2);
    case Binary(_, l, r) =>
      EvalReadsOnlyItsVariables(d, l, v1, v2);
      EvalReadsOnlyItsVariables(d, r, v1, v2);
    case _ =>
  }

  datatype Type = TBool | TNum

  predicate HasType(v: Value, t: Type) {
    match t
    case TBool => v.Bool?
    case TNum => v.Num?
  }

  /** The type of the value an expression evaluates to, where one can be
      given: numeric variable indices, supported operators, and `||`/`&&`
      with operands of one type (they return an operand). */
  function TypeOf(d: Dialect, e: Expr): Option<Type> {
    match e
    case BoolLit(_) => Some(TBool)
    case NumLit(_) => Some(TNum)
    case NoOp(_, _) => Some(TNum)
    case Undefined => None
    case Var(i) => if TypeOf(d, i) == Some(TNum) then Some(TNum) else None
    case Not(a) => if TypeOf(d, a).Some? then Some(TBool) else None
    case Binary(op, l, r) =>
      var tl := TypeOf(d, l);
      var tr := TypeOf(d, r);
      if !Supports(d, op) || tl.None? || tr.None? then None
      else if op == Or || op == And then (if tl == tr then tl else None)
      else if op in {Add, Sub, Mul, Div, Pow} then Some(TNum)
      else Some(TBool)
  }

  /** A typed expression evaluates to a value of its type, unless a division
      or a power has no exact result. */
  lemma {:induction false} EvalWellTyped(d: Dialect, e: Expr, vars: real -> real)
    requires TypeOf(d, e).Some?
    ensures var r := Eval(d, e, vars);
      (r.Ok? ==> HasType(r.value, TypeOf(d, e).value))
      && (r.Err? ==> r.error == ZeroDivisor || r.error == InexactPower)
  {
    match e
    case Var(i) =>
      EvalWellTyped(d, i, vars);
    case Not(a) =>
      EvalWellTyped(d, a, vars);
    case Binary(op, l, r) =>
      EvalWellTyped(d, l, vars);
      EvalWellTyped(d, r, vars);
    case _ =>
  }
}
