/** `Expr.equals`: structural comparison of expression trees through the
    `operand`, `arg1` and `arg2` fields the source stores them in. */
module Equality {
  import opened Syntax

  /** A JavaScript primitive held in the `operand` field. */
  datatype Prim = PBool(b: bool) | PNum(n: real) | PStr(s: string) | PUndef

  /** The `operand` field of a node: the literal itself, or the text `"var"`,
      `"!"`, the operator's symbol or `""`; a node built from `undefined` has none. */
  function Operand(e: Expr): Prim {
    match e
    case BoolLit(b) => PBool(b)
    case NumLit(n) => PNum(n)
    case Var(_) => PStr("var")
    case Not(_) => PStr("!")
    case Binary(op, _, _) => PStr(BinSymbol(op))
    case NoOp(_, _) => PStr("")
    case Undefined => PUndef
  }

  /** The `arg1` field, `None` where it is `undefined`. */
  function Arg1(e: Expr): (r: Option<Expr>)
    ensures r.Some? ==> Size(r.value) < Size(e)
  {
    match e
    case Var(i) => Some(i)
    case Not(a) => Some(a)
    case Binary(_, l, _) => Some(l)
    case NoOp(l, _) => Some(l)
    case _ => None
  }

  /** The `arg2` field, `None` where it is `undefined`. */
  function Arg2(e: Expr): (r: Option<Expr>)
    ensures r.Some? ==> Size(r.value) < Size(e)
  {
    match e
    case Binary(_, _, r) => Some(r)
    case NoOp(_, r) => Some(r)
    case _ => None
  }

  /** `a.equals(b)`. The source's `typeof this.operand === Expr` compares a
      type name with a function and never holds, so operands are always
      compared with `===`. An argument missing on either side is compared with
      `===` too, which holds only when it is missing on both. */
  function ExprEquals(a: Expr, b: Expr): bool
    decreases Size(a)
  {
    var x1 := Arg1(a);
    var y1 := Arg1(b);
    var x2 := Arg2(a);
    var y2 := Arg2(b);
    Operand(a) == Operand(b)
    && (if x1.None? || y1.None? then x1 == y1 else ExprEquals(x1.value, y1.value))
    && (if x2.None? || y2.None? then x2 == y2 else ExprEquals(x2.value, y2.value))
  }

  lemma BinSymbolInjective(p: BinOp, q: BinOp)
    requires BinSymbol(p) == BinSymbol(q)
    ensures p == q
  {
    var s := BinSymbol(p);
    assert |s| == |BinSymbol(q)| && s[0] == BinSymbol(q)[0];
    if |s| == 2 {
      assert s[1] == BinSymbol(q)[1];
    }
  }

  /** The operand, `arg1` and `arg2` fields determine the node. */
  lemma FieldsDetermineNode(a: Expr, b: Expr)
    requires Operand(a) == Operand(b) && Arg1(a) == Arg1(b) && Arg2(a) == Arg2(b)
    ensures a == b
  {
    if a.Binary? && b.Binary? {
      BinSymbolInjective(a.op, b.op);
    }
  }

  /** `Expr.equals` coincides with equality of trees. */
  lemma {:induction false} ExprEqualsIsEquality(a: Expr, b: Expr)
    ensures ExprEquals(a, b) <==> a == b
    decreases Size(a)
  {
    var x1 := Arg1(a);
    var y1 := Arg1(b);
    var x2 := Arg2(a);
    var y2 := Arg2(b);
    if x1.Some? && y1.Some? {
      ExprEqualsIsEquality(x1.value, y1.value);
    }
    if x2.Some? && y2.Some? {
      ExprEqualsIsEquality(x2.value, y2.value);
    }
    if ExprEquals(a, b) {
      FieldsDetermineNode(a, b);
    }
  }
}
