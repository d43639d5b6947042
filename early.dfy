/** The earlier version of the plugin: a `findMatchingParentheses` that
    stops at the end of the text, and a `Choice.parse` without a precedence
    table, which splits at the first operator its scan meets. */
module Early {
  import opened JsString
  import opened Syntax
  import opened Parens
  import opened Parser

  /** `findMatchingParentheses` of this version: the match when there is one;
      otherwise the loop leaves at the end of the text and the result is the
      last index, or `start` itself when nothing follows it. */
  function EarlyMatchParen(s: string, start: nat): (r: nat)
    ensures start < |s| ==> r < |s|
  {
    var m := MatchParen(s, start);
    if m < |s| then m else if start + 1 >= |s| then start else |s| - 1
  }

  method EarlyFindMatchingParentheses(s: string, start: nat) returns (r: nat)
    ensures r == EarlyMatchParen(s, start)
  {
    var count := 1;
    var i := start + 1;
    while count > 0
      invariant start + 1 <= i
      invariant i <= |s| || i == start + 1
      invariant count > 0 ==> MatchFrom(s, i, count) == MatchParen(s, start)
      invariant count == 0 ==> i - 1 == MatchParen(s, start) && i - 1 < |s|
      invariant count >= 0
      decreases if i <= |s| then |s| - i else 0, count
    {
      if i >= |s| {
        break;
      }
      if s[i] == '(' {
        count := count + 1;
      }
      if s[i] == ')' {
        count := count - 1;
      }
      i := i + 1;
    }
    r := i - 1;
  }

  /** Test 0: the group opened at index 0 of `(())()` closes at index 3. */
  lemma MatchExample()
    ensures EarlyMatchParen("(())()", 0) == 3
  {
    var s := "(())()";
    assert MatchFrom(s, 3, 1) == 3;
    assert MatchFrom(s, 2, 2) == 3;
    assert MatchFrom(s, 1, 1) == 3;
  }

  /** On a match both versions agree; without one, this version returns the
      last index where the later one returns the length. */
  lemma EarlyMatchOverrun(s: string, start: nat)
    requires start < |s|
    ensures MatchParen(s, start) < |s| ==> EarlyMatchParen(s, start) == MatchParen(s, start)
    ensures MatchParen(s, start) == |s| ==> EarlyMatchParen(s, start) == |s| - 1
  {
  }

  /** The two-character entries of the operator list `ops`. */
  function EarlyTwo(a: char, b: char): (r: Option<BinOp>)
    ensures r.Some? ==> BinSymbol(r.value) == [a, b]
  {
    match [a, b]
    case "||" => Some(Or)
    case "&&" => Some(And)
    case "==" => Some(Eq)
    case "<=" => Some(Le)
    case ">=" => Some(Ge)
    case _ => None
  }

  /** The one-character entries of `ops`. */
  function EarlyOne(c: char): (r: Option<BinOp>)
    ensures r.Some? ==> BinSymbol(r.value) == [c]
  {
    match c
    case '>' => Some(Gt)
    case '<' => Some(Lt)
    case '+' => Some(Add)
    case '-' => Some(Sub)
    case '*' => Some(Mul)
    case '/' => Some(Div)
    case _ => None
  }

  /** What ends the scan loop: a negation (`!` or `not`) whose operand starts
      at `pos + width`, a binary operator of `width` characters, the variable
      reference, or the end of the text. */
  datatype Stop =
    | Negate(pos: nat, width: nat)
    | Operator(op: BinOp, pos: nat, width: nat)
    | Reference(pos: nat)
    | Exhausted

  /** The branch the loop body takes at index `i`, in the source's order. */
  function StopAt(text: string, i: nat): (r: Option<Stop>)
    requires i < |text|
  {
    if text[i] == '!' then Some(Negate(i, 1))
    else if At(text, "not", i) then Some(Negate(i, 3))
    else if i + 1 < |text| && EarlyTwo(text[i], text[i + 1]).Some? then
      Some(Operator(EarlyTwo(text[i], text[i + 1]).value, i, 2))
    else if EarlyOne(text[i]).Some? then Some(Operator(EarlyOne(text[i]).value, i, 1))
    else if IsVarRef(text) then Some(Reference(i))
    else None
  }

  /** The scan loop from index `i`. */
  function EarlyStop(text: string, i: nat): (r: Stop)
    ensures r.Negate? || r.Operator? ==> i <= r.pos && r.pos + r.width <= |text| && r.width >= 1
    ensures r.Reference? ==> IsVarRef(text)
    decreases |text| - i
  {
    if i >= |text| then Exhausted
    else match StopAt(text, i) {
      case Some(st) =>
        assert st.Negate? && st.width == 3 ==> At(text, "not", i) by {
          if st.Negate? && st.width == 3 {
            assert text[i] != '!';
          }
        }
        st
      case None => EarlyStop(text, i + 1)
    }
  }

  /** The scan stops at the first index from `i` on where the loop body leaves
      the loop, with that index's outcome, and runs to the end exactly when
      there is no such index. */
  lemma {:induction false} EarlyStopIsFirst(text: string, i: nat)
    ensures var r := EarlyStop(text, i);
      (r.Exhausted? <==> forall j :: i <= j < |text| ==> StopAt(text, j).None?)
      && (!r.Exhausted? ==>
            i <= r.pos < |text| && StopAt(text, r.pos) == Some(r)
            && forall j :: i <= j < r.pos ==> StopAt(text, j).None?)
    decreases |text| - i
  {
    if i < |text| && StopAt(text, i).None? {
      EarlyStopIsFirst(text, i + 1);
    }
  }

  /** The scan from `start` ends at `p` when no index before it leaves the
      loop and `p` does, or runs out when `p` is the length. */
  lemma EarlyStopAtFirst(text: string, start: nat, p: nat)
    requires start <= p <= |text|
    requires forall j :: start <= j < p ==> StopAt(text, j).None?
    requires p < |text| ==> StopAt(text, p).Some?
    ensures p < |text| ==> EarlyStop(text, start) == StopAt(text, p).value
    ensures p == |text| ==> EarlyStop(text, start) == Exhausted
  {
    EarlyStopIsFirst(text, start);
    var r := EarlyStop(text, start);
    if p < |text| {
      assert !r.Exhausted?;
      assert !(r.pos < p) && !(p < r.pos);
    }
  }

  /** `Choice.parse(raw)` of this version: literals, then a leading group,
      which is elided when its match is the last index and otherwise becomes
      the left operand, with the scan starting after it. */
  function EarlyParse(raw: string): (e: Expr)
    decreases |raw|, 1
  {
    var text := Trim(raw);
    if text == "true" then BoolLit(true)
    else if text == "false" then BoolLit(false)
    else if IsNumeric(text) then NumLit(NumberValue(text))
    else if text[0] == '(' then
      var m := EarlyMatchParen(text, 0);
      if m == |text| - 1 then EarlyParse(Slice(text, 1, m))
      else EarlyScan(text, Slice(text, 1, m), m + 1)
    else EarlyScan(text, "", 0)
  }

  /** The scan loop of `Choice.parse` from index `start`, and the node built
      where it stops; `first` is the left operand found so far. */
  function EarlyScan(text: string, first: string, start: nat): (e: Expr)
    requires |first| < |text|
    decreases |text|, 0
  {
    match EarlyStop(text, start)
    case Negate(p, w) => Not(EarlyParse(Trim(text[p + w..])))
    case Operator(op, p, w) =>
      Binary(op, EarlyParse(if first == [] then Trim(text[..p]) else first), EarlyParse(Trim(text[p + w..])))
    case Reference(_) => Var(EarlyParse(VarDigits(text)))
    case Exhausted => NoOp(EarlyParse(first), EarlyParse(""))
  }

  /** The scanning `Choice.parse` of this version. */
  method ParseEarly(raw: string) returns (e: Expr)
    ensures e == EarlyParse(raw)
    decreases |raw|, 1
  {
    var text := Trim(raw);
    if text == "true" {
      return BoolLit(true);
    }
    if text == "false" {
      return BoolLit(false);
    }
    if IsNumeric(text) {
      return NumLit(NumberValue(text));
    }
    if text[0] == '(' {
      var m := EarlyFindMatchingParentheses(text, 0);
      if m == |text| - 1 {
        e := ParseEarly(Slice(text, 1, m));
      } else {
        e := ScanEarly(text, Slice(text, 1, m), m + 1);
      }
    } else {
      e := ScanEarly(text, "", 0);
    }
  }

  /** The scan loop of `Choice.parse` from `start`: the branch it leaves by
      and where, or `Exhausted` when it runs to the end. */
  method FindStop(text: string, start: nat) returns (st: Stop)
    ensures st == EarlyStop(text, start)
  {
    var i := start;
    var isRef := IsVarRef(text);
    while i < |text|
      invariant EarlyStop(text, i) == EarlyStop(text, start)
      decreases |text| - i
    {
      if text[i] == '!' {
        StopHere(text, start, i);
        return Negate(i, 1);
      } else if At(text, "not", i) {
        StopHere(text, start, i);
        return Negate(i, 3);
      } else if i + 1 < |text| && EarlyTwo(text[i], text[i + 1]).Some? {
        StopHere(text, start, i);
        return Operator(EarlyTwo(text[i], text[i + 1]).value, i, 2);
      } else if EarlyOne(text[i]).Some? {
        StopHere(text, start, i);
        return Operator(EarlyOne(text[i]).value, i, 1);
      } else if isRef {
        StopHere(text, start, i);
        return Reference(i);
      }
      StopOn(text, start, i);
      i := i + 1;
    }
    return Exhausted;
  }

  /** The scan loop with the recursive calls it makes where it stops: the
      rest after a negation, the left operand (the text before the operator
      unless a leading group was found) and the rest after a binary
      operator, the digits of a variable reference, or, when no operator
      is met, the leading group and the empty text. */
  method ScanEarly(text: string, first: string, start: nat) returns (e: Expr)
    requires |first| < |text|
    ensures e == EarlyScan(text, first, start)
    decreases |text|, 0
  {
    var st := FindStop(text, start);
    match st
    case Negate(p, w) =>
      var a := ParseEarly(Trim(text[p + w..]));
      e := Not(a);
      BuiltNegate(text, first, start, p, w);
    case Operator(op, p, w) =>
      var l := ParseEarly(if first == [] then Trim(text[..p]) else first);
      var r := ParseEarly(Trim(text[p + w..]));
      e := Binary(op, l, r);
      BuiltOperator(text, first, start, op, p, w);
    case Reference(q) =>
      var a := ParseEarly(VarDigits(text));
      e := Var(a);
      BuiltReference(text, first, start, q);
    case Exhausted =>
      var l := ParseEarly(first);
      var r := ParseEarly("");
      e := NoOp(l, r);
      BuiltExhausted(text, first, start);
  }

  /** The node the scan builds when it stops at a negation. */
  lemma BuiltNegate(text: string, first: string, start: nat, p: nat, w: nat)
    requires |first| < |text| && EarlyStop(text, start) == Negate(p, w)
    ensures EarlyScan(text, first, start) == Not(EarlyParse(Trim(text[p + w..])))
  {
  }

  /** ... at a binary operator. */
  lemma BuiltOperator(text: string, first: string, start: nat, op: BinOp, p: nat, w: nat)
    requires |first| < |text| && EarlyStop(text, start) == Operator(op, p, w)
    ensures EarlyScan(text, first, start)
      == Binary(op, EarlyParse(if first == [] then Trim(text[..p]) else first), EarlyParse(Trim(text[p + w..])))
  {
  }

  /** ... at a variable reference. */
  lemma BuiltReference(text: string, first: string, start: nat, q: nat)
    requires |first| < |text| && EarlyStop(text, start) == Reference(q)
    ensures EarlyScan(text, first, start) == Var(EarlyParse(VarDigits(text)))
  {
  }

  /** ... and at the end of the text. */
  lemma BuiltExhausted(text: string, first: string, start: nat)
    requires |first| < |text| && EarlyStop(text, start) == Exhausted
    ensures EarlyScan(text, first, start) == NoOp(EarlyParse(first), EarlyParse(""))
  {
  }

  /** The scan that has reached `i` stops there when the loop body leaves the loop at `i`. */
  lemma StopHere(text: string, start: nat, i: nat)
    requires i < |text| && EarlyStop(text, i) == EarlyStop(text, start) && StopAt(text, i).Some?
    ensures EarlyStop(text, start) == StopAt(text, i).value
  {
  }

  /** ... and goes on to `i + 1` when it does not. */
  lemma StopOn(text: string, start: nat, i: nat)
    requires i < |text| && EarlyStop(text, i) == EarlyStop(text, start) && StopAt(text, i).None?
    ensures EarlyStop(text, i + 1) == EarlyStop(text, start)
  {
  }

  /** First operator wins: for text without a leading group, the first index
      at which the scan meets an operator (two characters tried before one)
      splits the text, and everything after the operator is the right
      operand, so a chain of operators nests to the right. */
  lemma EarlyFirstOperatorWins(raw: string, op: BinOp, p: nat, w: nat)
    requires var text := Trim(raw);
      text != "true" && text != "false" && !IsNumeric(text) && text[0] != '('
      && p < |text| && StopAt(text, p) == Some(Operator(op, p, w))
      && forall j :: 0 <= j < p ==> StopAt(text, j).None?
    ensures var text := Trim(raw);
      EarlyParse(raw) == Binary(op, EarlyParse(Trim(text[..p])), EarlyParse(Trim(text[p + w..])))
  {
    var text := Trim(raw);
    EarlyStopAtFirst(text, 0, p);
    assert EarlyStop(text, 0) == Operator(op, p, w);
    ScanOperatorAlone(text, 0, op, p, w);
    assert EarlyParse(raw) == EarlyScan(text, "", 0);
  }

  /** A negation met first gives a one-child node on the trimmed rest. */
  lemma EarlyNegationFirst(raw: string, p: nat, w: nat)
    requires var text := Trim(raw);
      text != "true" && text != "false" && !IsNumeric(text) && text[0] != '('
      && p < |text| && StopAt(text, p) == Some(Negate(p, w))
      && forall j :: 0 <= j < p ==> StopAt(text, j).None?
    ensures var text := Trim(raw);
      EarlyParse(raw) == Not(EarlyParse(Trim(text[p + w..])))
  {
    var text := Trim(raw);
    EarlyStopAtFirst(text, 0, p);
    EarlyPlainUnfold(raw);
    BuiltNegate(text, "", 0, p, w);
  }

  /** Text that is not a literal, a number or a group is scanned from 0. */
  lemma EarlyPlainUnfold(raw: string)
    requires var text := Trim(raw);
      text != "true" && text != "false" && !IsNumeric(text) && |text| > 0 && text[0] != '('
    ensures EarlyParse(raw) == EarlyScan(Trim(raw), "", 0)
  {
  }

  /** Text the earlier parser reads as a leading group followed by a binary
      operator: not a literal or a number, a `(` whose match `m` lies
      inside the text and encloses something, and `op` at `p` as the
      first place after the group where the scan stops. */
  predicate GroupThenOperator(text: string, op: BinOp, p: nat, w: nat) {
    text != "true" && text != "false" && !IsNumeric(text) && |text| > 0 && text[0] == '('
    && var m := EarlyMatchParen(text, 0);
    1 < m < |text| - 1
    && m < p < |text| && StopAt(text, p) == Some(Operator(op, p, w))
    && forall j :: m + 1 <= j < p ==> StopAt(text, j).None?
  }

  /** A leading group that is not the whole text starts the scan after it. */
  lemma EarlyGroupUnfold(raw: string)
    requires var text := Trim(raw);
      text != "true" && text != "false" && !IsNumeric(text) && |text| > 0 && text[0] == '('
      && EarlyMatchParen(text, 0) < |text| - 1
    ensures var text := Trim(raw);
      var m := EarlyMatchParen(text, 0);
      EarlyParse(raw) == EarlyScan(text, Slice(text, 1, m), m + 1)
  {
  }

  /** A leading non-empty group that is not the whole text is the left
      operand, and the scan for the operator starts after it. */
  lemma EarlyLeadingGroup(raw: string, op: BinOp, p: nat, w: nat)
    requires GroupThenOperator(Trim(raw), op, p, w)
    ensures var text := Trim(raw);
      var m := EarlyMatchParen(text, 0);
      EarlyParse(raw) == Binary(op, EarlyParse(text[1..m]), EarlyParse(Trim(text[p + w..])))
  {
    var text := Trim(raw);
    var m := EarlyMatchParen(text, 0);
    EarlyStopAtFirst(text, m + 1, p);
    assert Slice(text, 1, m) == text[1..m];
    var first := text[1..m];
    assert first != [];
    assert EarlyStop(text, m + 1) == Operator(op, p, w);
    ScanOperator(text, first, m + 1, op, p, w);
    EarlyGroupUnfold(raw);
  }

  /** The node built where the scan stops at a binary operator. */
  lemma ScanOperator(text: string, first: string, start: nat, op: BinOp, p: nat, w: nat)
    requires 0 < |first| < |text|
    requires EarlyStop(text, start) == Operator(op, p, w)
    ensures EarlyScan(text, first, start) == Binary(op, EarlyParse(first), EarlyParse(Trim(text[p + w..])))
  {
  }

  /** The same without a left operand so far: the text before the operator is one. */
  lemma ScanOperatorAlone(text: string, start: nat, op: BinOp, p: nat, w: nat)
    requires 0 < |text|
    requires EarlyStop(text, start) == Operator(op, p, w)
    ensures EarlyScan(text, "", start) == Binary(op, EarlyParse(Trim(text[..p])), EarlyParse(Trim(text[p + w..])))
  {
  }

  /** Empty or blank text is the number 0, as in the later version. */
  lemma EarlyEmptyIsZero(raw: string)
    requires forall i :: 0 <= i < |raw| ==> IsSpace(raw[i])
    ensures EarlyParse(raw) == NumLit(0.0)
  {
    TrimBlank(raw);
  }

  /** A string of digits becomes the number it spells, as in the later version. */
  lemma EarlyDigits(d: string)
    requires d != [] && AllDigits(d)
    ensures EarlyParse(d) == NumLit(DigitsValue(d) as real)
  {
    assert IsDigit(d[0]) && IsDigit(d[|d| - 1]);
    DigitUnpadded(d);
    DigitText(d);
    assert d != "true" && d != "false" by {
      assert d[0] != 't' && d[0] != 'f';
    }
    assert EarlyParse(d) == NumLit(NumberValue(d));
  }

  /** A variable reference `\v[d]` or `\V[d]` becomes a variable node whose
      index is the number the digits spell, as in the later version. */
  lemma EarlyVarReference(c: char, d: string)
    requires c == 'v' || c == 'V'
    requires d != [] && AllDigits(d)
    ensures EarlyParse(['\\', c, '['] + d + [']']) == Var(NumLit(DigitsValue(d) as real))
  {
    var t := ['\\', c, '['] + d + [']'];
    EarlyRefText(c, d, t);
    EarlyStopAtFirst(t, 0, 0);
    EarlyPlainUnfold(t);
    BuiltReference(t, "", 0, 0);
    EarlyDigits(d);
  }

  /** What the earlier parser sees in `\v[d]`: nothing to trim, no
      literal, number or group, and a reference at the very first index. */
  lemma EarlyRefText(c: char, d: string, t: string)
    requires c == 'v' || c == 'V'
    requires d != [] && AllDigits(d) && t == ['\\', c, '['] + d + [']']
    ensures Trim(t) == t && t != "true" && t != "false" && !IsNumeric(t) && t[0] != '('
    ensures StopAt(t, 0) == Some(Reference(0)) && VarDigits(t) == d
  {
    VarText(c, d, t);
    TrimUnpadded(t);
    assert !At(t, "not", 0) by {
      AtIsSlice(t, "not", 0);
    }
  }

  lemma DigitUnpadded(d: string)
    requires d != [] && IsDigit(d[0]) && IsDigit(d[|d| - 1])
    ensures Trim(d) == d
  {
    TrimUnpadded(d);
  }

  /** A group covering the whole text is elided: `(t)` parses as `t` does. */
  lemma EarlyParenElision(t: string)
    requires Balanced(t)
    ensures EarlyParse("(" + t + ")") == EarlyParse(t)
  {
    var s := "(" + t + ")";
    assert s[0] == '(' && s[|s| - 1] == ')';
    TrimUnpadded(s);
    NotNumeric(s, 0);
    GroupMatch(t);
    assert Slice(s, 1, |s| - 1) == t;
  }
}
