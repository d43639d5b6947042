/** `Choice.parse`: the recursive compiler from condition text to an
    expression tree. Each level rewrites the first `not` to `!`, trims, reads
    literals, elides a parenthesised group that covers the whole text, and
    otherwise splits at the operator `lowestPrecedence` reports. */
module Parser {
  import opened JsString
  import opened Syntax
  import opened Parens
  import opened Scanner

  predicate IsDigit(c: char) {
    '0' <= c <= '9'
  }

  predicate AllDigits(s: string) {
    forall i :: 0 <= i < |s| ==> IsDigit(s[i])
  }

  /** The value of a string of decimal digits. */
  function DigitsValue(d: string): nat
    requires AllDigits(d)
  {
    if d == [] then 0 else 10 * DigitsValue(d[..|d| - 1]) + (d[|d| - 1] as int - '0' as int)
  }

  function Pow10(n: nat): (r: nat)
    ensures r >= 1
  {
    if n == 0 then 1 else 10 * Pow10(n - 1)
  }

  /** Digits with an optional `.` and fraction digits, with at least one digit. */
  predicate IsUnsignedDecimal(b: string) {
    var k := IndexOf(b, ".", 0);
    if k < 0 then b != [] && AllDigits(b)
    else AllDigits(b[..k]) && AllDigits(b[k + 1..]) && |b| > 1
  }

  function DecimalValue(b: string): real
    requires IsUnsignedDecimal(b)
  {
    var k := IndexOf(b, ".", 0);
    if k < 0 then DigitsValue(b) as real
    else DigitsValue(b[..k]) as real + DigitsValue(b[k + 1..]) as real / Pow10(|b| - k - 1) as real
  }

  /** The text without a leading `+` or `-`. */
  function Unsigned(s: string): string {
    if s != [] && (s[0] == '+' || s[0] == '-') then s[1..] else s
  }

  /** `!isNaN(text)` for trimmed text, restricted to decimal literals: the
      empty text, or an optional sign followed by an unsigned decimal. */
  predicate IsNumeric(s: string) {
    s == [] || IsUnsignedDecimal(Unsigned(s))
  }

  /** `Number(text)` for the texts `IsNumeric` accepts; the empty text is 0. */
  function NumberValue(s: string): real
    requires IsNumeric(s)
  {
    if s == [] then 0.0
    else if s[0] == '-' then -DecimalValue(s[1..])
    else DecimalValue(Unsigned(s))
  }

  /** The first step of every `parse` level: the first `not` becomes `!`, then the text is trimmed. */
  function Normalize(raw: string): (r: string)
    ensures |r| <= |raw|
  {
    ReplaceFirstShrinks(raw, "not", "!");
    Trim(ReplaceFirst(raw, "not", "!"))
  }

  /** Text matching `^\\[vV]\[(\d+)\]$`. */
  predicate IsVarRef(t: string) {
    |t| >= 5 && t[0] == '\\' && (t[1] == 'v' || t[1] == 'V') && t[2] == '['
    && t[|t| - 1] == ']' && AllDigits(t[3..|t| - 1])
  }

  /** The regular expression's capture group: the digits of a variable reference. */
  function VarDigits(t: string): (d: string)
    requires IsVarRef(t)
    ensures d != [] && AllDigits(d) && |d| < |t|
  {
    t[3..|t| - 1]
  }

  /** The text starts with `(` and its match is the last character. */
  predicate IsGroup(text: string) {
    |text| > 0 && text[0] == '(' && MatchParen(text, 0) == |text| - 1
  }

  predicate IsNatural(n: real) {
    n >= 0.0 && n == n.Floor as real
  }

  lemma DigitText(d: string)
    ensures d != [] && AllDigits(d) ==>
      Normalize(d) == d && IsNumeric(d) && NumberValue(d) == DigitsValue(d) as real
  {
    if d != [] && AllDigits(d) {
      AbsentFirstChar(d, "not");
      ReplaceFirstShrinks(d, "not", "!");
      TrimUnpadded(d);
      AbsentFirstChar(d, ".");
    }
  }

  /** `Choice.parse(raw)`. Where the source tests `if (nextOpId)` the model
      tests whether `lowestPrecedence` found an operator; see the findings of
      the README for the source's own test. The source's `return;` for text it
      cannot read is the `Undefined` node. */
  function Parse(raw: string): (e: Expr)
    decreases |raw|, 2
  {
    ParseNormal(Normalize(raw))
  }

  /** Digits parse to the number they spell. */
  lemma ParseDigits(raw: string)
    requires raw != [] && AllDigits(raw)
    ensures Parse(raw) == NumLit(DigitsValue(raw) as real)
  {
    DigitText(raw);
    assert IsDigit(raw[0]);
    assert raw != "true" && raw != "false";
  }

  /** The tree of text that `Parse` has already normalized. */
  function ParseNormal(text: string): (e: Expr)
    decreases |text|, 1
  {
    if text == "true" then BoolLit(true)
    else if text == "false" then BoolLit(false)
    else if IsNumeric(text) then NumLit(NumberValue(text))
    else if IsGroup(text) then Parse(text[1..|text| - 1])
    else match LowestSplit(text) {
      case Some(sp) => ParseSplit(text, sp)
      case None =>
        if IsVarRef(text) then Var(Parse(VarDigits(text))) else Undefined
    }
  }

  /** The node for text the scan splits at `sp`: `!` takes the trimmed text
      after it, a binary operator the trimmed texts before and after it. */
  function ParseSplit(text: string, sp: Split): (e: Expr)
    requires FitsIn(text, Some(sp))
    decreases |text|, 0
  {
    if sp.tok == Bang then Not(Parse(Trim(text[sp.pos + 1..])))
    else Binary(sp.tok.op, Parse(Trim(text[..sp.pos])), Parse(Trim(text[sp.pos + Width(sp.tok)..])))
  }

  /** Empty or blank text is the number 0, because `isNaN("")` is false. */
  lemma EmptyIsZero(raw: string)
    requires forall i :: 0 <= i < |raw| ==> IsSpace(raw[i])
    ensures Parse(raw) == NumLit(0.0)
  {
    if raw != [] {
      AbsentFirstChar(raw, "not");
    }
    ReplaceFirstShrinks(raw, "not", "!");
    TrimBlank(raw);
  }

  /** Text nested correctly: no prefix closes more groups than it opens, and
      the whole text closes all it opens. */
  predicate Balanced(t: string) {
    Balance(t) == 0 && forall k :: 0 <= k <= |t| ==> Balance(t[..k]) >= 0
  }

  /** Text without parentheses is balanced. */
  lemma ParenFreeBalanced(t: string)
    requires forall k :: 0 <= k < |t| ==> t[k] != '(' && t[k] != ')'
    ensures Balanced(t)
  {
    forall k | 0 <= k <= |t|
      ensures Balance(t[..k]) == 0
    {
      ParenFreeBalance(t[..k]);
    }
    ParenFreeBalance(t);
  }

  lemma {:induction false} ParenFreeBalance(t: string)
    requires forall k :: 0 <= k < |t| ==> t[k] != '(' && t[k] != ')'
    ensures Balance(t) == 0
  {
    if t != [] {
      ParenFreeBalance(t[..|t| - 1]);
    }
  }

  lemma GroupMatch(t: string)
    requires Balanced(t)
    ensures MatchParen("(" + t + ")", 0) == |t| + 1
  {
    var s := "(" + t + ")";
    assert s[0..|t| + 2] == s;
    GroupAt(s, 0, t);
  }

  /** A group anywhere in the text: the `(` of `(t)` with `t` balanced is
      matched by the `)` after `t`. */
  lemma GroupAt(s: string, k: nat, t: string)
    requires k + |t| + 2 <= |s| && s[k..k + |t| + 2] == "(" + t + ")"
    requires Balanced(t)
    ensures MatchParen(s, k) == k + |t| + 1
  {
    var r := k + |t| + 1;
    var u := s[k..k + |t| + 2];
    assert u[1..] == t + ")";
    forall j | k < j < r
      ensures Depth(s, k, j) > 0
    {
      assert s[k + 1..j + 1] == u[1..][..j - k];
      assert u[1..][..j - k] == t[..j - k];
    }
    assert s[k + 1..r + 1] == u[1..];
    assert (t + ")")[..|t|] == t;
    MatchParenIsFirstZero(s, k, r);
  }

  /** Two balanced texts in a row are balanced. */
  lemma BalancedConcat(a: string, b: string)
    requires Balanced(a) && Balanced(b)
    ensures Balanced(a + b)
  {
    BalanceConcat(a, b);
    forall k | 0 <= k <= |a + b|
      ensures Balance((a + b)[..k]) >= 0
    {
      if k <= |a| {
        assert (a + b)[..k] == a[..k];
      } else {
        assert (a + b)[..k] == a + b[..k - |a|];
        BalanceConcat(a, b[..k - |a|]);
      }
    }
  }

  /** A balanced text in parentheses is balanced. */
  lemma BalancedGroup(t: string)
    requires Balanced(t)
    ensures Balanced("(" + t + ")")
  {
    var s := "(" + t + ")";
    assert Balance("(") == 1 by {
      assert "("[..0] == [];
    }
    forall k | 0 <= k <= |s|
      ensures Balance(s[..k]) >= 0
    {
      if 0 < k <= |t| + 1 {
        assert s[..k] == "(" + t[..k - 1];
        BalanceConcat("(", t[..k - 1]);
      } else if k == |s| {
        assert s[..k] == ("(" + t) + ")";
        assert (("(" + t) + ")")[..|t| + 1] == "(" + t;
        BalanceConcat("(", t);
      }
    }
    assert s == ("(" + t) + ")";
    assert s[..|s| - 1] == "(" + t;
    BalanceConcat("(", t);
  }

  /** Putting parenthesis-free text in the place of parenthesis-free text
      keeps the nesting. */
  lemma SwapBalanced(x: string, w: string, y: string, z: string)
    requires Balanced(x + w + z)
    requires forall k :: 0 <= k < |w| ==> w[k] != '(' && w[k] != ')'
    requires forall k :: 0 <= k < |y| ==> y[k] != '(' && y[k] != ')'
    ensures Balanced(x + y + z)
  {
    var a := x + w + z;
    var b := x + y + z;
    ParenFreeBalance(w);
    ParenFreeBalance(y);
    BalanceConcat(x, w);
    BalanceConcat(x + w, z);
    BalanceConcat(x, y);
    BalanceConcat(x + y, z);
    forall k | 0 <= k <= |b|
      ensures Balance(b[..k]) >= 0
    {
      if k <= |x| {
        assert b[..k] == a[..k];
      } else if k <= |x| + |y| {
        var y' := y[..k - |x|];
        assert b[..k] == x + y';
        ParenFreeBalance(y');
        BalanceConcat(x, y');
        assert a[..|x|] == x;
      } else {
        var z' := z[..k - |x| - |y|];
        assert b[..k] == (x + y) + z';
        assert a[..|x| + |w| + |z'|] == (x + w) + z';
        BalanceConcat(x + y, z');
        BalanceConcat(x + w, z');
      }
    }
  }

  /** The `not` rewrite touches no parenthesis, so it keeps text balanced. */
  lemma ReplaceNotBalanced(t: string)
    requires Balanced(t)
    ensures Balanced(ReplaceFirst(t, "not", "!"))
  {
    IndexOfSpec(t, "not", 0);
    var i := IndexOf(t, "not", 0);
    if i >= 0 {
      AtIsSlice(t, "not", i);
      var x := t[..i];
      var z := t[i + 3..];
      assert t == x + "not" + z;
      SwapBalanced(x, "not", "!", z);
    }
  }

  /** A group covering the whole text is elided. The inside is normalized
      twice, once with the group and once on its own, so `(t)` parses as `t`
      with its first `not` already turned into `!`. */
  lemma ParenElision(t: string)
    requires Balanced(t)
    ensures Parse("(" + t + ")") == Parse(ReplaceFirst(t, "not", "!"))
  {
    var u := ReplaceFirst(t, "not", "!");
    NormalizeGroup(t);
    ReplaceNotBalanced(t);
    GroupNormal(u);
  }

  /** The rewrite of `(t)` is the rewrite of `t`, in its parentheses. */
  lemma NormalizeGroup(t: string)
    ensures Normalize("(" + t + ")") == "(" + ReplaceFirst(t, "not", "!") + ")"
  {
    var u := ReplaceFirst(t, "not", "!");
    assert "(" + t + ")" == ['('] + t + [')'];
    ReplaceWrapped(t, "not", "!", '(', ')');
    var s := "(" + u + ")";
    assert s == ['('] + u + [')'];
    TrimUnpadded(s);
  }

  /** Normalized text that is one balanced group is its inside. */
  lemma GroupNormal(u: string)
    requires Balanced(u)
    ensures ParseNormal("(" + u + ")") == Parse(u)
  {
    var s := "(" + u + ")";
    IndexOfSpec(s, ".", 0);
    var k := IndexOf(s, ".", 0);
    if k > 0 {
      assert s[..k][0] == '(';
    }
    assert !IsNumeric(s);
    GroupMatch(u);
    assert s[1..|s| - 1] == u;
  }

  /** Without `not` inside, `(t)` parses exactly as `t` does. */
  lemma PlainParenElision(t: string)
    requires Balanced(t)
    requires !Contains(t, "not")
    ensures Parse("(" + t + ")") == Parse(t)
  {
    ParenElision(t);
    ReplaceFirstShrinks(t, "not", "!");
  }

  /** A character that is neither `(` nor part of any table key. */
  predicate Plain(c: char) {
    c != '(' && OneCharToken(c).None? && c != '=' && c != '&' && c != '|'
  }

  lemma {:induction false} PlainScan(s: string, i: nat)
    requires forall k :: 0 <= k < |s| ==> Plain(s[k])
    ensures ScanFrom(s, i, None) == None
    decreases |s| - i
  {
    if i < |s| {
      PlainScan(s, i + 1);
    }
  }

  /** The scan passes over plain characters without changing its best split. */
  lemma {:induction false} PlainStretch(s: string, i: nat, j: nat, best: Option<Split>)
    requires i <= j <= |s| && FitsIn(s, best)
    requires forall k :: i <= k < j ==> Plain(s[k])
    ensures ScanFrom(s, i, best) == ScanFrom(s, j, best)
    decreases j - i
  {
    if i < j {
      assert TwoAt(s, i).None?;
      PlainStretch(s, i + 1, j, best);
    }
  }

  /** `!` followed by plain characters: the scan splits at the `!`. */
  lemma BangFirst(s: string)
    requires forall k :: 0 <= k < |s| ==> Plain(s[k])
    ensures LowestSplit("!" + s) == Some(Split(0, Bang))
  {
    var t := "!" + s;
    var sp := Some(Split(0, Bang));
    forall k | 1 <= k < |t|
      ensures Plain(t[k])
    {
      assert t[k] == s[k - 1];
    }
    assert TwoAt(t, 0).None? by {
      if |t| > 1 {
        assert Plain(t[1]);
      }
    }
    assert ScanFrom(t, 0, None) == ScanFrom(t, 1, sp);
    PlainStretch(t, 1, |t|, sp);
  }

  /** Text that normalizes to `!` and plain characters is the negation of
      the trimmed rest. */
  lemma BangNegation(raw: string, s: string)
    requires Normalize(raw) == "!" + s
    requires forall k :: 0 <= k < |s| ==> Plain(s[k])
    ensures Parse(raw) == Not(Parse(Trim(s)))
  {
    var t := "!" + s;
    BangFirst(s);
    NotNumeric(t, 0);
    BangUnfold(raw, t, 0);
    assert t[0 + Width(Bang)..] == s;
  }

  /** Two `!` with plain text between and after them: the scan keeps the
      later of two operators of equal precedence, and the `!` node takes only
      the text after its operator, so the first `!` is dropped and `!!a`
      parses as `!a`. */
  lemma DoubleBang(raw: string, g: string, s: string)
    requires Normalize(raw) == "!" + g + "!" + s
    requires forall k :: 0 <= k < |g| ==> Plain(g[k])
    requires forall k :: 0 <= k < |s| ==> Plain(s[k])
    ensures Parse(raw) == Not(Parse(Trim(s)))
  {
    var t := "!" + g + "!" + s;
    var p := |g| + 1;
    DoubleBangScan(g, s);
    NotNumeric(t, 0);
    BangUnfold(raw, t, p);
    assert t[p + Width(Bang)..] == s;
  }

  /** The scan over `!g!s` ends at the second `!`. */
  lemma DoubleBangScan(g: string, s: string)
    requires forall k :: 0 <= k < |g| ==> Plain(g[k])
    requires forall k :: 0 <= k < |s| ==> Plain(s[k])
    ensures LowestSplit("!" + g + "!" + s) == Some(Split(|g| + 1, Bang))
  {
    var t := "!" + g + "!" + s;
    var p := |g| + 1;
    var first := Some(Split(0, Bang));
    var second := Some(Split(p, Bang));
    forall k | 1 <= k < p
      ensures Plain(t[k])
    {
      assert t[k] == g[k - 1];
    }
    forall k | p < k < |t|
      ensures Plain(t[k])
    {
      assert t[k] == s[k - p - 1];
    }
    assert t[p] == '!';
    assert TwoAt(t, 0).None? by {
      if p > 1 {
        assert Plain(t[1]);
      }
    }
    assert TwoAt(t, p).None? by {
      if p + 1 < |t| {
        assert Plain(t[p + 1]);
      }
    }
    assert ScanFrom(t, 0, None) == ScanFrom(t, 1, first);
    PlainStretch(t, 1, p, first);
    assert ScanFrom(t, p, first) == ScanFrom(t, p + 1, second);
    PlainStretch(t, p + 1, |t|, second);
  }

  /** A variable reference `\v[d]` or `\V[d]` parses to a variable node whose
      index is the number the digits spell. */
  lemma VarReference(c: char, d: string)
    requires c == 'v' || c == 'V'
    requires d != [] && AllDigits(d)
    ensures Parse(['\\', c, '['] + d + [']']) == Var(NumLit(DigitsValue(d) as real))
  {
    var t := ['\\', c, '['] + d + [']'];
    VarText(c, d, t);
    PlainScan(t, 0);
    ParseDigits(d);
    assert Parse(t) == Var(Parse(d));
  }

  /** What `parse` looks at in `\\v[d]`: nothing to rewrite or trim, no
      literal, number or group, a reference to `d`, and no operator. */
  lemma VarText(c: char, d: string, t: string)
    requires c == 'v' || c == 'V'
    requires d != [] && AllDigits(d) && t == ['\\', c, '['] + d + [']']
    ensures Normalize(t) == t && t != "true" && t != "false" && !IsNumeric(t) && !IsGroup(t)
    ensures IsVarRef(t) && VarDigits(t) == d
    ensures forall k :: 0 <= k < |t| ==> Plain(t[k])
  {
    forall k | 0 <= k < |t|
      ensures Plain(t[k]) && t[k] != 'n' && t[k] != '.'
    {
      if 3 <= k < |t| - 1 {
        assert t[k] == d[k - 3];
      }
    }
    AbsentFirstChar(t, "not");
    ReplaceFirstShrinks(t, "not", "!");
    TrimUnpadded(t);
    AbsentFirstChar(t, ".");
    assert t[0] == '\\';
  }

  /** Text with no operator that is not a literal, a number or a group is a
      variable node exactly when it is a variable reference, and the
      `undefined` of a failed parse otherwise. */
  lemma OperatorFreeLeaf(raw: string)
    requires var text := Normalize(raw);
      text != "true" && text != "false" && !IsNumeric(text) && !IsGroup(text)
      && LowestSplit(text).None?
    ensures Parse(raw).Var? <==> IsVarRef(Normalize(raw))
    ensures !IsVarRef(Normalize(raw)) ==> Parse(raw) == Undefined
  {
  }

  /** Text that `Parse` splits at an operator: not a literal, a number or a
      group, and the scan finds an operator in it. */
  predicate Compound(text: string) {
    text != "true" && text != "false" && !IsNumeric(text) && !IsGroup(text)
    && LowestSplit(text).Some?
  }

  /** An operator split: `!` gives a one-child node on the trimmed text after
      it; a binary operator gives a node on the trimmed text before and after
      it. Both operand texts are strictly shorter than the text. */
  lemma OperatorSplit(raw: string)
    requires Compound(Normalize(raw))
    ensures var text := Normalize(raw);
      var sp := LowestSplit(text).value;
      var before := Trim(text[..sp.pos]);
      var after := Trim(text[sp.pos + Width(sp.tok)..]);
      |before| < |text| && |after| < |text|
      && (sp.tok == Bang ==> Parse(raw) == Not(Parse(after)))
      && (sp.tok.Bin? ==> Parse(raw) == Binary(sp.tok.op, Parse(before), Parse(after)))
  {
    var text := Normalize(raw);
    var sp := LowestSplit(text).value;
    SplitShorter(text, sp);
    if sp.tok == Bang {
      BangUnfold(raw, text, sp.pos);
    } else {
      BinUnfold(raw, text, sp.pos, sp.tok.op);
    }
  }

  /** Both operand texts of a split are strictly shorter than the text. */
  lemma SplitShorter(text: string, sp: Split)
    requires LowestSplit(text) == Some(sp)
    ensures |Trim(text[..sp.pos])| < |text| && |Trim(text[sp.pos + Width(sp.tok)..])| < |text|
  {
  }

  /** Text that `Parse` splits is parsed by `ParseSplit`. */
  lemma SplitNormal(text: string, sp: Split)
    requires Compound(text) && LowestSplit(text) == Some(sp)
    ensures ParseNormal(text) == ParseSplit(text, sp)
  {
  }

  /** `ParseSplit` at a `!`. */
  lemma BangSplit(text: string, pos: nat)
    requires FitsIn(text, Some(Split(pos, Bang)))
    ensures ParseSplit(text, Split(pos, Bang)) == Not(Parse(Trim(text[pos + Width(Bang)..])))
  {
  }

  /** `ParseSplit` at a binary operator. */
  lemma BinSplit(text: string, pos: nat, op: BinOp)
    requires FitsIn(text, Some(Split(pos, Bin(op))))
    ensures ParseSplit(text, Split(pos, Bin(op)))
      == Binary(op, Parse(Trim(text[..pos])), Parse(Trim(text[pos + Width(Bin(op))..])))
  {
  }

  /** One step of `Parse` when the split is at a `!`. */
  lemma BangUnfold(raw: string, text: string, pos: nat)
    requires text == Normalize(raw) && Compound(text) && LowestSplit(text) == Some(Split(pos, Bang))
    ensures Parse(raw) == Not(Parse(Trim(text[pos + Width(Bang)..])))
  {
    SplitNormal(text, Split(pos, Bang));
    BangSplit(text, pos);
  }

  /** One step of `Parse` when the split is at a binary operator. */
  lemma BinUnfold(raw: string, text: string, pos: nat, op: BinOp)
    requires text == Normalize(raw) && Compound(text) && LowestSplit(text) == Some(Split(pos, Bin(op)))
    ensures Parse(raw) == Binary(op, Parse(Trim(text[..pos])), Parse(Trim(text[pos + Width(Bin(op))..])))
  {
    SplitNormal(text, Split(pos, Bin(op)));
    BinSplit(text, pos, op);
  }

  /** The binary case of `OperatorSplit` for text that normalizes to itself. */
  lemma BinarySplit(t: string, p: nat, op: BinOp)
    requires Normalize(t) == t
    requires t != "true" && t != "false" && !IsNumeric(t) && !IsGroup(t)
    requires LowestSplit(t) == Some(Split(p, Bin(op)))
    ensures Parse(t) == Binary(op, Parse(Trim(t[..p])), Parse(Trim(t[p + |BinSymbol(op)|..])))
  {
    BinUnfold(t, t, p, op);
    assert Width(Bin(op)) == |BinSymbol(op)|;
  }

  /** Text without `not` and without surrounding white space is left as it is. */
  lemma NormalizeFixed(t: string)
    requires !Contains(t, "not")
    requires t == [] || (!IsSpace(t[0]) && !IsSpace(t[|t| - 1]))
    ensures Normalize(t) == t
  {
    ReplaceFirstShrinks(t, "not", "!");
    TrimUnpadded(t);
  }

  /** A character that is no digit, no `.` and, at the front, no sign makes text non-numeric. */
  lemma NotNumeric(t: string, k: nat)
    requires k < |t| && !IsDigit(t[k]) && t[k] != '.'
    requires k == 0 ==> t[k] != '+' && t[k] != '-'
    ensures !IsNumeric(t)
  {
    var u := Unsigned(t);
    var k' := if u == t then k else k - 1;
    assert u[k'] == t[k];
    var d := IndexOf(u, ".", 0);
    IndexOfSpec(u, ".", 0);
    if d >= 0 {
      assert u[d] == '.';
      if k' < d {
        assert u[..d][k'] == t[k];
      } else {
        assert u[d + 1..][k' - d - 1] == t[k];
      }
    }
  }

  // The `[op, e1, e2]` branch of the source as written.

  /** A JavaScript number as lines 291-298 of the source see it: an entry of
      the array `lowestPrecedence` returned, which is `undefined` past the
      end, or a sum involving `undefined`, which is `NaN`. */
  datatype JsNumber = Int(i: int) | Undef | NaN

  function Entry(a: seq<nat>, k: nat): JsNumber {
    if k < |a| then Int(a[k]) else Undef
  }

  function Plus(x: JsNumber, y: JsNumber): JsNumber {
    if x.Int? && y.Int? then Int(x.i + y.i) else NaN
  }

  /** `s.slice(start, end)` for arguments that may be `undefined` or `NaN`:
      either reads as 0 for a start; an `undefined` end is the length and a `NaN` end is 0. */
  function JsSlice(s: string, start: JsNumber, end: JsNumber): string {
    Slice(s, if start.Int? then start.i else 0, if end.Int? then end.i else if end.Undef? then |s| else 0)
  }

  /** The operator text and the two operand texts the source computes once
      `if (nextOpId)` has let the array `found` through. */
  function AsWrittenOperands(text: string, found: seq<nat>): (string, string, string) {
    var start := Entry(found, 0);
    var stop := Plus(Entry(found, 0), Entry(found, 1));
    (JsSlice(text, start, stop), Trim(JsSlice(text, Int(0), start)), Trim(JsSlice(text, stop, Undef)))
  }

  /** As written, `if (nextOpId)` tests an array, and every array is truthy, so
      the empty array of "no operator" also takes the `[op, e1, e2]` branch: its
      operator is the empty text and both operands are the whole text again.
      For trimmed text without `not` the recursive `parse` calls therefore
      start from the same text, and the variable branch is never reached. */
  lemma AsWrittenNoOperatorRecursesOnItself(text: string)
    requires Trim(text) == text
    requires !Contains(text, "not")
    ensures AsWrittenOperands(text, []) == ("", text, text)
    ensures Normalize(text) == text
  {
    ReplaceFirstShrinks(text, "not", "!");
    assert text[0..|text|] == text;
  }

  /** When an operator was found, the source's slices are the operator's text
      and the trimmed texts before and after it, the operands the model uses. */
  lemma AsWrittenAgreesWhenFound(text: string)
    requires LowestSplit(text).Some?
    ensures var sp := LowestSplit(text).value;
      AsWrittenOperands(text, [sp.pos, Width(sp.tok)])
      == (Symbol(sp.tok), Trim(text[..sp.pos]), Trim(text[sp.pos + Width(sp.tok)..]))
  {
    var sp := LowestSplit(text).value;
    var w := Width(sp.tok);
    LowestSplitSpec(text);
    OccurrencesPlaced(text);
    assert sp in Occurrences(text, 0);
    assert TokenAt(text, sp);
    LookupFindsEveryKey(sp.tok);
    if w == 2 {
      assert text[sp.pos..sp.pos + 2] == [text[sp.pos], text[sp.pos + 1]];
    } else {
      assert text[sp.pos..sp.pos + 1] == [text[sp.pos]];
    }
    assert text[sp.pos..sp.pos + w] == Symbol(sp.tok);
    var found: seq<nat> := [sp.pos, w];
    assert Entry(found, 0) == Int(sp.pos);
    assert Plus(Entry(found, 0), Entry(found, 1)) == Int(sp.pos + w);
    assert JsSlice(text, Int(sp.pos), Int(sp.pos + w)) == Symbol(sp.tok);
    assert JsSlice(text, Int(0), Int(sp.pos)) == text[..sp.pos];
    assert JsSlice(text, Int(sp.pos + w), Undef) == text[sp.pos + w..];
  }

}
