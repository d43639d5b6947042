/** The development tests of the plugin (Tests 0 to 13), stated for both
    versions of `parse` and `interp`. Each test runs a fresh choice on a
    label built from the markers and looks at the label left, the compiled
    tree and the flag; here each is the resolution of that label, derived
    from the shapes of the scenarios, so every test holds under either
    version. */
module DevTests {
  import opened JsString
  import opened Syntax
  import opened Tags
  import opened Parens
  import opened Parser
  import opened Early
  import opened Interp
  import opened Equality
  import opened Choices
  import opened Scenarios

  //------------------------------------------------------------------------
  // The tests' shapes, compiled by either version

  /** `true` and `false` are boolean literals. */
  lemma CompileBool(d: Dialect, b: bool)
    ensures Compile(d, BoolText(b)) == BoolLit(b)
  {
    var t := BoolText(b);
    AbsentFirstChar(t, "not");
    ReplaceFirstShrinks(t, "not", "!");
    TrimUnpadded(t);
    assert Parse(t) == BoolLit(b);
  }

  /** Digits are the number they spell. */
  lemma CompileDigits(d: Dialect, s: string)
    requires s != [] && AllDigits(s)
    ensures Compile(d, s) == NumLit(DigitsValue(s) as real)
  {
    if d == Early {
      EarlyDigits(s);
    } else {
      ParseDigits(s);
    }
  }

  /** Empty text is the number 0. */
  lemma CompileEmpty(d: Dialect)
    ensures Compile(d, "") == NumLit(0.0)
  {
    if d == Main {
      EmptyIsZero("");
    } else {
      EarlyEmptyIsZero("");
    }
  }

  /** `!` before a gap and a word: the word is what follows the `!`. */
  lemma BangText(g: string, a: string, s: string, t: string)
    requires Gap(g) && Word(a) && s == g + a && t == "!" + s
    ensures "!" + g + a == t && t[1..] == s && Trim(s) == a && Trim(t) == t
    ensures forall k :: 0 <= k < |s| ==> Plain(s[k])
    ensures forall k :: 0 <= k < |t| ==> t[k] != 'n'
  {
    GapWord(g, a);
    assert t[|t| - 1] == s[|s| - 1];
    TrimUnpadded(t);
    forall k | 0 <= k < |t|
      ensures t[k] != 'n'
    {
      if k > 0 {
        assert t[k] == s[k - 1];
      }
    }
  }

  /** Text without `n` and without padding is its own normal form. */
  lemma WithoutNNormal(t: string)
    requires Trim(t) == t && forall k :: 0 <= k < |t| ==> t[k] != 'n'
    ensures Normalize(t) == t
  {
    AbsentFirstChar(t, "not");
    ReplaceFirstShrinks(t, "not", "!");
  }

  /** The earlier scan stops at a leading `!`, and such text is no number. */
  lemma BangStop(t: string)
    requires t != [] && t[0] == '!'
    ensures StopAt(t, 0) == Some(Negate(0, 1)) && !IsNumeric(t)
  {
    NotNumeric(t, 0);
  }

  /** `!` before a word, with or without a space: the negation of the word. */
  lemma CompileBang(d: Dialect, g: string, a: string)
    requires Gap(g) && Word(a)
    ensures Compile(d, "!" + g + a) == Not(Compile(d, a))
  {
    var s := g + a;
    var t := "!" + s;
    BangText(g, a, s, t);
    if d == Main {
      WithoutNNormal(t);
      BangNegation(t, s);
    } else {
      BangStop(t);
      EarlyNegationFirst(t, 0, 1);
    }
  }

  /** `not` before a gap and a word, likewise. */
  lemma NotText(g: string, a: string, s: string, t: string)
    requires Gap(g) && Word(a) && s == g + a && t == "not" + s
    ensures "not" + g + a == t && t[3..] == s && Trim(s) == a && Trim(t) == t
    ensures forall k :: 0 <= k < |s| ==> Plain(s[k])
    ensures s != [] && !IsSpace(s[|s| - 1])
  {
    GapWord(g, a);
    assert t[|t| - 1] == s[|s| - 1];
    TrimUnpadded(t);
  }

  /** The later version rewrites a leading `not` to `!`. */
  lemma NotNormal(s: string, t: string)
    requires s != [] && !IsSpace(s[|s| - 1]) && t == "not" + s
    ensures Normalize(t) == "!" + s
  {
    var u := "!" + s;
    ReplaceLeading("not", s, "!");
    assert u[|u| - 1] == s[|s| - 1];
    TrimUnpadded(u);
  }

  /** The earlier scan stops at a leading `not`, and such text is no number. */
  lemma NotStop(t: string)
    requires |t| >= 3 && t[..3] == "not"
    ensures StopAt(t, 0) == Some(Negate(0, 3)) && !IsNumeric(t)
  {
    NotNumeric(t, 0);
    assert At(t, "not", 0) by {
      AtIsSlice(t, "not", 0);
      assert t[0..3] == "not";
    }
  }

  /** `not` before a word, likewise: the later version rewrites it to `!`,
      the earlier one stops its scan at it. */
  lemma CompileNot(d: Dialect, g: string, a: string)
    requires Gap(g) && Word(a)
    ensures Compile(d, "not" + g + a) == Not(Compile(d, a))
  {
    var s := g + a;
    var t := "not" + s;
    NotText(g, a, s, t);
    if d == Main {
      NotNormal(s, t);
      BangNegation(t, s);
    } else {
      assert t[..3] == "not";
      NotStop(t);
      EarlyNegationFirst(t, 0, 3);
    }
  }

  /** `a op b` with two words. The earlier version lists fewer operators. */
  lemma CompileWords(d: Dialect, a: string, g: string, op: BinOp, b: string)
    requires Word(a) && Word(b) && Gap(g) && (d == Early ==> Listed(op))
    ensures Compile(d, Join(a, g, BinSymbol(op), b)) == Binary(op, Compile(d, a), Compile(d, b))
  {
    if d == Main {
      MainWords(a, g, op, b);
    } else {
      WordFacts(b);
      EarlyWordLeft(a, g, op, b);
    }
  }

  /** `a op (i)`: the group is the right operand. */
  lemma CompileRightGroup(d: Dialect, a: string, g: string, op: BinOp, i: string)
    requires Word(a) && Gap(g) && Balanced(i) && WithoutN(i) && (d == Early ==> Listed(op))
    ensures Compile(d, Join(a, g, BinSymbol(op), Group(i))) == Binary(op, Compile(d, a), Compile(d, i))
  {
    if d == Main {
      MainRightGroup(a, g, op, i);
    } else {
      GroupFacts(i);
      EarlyWordLeft(a, g, op, Group(i));
      EarlyParenElision(i);
    }
  }

  /** `(l) op (r)`: both groups are operands. The earlier version needs a
      non-empty first group. */
  lemma CompileGroups(d: Dialect, l: string, g: string, op: BinOp, r: string)
    requires Balanced(l) && WithoutN(l) && Gap(g) && Balanced(r) && WithoutN(r)
    requires d == Early ==> Listed(op) && l != []
    ensures Compile(d, Join(Group(l), g, BinSymbol(op), Group(r))) == Binary(op, Compile(d, l), Compile(d, r))
  {
    if d == Main {
      MainGroups(l, g, op, r);
    } else {
      GroupFacts(r);
      EarlyGroupLeft(l, g, op, Group(r));
      EarlyParenElision(r);
    }
  }

  /** `a op b` with two strings of digits: the operator applied to their numbers. */
  lemma CompileNumbers(d: Dialect, a: string, g: string, op: BinOp, b: string)
    requires a != [] && AllDigits(a) && b != [] && AllDigits(b)
    requires Gap(g) && (d == Early ==> Listed(op))
    ensures Compile(d, Join(a, g, BinSymbol(op), b))
      == Binary(op, NumLit(DigitsValue(a) as real), NumLit(DigitsValue(b) as real))
  {
    DigitsWord(a);
    DigitsWord(b);
    CompileWords(d, a, g, op, b);
    CompileDigits(d, a);
    CompileDigits(d, b);
  }

  lemma DigitsWord(s: string)
    requires s != [] && AllDigits(s)
    ensures Word(s)
  {
    forall i | 0 <= i < |s|
      ensures Inert(s[i])
    {
      assert IsDigit(s[i]);
    }
  }

  //------------------------------------------------------------------------
  // The tests' texts

  /** The literals and the digits of the tests. */
  lemma BoolTexts()
    ensures Word("true") && Word("false") && BoolText(true) == "true" && BoolText(false) == "false"
  {
  }

  lemma DigitTexts()
    ensures AllDigits("1") && AllDigits("2") && AllDigits("3") && AllDigits("5") && AllDigits("6")
    ensures AllDigits("8") && Word("2") && Word("5") && Word("6")
    ensures DigitsValue("1") == 1 && DigitsValue("2") == 2 && DigitsValue("3") == 3
    ensures DigitsValue("5") == 5 && DigitsValue("6") == 6 && DigitsValue("8") == 8
  {
    DigitsWord("2");
    DigitsWord("5");
    DigitsWord("6");
  }

  /** The text around the regions holds no marker. */
  lemma PieceTexts()
    ensures Free("") && Free("true") && Free("choice") && Free(" choice") && Free("test")
  {
    Unmarked("");
    Unmarked("true");
    Unmarked("choice");
    Unmarked(" choice");
    Unmarked("test");
  }

  /** The caption Tests 11 and 12 leave. */
  lemma Glued()
    ensures "test" + "choice" == "testchoice"
  {
  }

  /** The conditions of Tests 2 to 2_4 as the shapes spell them. */
  lemma LogicTexts()
    ensures "!" + "" + "false" == "!false" && "not" + " " + "false" == "not false"
    ensures Join("true", " ", BinSymbol(Or), "false") == "true || false"
    ensures Join("true", " ", BinSymbol(And), "true") == "true && true"
    ensures Join("true", " ", BinSymbol(And), "false") == "true && false"
  {
  }

  /** Their conditions hold no marker. */
  lemma LogicFree()
    ensures Free("!false") && Free("not false") && Free("true || false")
    ensures Free("true && true") && Free("true && false")
  {
    Unmarked("!false");
    Unmarked("not false");
    Unmarked("true || false");
    Unmarked("true && true");
    Unmarked("true && false");
  }

  /** The conditions of Tests 3 to 6 and 13 likewise. */
  lemma ComparisonTexts()
    ensures Join("5", " ", BinSymbol(Gt), "6") == "5 > 6"
    ensures Join("5", " ", BinSymbol(Lt), "6") == "5 < 6"
    ensures Join("5", " ", BinSymbol(Ge), "6") == "5 >= 6"
    ensures Join("5", " ", BinSymbol(Eq), "6") == "5 == 6"
  {
  }

  /** `5 < 6` is shorter than every marker. */
  lemma ComparisonFree()
    ensures Free("5 > 6") && Free("5 < 6") && Free("5 >= 6") && Free("5 == 6")
  {
    Unmarked("5 > 6");
    Unmarked("5 >= 6");
    Unmarked("5 == 6");
  }

  /** The condition of Test 2_5. */
  lemma NestedOrText()
    ensures Join("false", " ", BinSymbol(Or), "true") == "false || true"
    ensures Join("true", " ", BinSymbol(Or), Group("false || true")) == "true || (false || true)"
    ensures Balanced("false || true") && WithoutN("false || true")
  {
    ParenFreeBalanced("false || true");
  }

  /** The condition of Test 7. */
  lemma ProductText()
    ensures Join("2", "", BinSymbol(Mul), "8") == "2*8"
    ensures Join("5", " ", BinSymbol(Ge), Group("2*8")) == "5 >= (2*8)"
    ensures Balanced("2*8") && WithoutN("2*8")
  {
    ParenFreeBalanced("2*8");
  }

  /** The condition of Test 8. */
  lemma GroupsText()
    ensures Join("1", "", BinSymbol(Add), "2") == "1+2"
    ensures Join("3", "", BinSymbol(Sub), "3") == "3-3"
    ensures Join("2", "", BinSymbol(Mul), Group("3-3")) == "2*(3-3)"
    ensures Join(Group("1+2"), " ", BinSymbol(Ge), Group("2*(3-3)")) == "(1+2) >= (2*(3-3))"
    ensures Balanced("1+2") && Balanced("3-3") && Balanced("2*(3-3)")
    ensures WithoutN("1+2") && WithoutN("3-3") && WithoutN("2*(3-3)")
  {
    ParenFreeBalanced("1+2");
    ParenFreeBalanced("3-3");
    ParenFreeBalanced("2*");
    GroupFacts("3-3");
    BalancedConcat("2*", Group("3-3"));
    assert "2*" + Group("3-3") == "2*(3-3)";
  }

  /** The conditions of Tests 2_5, 7 and 8 hold no marker. */
  lemma NestedOrFree()
    ensures Free("true || (false || true)")
  {
    Unmarked("true || (false || true)");
  }

  lemma ProductFree()
    ensures Free("5 >= (2*8)")
  {
    Unmarked("5 >= (2*8)");
  }

  lemma GroupsFree()
    ensures Free("(1+2) >= (2*(3-3))")
  {
    Unmarked("(1+2) >= (2*(3-3))");
  }

  //------------------------------------------------------------------------
  // The tests' trees

  lemma LogicTrees(d: Dialect)
    ensures Compile(d, "true") == BoolLit(true)
    ensures Compile(d, "!false") == Not(BoolLit(false))
    ensures Compile(d, "not false") == Not(BoolLit(false))
  {
    BoolTexts();
    LogicTexts();
    CompileBool(d, true);
    CompileBool(d, false);
    CompileBang(d, "", "false");
    CompileNot(d, " ", "false");
  }

  lemma OrTree(d: Dialect)
    ensures Compile(d, "true || false") == Binary(Or, BoolLit(true), BoolLit(false))
  {
    BoolTexts();
    LogicTexts();
    CompileWords(d, "true", " ", Or, "false");
    CompileBool(d, true);
    CompileBool(d, false);
  }

  lemma AndTrees(d: Dialect)
    ensures Compile(d, "true && true") == Binary(And, BoolLit(true), BoolLit(true))
    ensures Compile(d, "true && false") == Binary(And, BoolLit(true), BoolLit(false))
  {
    BoolTexts();
    LogicTexts();
    CompileWords(d, "true", " ", And, "true");
    CompileWords(d, "true", " ", And, "false");
    CompileBool(d, true);
    CompileBool(d, false);
  }

  lemma NestedOrTree(d: Dialect)
    ensures Compile(d, "true || (false || true)")
      == Binary(Or, BoolLit(true), Binary(Or, BoolLit(false), BoolLit(true)))
  {
    BoolTexts();
    NestedOrText();
    CompileWords(d, "false", " ", Or, "true");
    CompileRightGroup(d, "true", " ", Or, "false || true");
    CompileBool(d, true);
    CompileBool(d, false);
  }

  lemma ComparisonTrees(d: Dialect)
    ensures Compile(d, "5 > 6") == Binary(Gt, NumLit(5.0), NumLit(6.0))
    ensures Compile(d, "5 < 6") == Binary(Lt, NumLit(5.0), NumLit(6.0))
    ensures Compile(d, "5 >= 6") == Binary(Ge, NumLit(5.0), NumLit(6.0))
    ensures Compile(d, "5 == 6") == Binary(Eq, NumLit(5.0), NumLit(6.0))
  {
    DigitTexts();
    ComparisonTexts();
    CompileNumbers(d, "5", " ", Gt, "6");
    CompileNumbers(d, "5", " ", Lt, "6");
    CompileNumbers(d, "5", " ", Ge, "6");
    CompileNumbers(d, "5", " ", Eq, "6");
  }

  lemma ProductTree(d: Dialect)
    ensures Compile(d, "5 >= (2*8)") == Binary(Ge, NumLit(5.0), Binary(Mul, NumLit(2.0), NumLit(8.0)))
  {
    DigitTexts();
    ProductText();
    CompileNumbers(d, "2", "", Mul, "8");
    CompileRightGroup(d, "5", " ", Ge, "2*8");
    CompileDigits(d, "5");
  }

  lemma GroupsTree(d: Dialect)
    ensures Compile(d, "(1+2) >= (2*(3-3))")
      == Binary(Ge, Binary(Add, NumLit(1.0), NumLit(2.0)),
        Binary(Mul, NumLit(2.0), Binary(Sub, NumLit(3.0), NumLit(3.0))))
  {
    DigitTexts();
    GroupsText();
    CompileNumbers(d, "1", "", Add, "2");
    CompileNumbers(d, "3", "", Sub, "3");
    CompileRightGroup(d, "2", "", Mul, "3-3");
    CompileDigits(d, "2");
    CompileGroups(d, "1+2", " ", Ge, "2*(3-3)");
  }

  /** What the tests' trees evaluate to, in either version. */
  lemma LogicValues(d: Dialect, vars: real -> real)
    ensures Eval(d, Not(BoolLit(false)), vars) == Ok(Bool(true))
    ensures Eval(d, Binary(Or, BoolLit(true), BoolLit(false)), vars) == Ok(Bool(true))
    ensures Eval(d, Binary(And, BoolLit(true), BoolLit(true)), vars) == Ok(Bool(true))
    ensures Eval(d, Binary(And, BoolLit(true), BoolLit(false)), vars) == Ok(Bool(false))
    ensures Eval(d, Binary(Or, BoolLit(true), Binary(Or, BoolLit(false), BoolLit(true))), vars) == Ok(Bool(true))
  {
  }

  lemma OrderValues(d: Dialect, vars: real -> real)
    ensures Eval(d, Binary(Gt, NumLit(5.0), NumLit(6.0)), vars) == Ok(Bool(false))
    ensures Eval(d, Binary(Lt, NumLit(5.0), NumLit(6.0)), vars) == Ok(Bool(true))
  {
  }

  lemma ComparisonValues(d: Dialect, vars: real -> real)
    ensures Eval(d, Binary(Ge, NumLit(5.0), NumLit(6.0)), vars) == Ok(Bool(false))
    ensures Eval(d, Binary(Eq, NumLit(5.0), NumLit(6.0)), vars) == Ok(Bool(false))
  {
  }

  lemma ArithmeticValues(d: Dialect, vars: real -> real)
    ensures Eval(d, Binary(Ge, NumLit(5.0), Binary(Mul, NumLit(2.0), NumLit(8.0))), vars) == Ok(Bool(false))
    ensures Eval(d, Binary(Ge, Binary(Add, NumLit(1.0), NumLit(2.0)),
      Binary(Mul, NumLit(2.0), Binary(Sub, NumLit(3.0), NumLit(3.0)))), vars) == Ok(Bool(true))
  {
  }

  //------------------------------------------------------------------------
  // Where a condition does not mean what JavaScript would make of it

  /** What the parsers see in `!!a`. */
  lemma BangBangText(a: string, t: string)
    requires Word(a) && t == "!!" + a
    ensures Trim(t) == t && Trim(a) == a && t == "!" + "" + "!" + a && t[1..] == "!" + "" + a
    ensures forall k :: 0 <= k < |t| ==> t[k] != 'n'
    ensures forall k :: 0 <= k < |a| ==> Plain(a[k])
  {
    WordFacts(a);
    TrimUnpadded(a);
    assert t[|t| - 1] == a[|a| - 1];
    TrimUnpadded(t);
    forall k | 2 <= k < |t|
      ensures t[k] != 'n'
    {
      assert t[k] == a[k - 2];
    }
  }

  /** `!!a`: the later scan splits at the second `!` and its node drops the
      first, so the condition is `!a`; the earlier scan stops at the first
      `!` and negates twice. */
  lemma CompileDoubleBang(d: Dialect, a: string)
    requires Word(a)
    ensures Compile(d, "!!" + a) == if d == Main then Not(Compile(d, a)) else Not(Not(Compile(d, a)))
  {
    var t := "!!" + a;
    BangBangText(a, t);
    if d == Main {
      WithoutNNormal(t);
      DoubleBang(t, "", a);
    } else {
      BangStop(t);
      EarlyNegationFirst(t, 0, 1);
      CompileBang(d, "", a);
    }
  }

  /** What the parsers see in `not not a`. */
  lemma NotNotText(a: string, s: string, t: string)
    requires Word(a) && s == " not " + a && t == "not" + s
    ensures t[..3] == "not" && s != [] && !IsSpace(s[|s| - 1])
    ensures Trim(s) == "not" + " " + a && Trim(t) == t
    ensures forall k :: 0 <= k < |s| ==> Plain(s[k])
  {
    WordFacts(a);
    assert s[|s| - 1] == a[|a| - 1];
    assert t[|t| - 1] == a[|a| - 1];
    TrimUnpadded(t);
    NotWordTrim(a, s);
    NotWordPlain(a, s);
  }

  lemma NotWordTrim(a: string, s: string)
    requires Word(a) && s == " not " + a
    ensures Trim(s) == "not" + " " + a
  {
    var b := "not " + a;
    assert b[|b| - 1] == a[|a| - 1];
    assert s == " " + b;
    TrimSpaceBefore(b);
  }

  lemma NotWordPlain(a: string, s: string)
    requires Word(a) && s == " not " + a
    ensures forall k :: 0 <= k < |s| ==> Plain(s[k])
  {
    forall k | 5 <= k < |s|
      ensures Plain(s[k])
    {
      assert s[k] == a[k - 5];
    }
  }

  /** `not not a` negates twice, in both versions. */
  lemma CompileNotNot(d: Dialect, a: string)
    requires Word(a)
    ensures Compile(d, "not not " + a) == Not(Not(Compile(d, a)))
  {
    var s := " not " + a;
    var t := "not" + s;
    assert t == "not not " + a;
    NotNotText(a, s, t);
    if d == Main {
      NotNormal(s, t);
      BangNegation(t, s);
    } else {
      NotStop(t);
      EarlyNegationFirst(t, 0, 3);
    }
    CompileNot(d, " ", a);
  }

  /** The later parser on `! not a`: the inside's own rewrite turns the `not`
      into a second `!`, which the first one then collapses into. */
  lemma MainBangNot(a: string)
    requires Word(a)
    ensures Parse("! not " + a) == Not(Parse(a))
  {
    var u := "! not " + a;
    WordFacts(a);
    WordPlain(a);
    assert u == "! " + "not" + (" " + a);
    ReplaceAfter("! ", "not", " " + a, "!");
    var v := "! " + "!" + (" " + a);
    assert v[|v| - 1] == a[|a| - 1];
    TrimUnpadded(v);
    assert v == "!" + " " + "!" + (" " + a);
    forall k | 0 <= k < |" " + a|
      ensures Plain((" " + a)[k])
    {
      if k > 0 {
        assert (" " + a)[k] == a[k - 1];
      }
    }
    DoubleBang(u, " ", " " + a);
    TrimSpaceBefore(a);
  }

  /** `(not not a)`: in parentheses the later version rewrites the inside
      twice, once with the group and once on its own, and the two `!` that
      result collapse as in `!!a`, so the condition is `!a`. The earlier
      version has no rewrite and negates twice. */
  lemma CompileNotNotGroup(d: Dialect, a: string)
    requires Word(a)
    ensures Compile(d, Group("not not " + a)) == if d == Main then Not(Compile(d, a)) else Not(Not(Compile(d, a)))
  {
    var i := "not not " + a;
    NotNotBalanced(a, i);
    if d == Main {
      MainNotNotGroup(a, i);
      MainBangNot(a);
    } else {
      EarlyParenElision(i);
      CompileNotNot(d, a);
    }
  }

  lemma NotNotBalanced(a: string, i: string)
    requires Word(a) && i == "not not " + a
    ensures Balanced(i)
  {
    forall k | 0 <= k < |i|
      ensures i[k] != '(' && i[k] != ')'
    {
      if k >= 8 {
        assert i[k] == a[k - 8];
      }
    }
    ParenFreeBalanced(i);
  }

  /** The group's own rewrite turns the first `not` into `!`. */
  lemma MainNotNotGroup(a: string, i: string)
    requires Balanced(i) && i == "not not " + a
    ensures Parse(Group(i)) == Parse("! not " + a)
  {
    var rest := " not " + a;
    assert i == "not" + rest;
    ReplaceLeading("not", rest, "!");
    assert "!" + rest == "! not " + a;
    assert Group(i) == "(" + i + ")";
    ParenElision(i);
  }

  /** `!(i)` is the negation of the group's inside, in both versions. */
  lemma CompileBangGroup(d: Dialect, i: string)
    requires Balanced(i) && WithoutN(i)
    ensures Compile(d, "!" + Group(i)) == Not(Compile(d, i))
  {
    if d == Main {
      MainBangGroup(i);
    } else {
      var t := "!" + Group(i);
      GroupFacts(i);
      TrimUnpadded(Group(i));
      assert t[|t| - 1] == ')';
      TrimUnpadded(t);
      BangStop(t);
      EarlyNegationFirst(t, 0, 1);
      assert t[1..] == Group(i);
      EarlyParenElision(i);
    }
  }

  /** The texts of the conditions below. */
  lemma BangTexts()
    ensures Word("true") && "!!" + "true" == "!!true" && "not not " + "true" == "not not true"
    ensures Group("not not true") == "(not not true)"
  {
  }

  lemma ModuloTexts()
    ensures Join("5", " ", BinSymbol(Mod), "2") == "5 % 2" && "!" + Group("5 % 2") == "!(5 % 2)"
    ensures Balanced("5 % 2") && WithoutN("5 % 2")
  {
    ParenFreeBalanced("5 % 2");
  }

  lemma ModuloFree()
    ensures Free("!(5 % 2)") && Free("x")
  {
    Unmarked("!(5 % 2)");
    Unmarked("x");
  }

  /** `!!true` is false in the later version, where JavaScript's `!!true` is
      true; the earlier version gives true. */
  lemma DoubleBangTrue(d: Dialect, vars: real -> real)
    ensures Compile(d, "!!true") == if d == Main then Not(BoolLit(true)) else Not(Not(BoolLit(true)))
    ensures Eval(d, Compile(d, "!!true"), vars) == Ok(Bool(d == Early))
  {
    BangTexts();
    CompileDoubleBang(d, "true");
    CompileBool(d, true);
  }

  /** `not not true` negates twice, but `(not not true)` in the later version only once. */
  lemma NotNotGroup(d: Dialect)
    ensures Compile(d, "not not true") == Not(Not(BoolLit(true)))
    ensures Compile(d, "(not not true)") == if d == Main then Not(BoolLit(true)) else Not(Not(BoolLit(true)))
  {
    BangTexts();
    CompileNotNot(d, "true");
    CompileNotNotGroup(d, "true");
    CompileBool(d, true);
  }

  /** The later version's tree of `!(5 % 2)`. */
  lemma ModuloTree(d: Dialect)
    requires d == Main
    ensures Compile(d, "!(5 % 2)") == Not(Binary(Mod, NumLit(5.0), NumLit(2.0)))
  {
    ModuloTexts();
    DigitTexts();
    CompileNumbers(d, "5", " ", Mod, "2");
    CompileBangGroup(d, "5 % 2");
  }

  /** `5 % 2` has no value, and neither has its negation. */
  lemma ModuloValue(d: Dialect, vars: real -> real)
    ensures Eval(d, Not(Binary(Mod, NumLit(5.0), NumLit(2.0))), vars) == Err(Unsupported(Mod))
  {
    ErrorsPropagate(d, Binary(Mod, NumLit(5.0), NumLit(2.0)), Mod, NumLit(0.0), vars);
  }

  /** `%` has no case in `interp`, which returns `undefined` for it, and
      `!undefined` is true in JavaScript, so `<dis>!(5 % 2)</dis>x` is
      greyed out there. Here the error of the `%` node passes through the
      `!`, and the choice stays enabled. */
  lemma NegatedModulo(d: Dialect, vars: real -> real)
    requires d == Main
    ensures Resolution(d, OpenDis + "!(5 % 2)" + CloseDis + "x", vars)
      == Outcome("x", Err(Unsupported(Mod)), Ok(Bool(false)))
    ensures !Flag(Resolution(d, OpenDis + "!(5 % 2)" + CloseDis + "x", vars).disabled)
  {
    var m := Binary(Mod, NumLit(5.0), NumLit(2.0));
    ModuloFree();
    ModuloTree(d);
    ModuloValue(d, vars);
    DisableTest(d, "!(5 % 2)", "x", Not(m), Err(Unsupported(Mod)), vars);
  }

  //------------------------------------------------------------------------
  // The tests

  /** Test 0: the group at index 0 of `(())()` closes at index 3, in both versions. */
  lemma Test0()
    ensures MatchParen("(())()", 0) == 3 && EarlyMatchParen("(())()", 0) == 3
  {
    MatchExample();
  }

  /** A test whose label is a disable region followed by `rest`: the tree is
      the expected one under `equals`, and the outcome is `rest` with the
      expected flag. */
  lemma DisableTest(d: Dialect, r: string, rest: string, e: Expr, v: Result, vars: real -> real)
    requires Free(r) && Free(rest) && Compile(d, r) == e && Eval(d, e, vars) == v
    ensures ExprEquals(Compile(d, r), e)
    ensures Resolution(d, OpenDis + r + CloseDis + rest, vars) == Outcome(rest, v, Ok(Bool(false)))
  {
    ExprEqualsIsEquality(Compile(d, r), e);
    DisableLabel(d, r, rest, vars);
  }

  /** Test 1: `<dis>true</dis>choice` leaves `choice`, compiles to the literal `true` and disables the choice. */
  lemma Test1(d: Dialect, vars: real -> real)
    ensures ExprEquals(Compile(d, "true"), BoolLit(true))
    ensures Resolution(d, OpenDis + "true" + CloseDis + "choice", vars)
      == Outcome("choice", Ok(Bool(true)), Ok(Bool(false)))
  {
    PieceTexts();
    LogicTrees(d);
    DisableTest(d, "true", "choice", BoolLit(true), Ok(Bool(true)), vars);
  }

  /** Test 2: `!false` is the negation of `false` and disables the choice. */
  lemma Test2(d: Dialect, vars: real -> real)
    ensures ExprEquals(Compile(d, "!false"), Not(BoolLit(false)))
    ensures Resolution(d, OpenDis + "!false" + CloseDis + "choice", vars)
      == Outcome("choice", Ok(Bool(true)), Ok(Bool(false)))
  {
    PieceTexts();
    LogicFree();
    LogicTrees(d);
    LogicValues(d, vars);
    DisableTest(d, "!false", "choice", Not(BoolLit(false)), Ok(Bool(true)), vars);
  }

  /** Test 2_1: `not false` likewise. */
  lemma Test2x1(d: Dialect, vars: real -> real)
    ensures ExprEquals(Compile(d, "not false"), Not(BoolLit(false)))
    ensures Resolution(d, OpenDis + "not false" + CloseDis + "choice", vars)
      == Outcome("choice", Ok(Bool(true)), Ok(Bool(false)))
  {
    PieceTexts();
    LogicFree();
    LogicTrees(d);
    LogicValues(d, vars);
    DisableTest(d, "not false", "choice", Not(BoolLit(false)), Ok(Bool(true)), vars);
  }

  /** Test 2_2: `true || false` disables the choice. */
  lemma Test2x2(d: Dialect, vars: real -> real)
    ensures ExprEquals(Compile(d, "true || false"), Binary(Or, BoolLit(true), BoolLit(false)))
    ensures Resolution(d, OpenDis + "true || false" + CloseDis + "choice", vars)
      == Outcome("choice", Ok(Bool(true)), Ok(Bool(false)))
  {
    PieceTexts();
    LogicFree();
    OrTree(d);
    LogicValues(d, vars);
    DisableTest(d, "true || false", "choice", Binary(Or, BoolLit(true), BoolLit(false)), Ok(Bool(true)), vars);
  }

  /** Test 2_3: `true && true` disables the choice. */
  lemma Test2x3(d: Dialect, vars: real -> real)
    ensures ExprEquals(Compile(d, "true && true"), Binary(And, BoolLit(true), BoolLit(true)))
    ensures Resolution(d, OpenDis + "true && true" + CloseDis + "choice", vars)
      == Outcome("choice", Ok(Bool(true)), Ok(Bool(false)))
  {
    PieceTexts();
    LogicFree();
    AndTrees(d);
    LogicValues(d, vars);
    DisableTest(d, "true && true", "choice", Binary(And, BoolLit(true), BoolLit(true)), Ok(Bool(true)), vars);
  }

  /** Test 2_4: `true && false` leaves the choice enabled. */
  lemma Test2x4(d: Dialect, vars: real -> real)
    ensures ExprEquals(Compile(d, "true && false"), Binary(And, BoolLit(true), BoolLit(false)))
    ensures Resolution(d, OpenDis + "true && false" + CloseDis + "choice", vars)
      == Outcome("choice", Ok(Bool(false)), Ok(Bool(false)))
  {
    PieceTexts();
    LogicFree();
    AndTrees(d);
    LogicValues(d, vars);
    DisableTest(d, "true && false", "choice", Binary(And, BoolLit(true), BoolLit(false)), Ok(Bool(false)), vars);
  }

  /** Test 2_5: `true || (false || true)` nests the group on the right and disables the choice. */
  lemma Test2x5(d: Dialect, vars: real -> real)
    ensures ExprEquals(Compile(d, "true || (false || true)"), Binary(Or, BoolLit(true), Binary(Or, BoolLit(false), BoolLit(true))))
    ensures Resolution(d, OpenDis + "true || (false || true)" + CloseDis + "choice", vars)
      == Outcome("choice", Ok(Bool(true)), Ok(Bool(false)))
  {
    PieceTexts();
    NestedOrFree();
    NestedOrTree(d);
    LogicValues(d, vars);
    DisableTest(d, "true || (false || true)", "choice", Binary(Or, BoolLit(true), Binary(Or, BoolLit(false), BoolLit(true))), Ok(Bool(true)), vars);
  }

  /** Test 3: `5 > 6` leaves the choice enabled. */
  lemma Test3(d: Dialect, vars: real -> real)
    ensures ExprEquals(Compile(d, "5 > 6"), Binary(Gt, NumLit(5.0), NumLit(6.0)))
    ensures Resolution(d, OpenDis + "5 > 6" + CloseDis + " choice", vars)
      == Outcome(" choice", Ok(Bool(false)), Ok(Bool(false)))
  {
    PieceTexts();
    ComparisonFree();
    ComparisonTrees(d);
    OrderValues(d, vars);
    DisableTest(d, "5 > 6", " choice", Binary(Gt, NumLit(5.0), NumLit(6.0)), Ok(Bool(false)), vars);
  }

  /** Test 4: `5 < 6` disables the choice. */
  lemma Test4(d: Dialect, vars: real -> real)
    ensures ExprEquals(Compile(d, "5 < 6"), Binary(Lt, NumLit(5.0), NumLit(6.0)))
    ensures Resolution(d, OpenDis + "5 < 6" + CloseDis + " choice", vars)
      == Outcome(" choice", Ok(Bool(true)), Ok(Bool(false)))
  {
    PieceTexts();
    ComparisonFree();
    ComparisonTrees(d);
    OrderValues(d, vars);
    DisableTest(d, "5 < 6", " choice", Binary(Lt, NumLit(5.0), NumLit(6.0)), Ok(Bool(true)), vars);
  }

  /** Tests 5 and 6 (both on `5 >= 6`): the choice stays enabled. */
  lemma Test5(d: Dialect, vars: real -> real)
    ensures ExprEquals(Compile(d, "5 >= 6"), Binary(Ge, NumLit(5.0), NumLit(6.0)))
    ensures Resolution(d, OpenDis + "5 >= 6" + CloseDis + " choice", vars)
      == Outcome(" choice", Ok(Bool(false)), Ok(Bool(false)))
  {
    PieceTexts();
    ComparisonFree();
    ComparisonTrees(d);
    ComparisonValues(d, vars);
    DisableTest(d, "5 >= 6", " choice", Binary(Ge, NumLit(5.0), NumLit(6.0)), Ok(Bool(false)), vars);
  }

  /** Test 7: `5 >= (2*8)` compares with the product, and the choice stays enabled. */
  lemma Test7(d: Dialect, vars: real -> real)
    ensures ExprEquals(Compile(d, "5 >= (2*8)"), Binary(Ge, NumLit(5.0), Binary(Mul, NumLit(2.0), NumLit(8.0))))
    ensures Resolution(d, OpenDis + "5 >= (2*8)" + CloseDis + " choice", vars)
      == Outcome(" choice", Ok(Bool(false)), Ok(Bool(false)))
  {
    PieceTexts();
    ProductFree();
    ProductTree(d);
    ArithmeticValues(d, vars);
    DisableTest(d, "5 >= (2*8)", " choice", Binary(Ge, NumLit(5.0), Binary(Mul, NumLit(2.0), NumLit(8.0))), Ok(Bool(false)), vars);
  }

  /** Test 8: `(1+2) >= (2*(3-3))` has a group on each side, and the choice is disabled. */
  lemma Test8(d: Dialect, vars: real -> real)
    ensures ExprEquals(Compile(d, "(1+2) >= (2*(3-3))"), Binary(Ge, Binary(Add, NumLit(1.0), NumLit(2.0)),
        Binary(Mul, NumLit(2.0), Binary(Sub, NumLit(3.0), NumLit(3.0)))))
    ensures Resolution(d, OpenDis + "(1+2) >= (2*(3-3))" + CloseDis + " choice", vars)
      == Outcome(" choice", Ok(Bool(true)), Ok(Bool(false)))
  {
    PieceTexts();
    GroupsFree();
    GroupsTree(d);
    ArithmeticValues(d, vars);
    DisableTest(d, "(1+2) >= (2*(3-3))", " choice", Binary(Ge, Binary(Add, NumLit(1.0), NumLit(2.0)),
        Binary(Mul, NumLit(2.0), Binary(Sub, NumLit(3.0), NumLit(3.0)))), Ok(Bool(true)), vars);
  }

  /** Test 13: `5 == 6` leaves the choice enabled, under strict and loose equality alike. */
  lemma Test13(d: Dialect, vars: real -> real)
    ensures ExprEquals(Compile(d, "5 == 6"), Binary(Eq, NumLit(5.0), NumLit(6.0)))
    ensures Resolution(d, OpenDis + "5 == 6" + CloseDis + " choice", vars)
      == Outcome(" choice", Ok(Bool(false)), Ok(Bool(false)))
  {
    PieceTexts();
    ComparisonFree();
    ComparisonTrees(d);
    ComparisonValues(d, vars);
    DisableTest(d, "5 == 6", " choice", Binary(Eq, NumLit(5.0), NumLit(6.0)), Ok(Bool(false)), vars);
  }

  /** Test 9: a label without regions is kept, and neither flag is set. */
  lemma Test9(d: Dialect, vars: real -> real)
    ensures Resolution(d, "choice", vars) == Outcome("choice", Ok(Bool(false)), Ok(Bool(false)))
  {
    PieceTexts();
    PlainLabel(d, "choice", vars);
  }

  /** Test 10: an empty region is cut out; it compiles to the number 0,
      which disables nothing. */
  lemma Test10(d: Dialect, vars: real -> real)
    ensures Resolution(d, OpenDis + "" + CloseDis + "choice", vars)
      == Outcome("choice", Ok(Num(0.0)), Ok(Bool(false)))
    ensures !Flag(Resolution(d, OpenDis + "" + CloseDis + "choice", vars).disabled)
  {
    CompileEmpty(d);
    PieceTexts();
    DisableLabel(d, "", "choice", vars);
  }

  /** Tests 11 and 12: a disable and a hide region in either order leave the
      text between and after them, `testchoice`, and set both flags. */
  lemma Test11(d: Dialect, vars: real -> real)
    ensures Resolution(d, OpenDis + "true" + CloseDis + "test" + OpenHide + "true" + CloseHide + "choice", vars)
      == Outcome("testchoice", Ok(Bool(true)), Ok(Bool(true)))
    ensures Resolution(d, OpenHide + "true" + CloseHide + "test" + OpenDis + "true" + CloseDis + "choice", vars)
      == Outcome("testchoice", Ok(Bool(true)), Ok(Bool(true)))
  {
    PieceTexts();
    LogicTrees(d);
    Glued();
    TwoRegionLabel(d, "true", "test", "true", "choice", vars);
  }
}
