/** The scenarios of the plugin's development tests, for both versions of
    the parser, stated for every text of the tests' shapes: a binary
    condition between two words, with or without spaces around the
    operator, a parenthesised operand on either side, a chain of one
    operator, a negation, and the labels with one region, two regions or an
    empty one. Each test is the instance of its shape with the test's digits
    or literals. */
module Scenarios {
  import opened JsString
  import opened Syntax
  import opened Parens
  import opened Scanner
  import opened Tags
  import opened Parser
  import opened Early
  import opened Interp
  import opened Choices

  //------------------------------------------------------------------------
  // The shapes

  /** A character neither parser treats specially: no white space, no
      parenthesis, no operator character, no `n` (which could start `not`)
      and no `\\` (which starts a variable reference). */
  predicate Inert(c: char) {
    Plain(c) && c != ')' && c != 'n' && c != '\\' && !IsSpace(c)
  }

  /** An operand made of inert characters, such as `5`, `true` or `false`. */
  predicate Word(a: string) {
    a != [] && forall i :: 0 <= i < |a| ==> Inert(a[i])
  }

  /** No `n`, so no `not` for the later parser to rewrite. */
  predicate WithoutN(s: string) {
    forall i :: 0 <= i < |s| ==> s[i] != 'n'
  }

  /** Text that starts and ends with something other than white space. */
  predicate Unpadded(s: string) {
    s != [] && !IsSpace(s[0]) && !IsSpace(s[|s| - 1])
  }

  /** What stands between an operator and its operands: nothing, or one space on each side. */
  predicate Gap(g: string) {
    g == "" || g == " "
  }

  /** A character that cannot be the second of a two-character key. */
  predicate NoKeyEnd(c: char) {
    c != '|' && c != '&' && c != '=' && c != '*'
  }

  /** The operators of the earlier version's list. */
  predicate Listed(op: BinOp) {
    op != Pow && op != Mod && op != Ne
  }

  /** A character of an operator key: no letter, no digit, no `.`, no
      parenthesis, no white space and no `\\`. */
  predicate KeyChar(c: char) {
    !('a' <= c <= 'z') && !IsDigit(c) && c != '.' && c != '(' && c != ')' && !IsSpace(c) && c != '\\'
  }

  /** The text of an operator key. */
  predicate Key(sym: string) {
    1 <= |sym| <= 2 && forall k :: 0 <= k < |sym| ==> KeyChar(sym[k])
  }

  /** `a op b`, the operator `sym` with the gap `g` on both sides. */
  function Join(a: string, g: string, sym: string, b: string): string {
    a + g + sym + g + b
  }

  function Group(t: string): string {
    "(" + t + ")"
  }

  /** The spelling of a boolean literal. */
  function BoolText(b: bool): string {
    if b then "true" else "false"
  }

  lemma SymbolKey(op: BinOp)
    ensures Key(BinSymbol(op))
  {
  }

  /** The characters at the symbol and just after it. */
  lemma JoinPoints(a: string, g: string, sym: string, b: string)
    requires Gap(g) && Key(sym)
    ensures var t := Join(a, g, sym, b);
      var p := |a| + |g|;
      var w := |sym|;
      |t| == p + w + |g| + |b|
      && t[p] == sym[0] && (w == 2 ==> t[p + 1] == sym[1])
      && (g == " " ==> t[p + w] == ' ')
      && (g == "" && b != [] ==> t[p + w] == b[0])
  {
  }

  /** Where the pieces of `a op b` sit. */
  lemma JoinChars(a: string, g: string, sym: string, b: string)
    requires Gap(g) && Key(sym)
    ensures var t := Join(a, g, sym, b);
      var p := |a| + |g|;
      var w := |sym|;
      |t| == p + w + |g| + |b|
      && t[..p] == a + g && t[p + w..] == g + b && t[p + w + |g|..] == b
      && t[p] == sym[0] && (w == 2 ==> t[p + 1] == sym[1])
      && (g == " " ==> t[|a|] == ' ' && t[p + w] == ' ')
      && (g == "" && b != [] ==> t[p + w] == b[0])
  {
    var t := Join(a, g, sym, b);
    assert t[..|a| + |g|] == a + g;
    assert t[|a| + |g| + |sym|..] == g + b;
    assert t[|a| + |g| + |sym| + |g|..] == b;
  }

  /** The right operand is the last slice of `a op b`. */
  lemma JoinLast(a: string, g: string, sym: string, b: string)
    ensures var t := Join(a, g, sym, b);
      var q := |a| + |g| + |sym| + |g|;
      q + |b| == |t| && t[q..q + |b|] == b
  {
    var t := Join(a, g, sym, b);
    var q := |a| + |g| + |sym| + |g|;
    assert t == (a + g + sym + g) + b;
    assert t[q..q + |b|] == t[q..];
  }

  /** Every character of `a op b` is a character of an operand, a gap space
      or a character of the operator. */
  lemma JoinOutside(a: string, g: string, sym: string, b: string, k: nat)
    requires Gap(g) && Key(sym)
    requires k < |Join(a, g, sym, b)|
    ensures var t := Join(a, g, sym, b);
      var p := |a| + |g|;
      var q := p + |sym| + |g|;
      (k < |a| ==> t[k] == a[k])
      && (|a| <= k < p ==> t[k] == ' ')
      && (p <= k < p + |sym| ==> t[k] == sym[k - p])
      && (p + |sym| <= k < q ==> t[k] == ' ')
      && (q <= k ==> t[k] == b[k - q])
  {
  }

  /** `a op b` starts and ends as its operands do. */
  lemma JoinEnds(a: string, g: string, sym: string, b: string)
    requires Unpadded(a) && Unpadded(b) && Gap(g) && Key(sym)
    ensures var t := Join(a, g, sym, b);
      Unpadded(t) && t[0] == a[0] && t[|t| - 1] == b[|b| - 1]
  {
    var t := Join(a, g, sym, b);
    JoinOutside(a, g, sym, b, 0);
    JoinOutside(a, g, sym, b, |t| - 1);
  }

  /** The texts before and after the operator of `a op b` trim to the operands. */
  lemma JoinTrim(a: string, g: string, sym: string, b: string)
    requires Unpadded(a) && Unpadded(b) && Gap(g) && Key(sym)
    ensures var t := Join(a, g, sym, b);
      var p := |a| + |g|;
      Trim(t[..p]) == a && Trim(t[p + |sym|..]) == b
  {
    JoinChars(a, g, sym, b);
    if g == "" {
      assert a + g == a && g + b == b;
      TrimUnpadded(a);
      TrimUnpadded(b);
    } else {
      TrimSpaceAfter(a);
      TrimSpaceBefore(b);
    }
  }

  /** `a op b` is no literal and no number. */
  lemma JoinNotLeaf(a: string, g: string, sym: string, b: string)
    requires a != [] && Gap(g) && Key(sym)
    ensures var t := Join(a, g, sym, b);
      t != "true" && t != "false" && !IsNumeric(t)
  {
    var t := Join(a, g, sym, b);
    var p := |a| + |g|;
    JoinChars(a, g, sym, b);
    assert KeyChar(t[p]);
    NotNumeric(t, p);
    NoLetterNoLiteral(t, p);
  }

  lemma NoLetterNoLiteral(t: string, p: nat)
    requires p < |t| && !('a' <= t[p] <= 'z')
    ensures t != "true" && t != "false"
  {
  }

  lemma WordFacts(a: string)
    requires Word(a)
    ensures Unpadded(a) && WithoutN(a) && Balanced(a) && a[0] != '(' && NoKeyEnd(a[0]) && a[0] != '\\'
  {
    ParenFreeBalanced(a);
  }

  /** A gap and a word: plain for the later scan, without `n`, and trimmed to the word. */
  lemma GapWord(g: string, a: string)
    requires Gap(g) && Word(a)
    ensures forall k :: 0 <= k < |g + a| ==> Plain((g + a)[k]) && (g + a)[k] != 'n'
    ensures Trim(g + a) == a
  {
    WordFacts(a);
    forall k | 0 <= k < |g + a|
      ensures Plain((g + a)[k]) && (g + a)[k] != 'n'
    {
      if k < |g| {
        assert (g + a)[k] == ' ';
      } else {
        assert (g + a)[k] == a[k - |g|];
      }
    }
    if g == " " {
      TrimSpaceBefore(a);
    } else {
      assert g + a == a;
      TrimUnpadded(a);
    }
  }

  lemma JoinWithoutN(a: string, g: string, sym: string, b: string)
    requires WithoutN(a) && WithoutN(b) && Gap(g) && Key(sym)
    ensures WithoutN(Join(a, g, sym, b))
  {
    forall k | 0 <= k < |Join(a, g, sym, b)|
      ensures Join(a, g, sym, b)[k] != 'n'
    {
      JoinOutside(a, g, sym, b, k);
    }
  }

  lemma JoinBalanced(a: string, g: string, sym: string, b: string)
    requires Balanced(a) && Balanced(b) && Gap(g) && Key(sym)
    ensures Balanced(Join(a, g, sym, b))
  {
    var m := g + sym + g;
    forall k | 0 <= k < |m|
      ensures m[k] != '(' && m[k] != ')'
    {
      if |g| <= k < |g| + |sym| {
        assert m[k] == sym[k - |g|];
      } else {
        assert m[k] == ' ';
      }
    }
    ParenFreeBalanced(m);
    BalancedConcat(a, m);
    BalancedConcat(a + m, b);
    JoinRegroup(a, g, sym, b);
  }

  lemma JoinRegroup(a: string, g: string, sym: string, b: string)
    ensures Join(a, g, sym, b) == a + (g + sym + g) + b
  {
  }

  lemma GroupFacts(t: string)
    requires Balanced(t) && WithoutN(t)
    ensures var s := Group(t);
      Balanced(s) && WithoutN(s) && Unpadded(s) && s[0] == '(' && NoKeyEnd(s[0])
      && s[1..|s| - 1] == t
  {
    BalancedGroup(t);
  }

  //------------------------------------------------------------------------
  // The earlier version: the first operator wins

  lemma EarlySecondChars(x: char, y: char)
    ensures EarlyTwo(x, y).Some? ==> !NoKeyEnd(y)
  {
  }

  /** The earlier scan stops at a listed operator that is not followed by
      the second character of a two-character entry. */
  lemma EarlyStopsAtOperator(t: string, p: nat, op: BinOp)
    requires Listed(op)
    requires p + |BinSymbol(op)| < |t| && t[p] == BinSymbol(op)[0]
    requires |BinSymbol(op)| == 2 ==> t[p + 1] == BinSymbol(op)[1]
    requires |BinSymbol(op)| == 1 ==> NoKeyEnd(t[p + 1])
    ensures StopAt(t, p) == Some(Operator(op, p, |BinSymbol(op)|))
  {
    EarlySecondChars(t[p], t[p + 1]);
  }

  /** The earlier scan passes over a space or an inert character. */
  lemma QuietStop(t: string, j: nat)
    requires j < |t| && (t[j] == ' ' || Inert(t[j])) && !IsVarRef(t)
    ensures StopAt(t, j).None?
  {
    EarlySecondChars(t[j], if j + 1 < |t| then t[j + 1] else ' ');
  }

  /** The earlier scan passes over the word and the gap before the operator. */
  lemma EarlyQuietWord(a: string, g: string, sym: string, r: string)
    requires Word(a) && Gap(g) && Key(sym)
    ensures forall j :: 0 <= j < |a| + |g| ==> StopAt(Join(a, g, sym, r), j).None?
  {
    var t := Join(a, g, sym, r);
    WordFacts(a);
    JoinOutside(a, g, sym, r, 0);
    assert !IsVarRef(t);
    forall j | 0 <= j < |a| + |g|
      ensures StopAt(t, j).None?
    {
      JoinOutside(a, g, sym, r, j);
      QuietStop(t, j);
    }
  }

  /** The earlier scan stops at the operator of `x op r`. */
  lemma EarlyJoinStop(x: string, g: string, op: BinOp, r: string)
    requires x != [] && Gap(g) && Listed(op) && r != []
    requires g == "" ==> NoKeyEnd(r[0])
    ensures var p := |x| + |g|;
      StopAt(Join(x, g, BinSymbol(op), r), p) == Some(Operator(op, p, |BinSymbol(op)|))
  {
    var sym := BinSymbol(op);
    SymbolKey(op);
    JoinPoints(x, g, sym, r);
    EarlyStopsAtOperator(Join(x, g, sym, r), |x| + |g|, op);
  }

  /** `x op r` for the earlier parser's leaf tests: trimmed, no literal, no number. */
  lemma JoinText(x: string, g: string, op: BinOp, r: string)
    requires Unpadded(x) && Unpadded(r) && Gap(g)
    ensures var sym := BinSymbol(op);
      var t := Join(x, g, sym, r);
      var p := |x| + |g|;
      Trim(t) == t && t != "true" && t != "false" && !IsNumeric(t) && t[0] == x[0]
      && Trim(t[..p]) == x && Trim(t[p + |sym|..]) == r
  {
    var sym := BinSymbol(op);
    SymbolKey(op);
    JoinEnds(x, g, sym, r);
    TrimUnpadded(Join(x, g, sym, r));
    JoinTrim(x, g, sym, r);
    JoinNotLeaf(x, g, sym, r);
  }

  /** The earlier parser on `a op r` with a word on the left splits at the
      operator after the word, whatever `r` holds. */
  lemma EarlyWordLeft(a: string, g: string, op: BinOp, r: string)
    requires Word(a) && Gap(g) && Listed(op) && Unpadded(r)
    requires g == "" ==> NoKeyEnd(r[0])
    ensures EarlyParse(Join(a, g, BinSymbol(op), r)) == Binary(op, EarlyParse(a), EarlyParse(r))
  {
    var sym := BinSymbol(op);
    var t := Join(a, g, sym, r);
    var p := |a| + |g|;
    SymbolKey(op);
    WordFacts(a);
    JoinText(a, g, op, r);
    EarlyQuietWord(a, g, sym, r);
    EarlyJoinStop(a, g, op, r);
    EarlyFirstOperatorWins(t, op, p, |sym|);
  }

  /** The earlier parser on `(l) op r`: the group is the left operand. */
  lemma EarlyGroupLeft(l: string, g: string, op: BinOp, r: string)
    requires l != [] && Balanced(l) && WithoutN(l) && Gap(g) && Listed(op) && Unpadded(r)
    requires g == "" ==> NoKeyEnd(r[0])
    ensures EarlyParse(Join(Group(l), g, BinSymbol(op), r)) == Binary(op, EarlyParse(l), EarlyParse(r))
  {
    EarlyGroupLeftText(l, g, op, r);
    EarlyGroupSplit(Join(Group(l), g, BinSymbol(op), r), l, r, op, |Group(l)| + |g|, |BinSymbol(op)|);
  }

  /** Trimmed text that the earlier parser reads as the group `(l)`, then
      `op` at `p` of width `w`, then text that trims to `r`. */
  predicate LeftGroupReady(t: string, l: string, r: string, op: BinOp, p: nat, w: nat) {
    Trim(t) == t && GroupThenOperator(t, op, p, w)
    && t[1..EarlyMatchParen(t, 0)] == l && Trim(t[p + w..]) == r
  }

  /** The leading-group step on trimmed text whose group holds `l` and whose
      rest after the operator trims to `r`. */
  lemma EarlyGroupSplit(t: string, l: string, r: string, op: BinOp, p: nat, w: nat)
    requires LeftGroupReady(t, l, r, op, p, w)
    ensures EarlyParse(t) == Binary(op, EarlyParse(l), EarlyParse(r))
  {
    EarlyLeadingGroup(t, op, p, w);
  }

  /** What the earlier parser's leading-group step needs of `(l) op r`. */
  lemma EarlyGroupLeftText(l: string, g: string, op: BinOp, r: string)
    requires l != [] && Balanced(l) && WithoutN(l) && Gap(g) && Listed(op) && Unpadded(r)
    requires g == "" ==> NoKeyEnd(r[0])
    ensures LeftGroupReady(Join(Group(l), g, BinSymbol(op), r), l, r, op, |Group(l)| + |g|, |BinSymbol(op)|)
  {
    SymbolKey(op);
    GroupFacts(l);
    JoinText(Group(l), g, op, r);
    EarlyGroupMatch(l, g, BinSymbol(op), r);
    EarlyGroupOperator(l, g, op, r);
  }

  /** In `(l) op r` the earlier scan stops first at `op`, after the group. */
  lemma EarlyGroupOperator(l: string, g: string, op: BinOp, r: string)
    requires l != [] && Balanced(l) && WithoutN(l) && Gap(g) && Listed(op) && Unpadded(r)
    requires g == "" ==> NoKeyEnd(r[0])
    ensures GroupThenOperator(Join(Group(l), g, BinSymbol(op), r), op, |Group(l)| + |g|, |BinSymbol(op)|)
  {
    var sym := BinSymbol(op);
    var a := Group(l);
    var t := Join(a, g, sym, r);
    SymbolKey(op);
    GroupFacts(l);
    JoinText(a, g, op, r);
    JoinPoints(a, g, sym, r);
    EarlyGroupMatch(l, g, sym, r);
    EarlyJoinStop(a, g, op, r);
    EarlyQuietGap(l, g, sym, r);
  }

  /** The earlier scan passes over the gap after the leading group. */
  lemma EarlyQuietGap(l: string, g: string, sym: string, r: string)
    requires Gap(g) && Key(sym)
    ensures var t := Join(Group(l), g, sym, r);
      forall j :: |Group(l)| <= j < |Group(l)| + |g| ==> StopAt(t, j).None?
  {
    var a := Group(l);
    var t := Join(a, g, sym, r);
    assert t[0] == '(';
    assert !IsVarRef(t);
    forall j | |a| <= j < |a| + |g|
      ensures StopAt(t, j).None?
    {
      JoinOutside(a, g, sym, r, j);
      QuietStop(t, j);
    }
  }

  /** The leading group of `(l) op r` closes after `l`. */
  lemma EarlyGroupMatch(l: string, g: string, sym: string, r: string)
    requires Balanced(l) && Gap(g) && Key(sym) && r != []
    ensures var t := Join(Group(l), g, sym, r);
      EarlyMatchParen(t, 0) == |Group(l)| - 1 && t[1..|Group(l)| - 1] == l
  {
    var t := Join(Group(l), g, sym, r);
    assert t[0..|l| + 2] == Group(l);
    GroupAt(t, 0, l);
  }

  //------------------------------------------------------------------------
  // The later version: the last operator of lowest precedence wins

  lemma MainSecondChars(x: char, y: char)
    ensures TwoCharToken(x, y).Some? ==> !NoKeyEnd(y)
  {
  }

  /** The scan takes the operator at `p` over a best split it replaces. */
  lemma MainStep(t: string, p: nat, op: BinOp, best: Option<Split>)
    requires p + |BinSymbol(op)| < |t| && t[p] == BinSymbol(op)[0]
    requires |BinSymbol(op)| == 2 ==> t[p + 1] == BinSymbol(op)[1]
    requires |BinSymbol(op)| == 1 ==> NoKeyEnd(t[p + 1])
    requires FitsIn(t, best) && Replaces(Bin(op), best)
    ensures ScanFrom(t, p, best) == ScanFrom(t, p + |BinSymbol(op)|, Some(Split(p, Bin(op))))
  {
    LookupFindsEveryKey(Bin(op));
    MainSecondChars(t[p], t[p + 1]);
    SymbolKey(op);
    assert t[p] != '(';
  }

  /** Text the later parser splits at `op` at `p`: text without `not` or
      surrounding white space that is no literal, number or group, with the
      operator spelled at `p`, the scan reaching `p` with no split and
      nothing after the operator replacing it. */
  predicate SplitsAt(t: string, p: nat, op: BinOp) {
    WithoutN(t) && Unpadded(t)
    && t != "true" && t != "false" && !IsNumeric(t) && !IsGroup(t)
    && p + |BinSymbol(op)| < |t| && t[p] == BinSymbol(op)[0]
    && (|BinSymbol(op)| == 2 ==> t[p + 1] == BinSymbol(op)[1])
    && (|BinSymbol(op)| == 1 ==> NoKeyEnd(t[p + 1]))
    && ScanFrom(t, 0, None) == ScanFrom(t, p, None)
    && ScanFrom(t, p + |BinSymbol(op)|, Some(Split(p, Bin(op)))) == Some(Split(p, Bin(op)))
  }

  /** The later parser splits such text into the operands `x` and `r`. */
  lemma MainSplitAt(t: string, p: nat, op: BinOp, x: string, r: string)
    requires SplitsAt(t, p, op)
    requires Trim(t[..p]) == x && Trim(t[p + |BinSymbol(op)|..]) == r
    ensures Parse(t) == Binary(op, Parse(x), Parse(r))
  {
    AbsentFirstChar(t, "not");
    NormalizeFixed(t);
    MainStep(t, p, op, None);
    BinarySplit(t, p, op);
  }

  /** Operands and gaps are plain for the scan. */
  lemma PlainRange(x: string, g: string, sym: string, r: string, i: nat, j: nat, best: Option<Split>)
    requires Gap(g) && Key(sym) && i <= j <= |Join(x, g, sym, r)|
    requires forall k :: 0 <= k < |x| && i <= k < j ==> Plain(x[k])
    requires forall k :: 0 <= k < |r| && i <= |x| + 2 * |g| + |sym| + k < j ==> Plain(r[k])
    requires j <= |x| + |g| || |x| + |g| + |sym| <= i
    requires FitsIn(Join(x, g, sym, r), best)
    ensures ScanFrom(Join(x, g, sym, r), i, best) == ScanFrom(Join(x, g, sym, r), j, best)
  {
    var t := Join(x, g, sym, r);
    forall k | i <= k < j
      ensures Plain(t[k])
    {
      JoinOutside(x, g, sym, r, k);
      if |x| + |g| + |sym| + |g| <= k {
        assert t[k] == r[k - (|x| + 2 * |g| + |sym|)];
      }
    }
    PlainStretch(t, i, j, best);
  }

  lemma WordPlain(a: string)
    requires Word(a)
    ensures forall k :: 0 <= k < |a| ==> Plain(a[k])
  {
  }

  /** The scan jumps over a balanced group. */
  lemma ScanGroup(t: string, k: nat, inner: string, best: Option<Split>)
    requires k + |inner| + 2 <= |t| && t[k..k + |inner| + 2] == Group(inner) && Balanced(inner)
    requires FitsIn(t, best)
    ensures ScanFrom(t, k, best) == ScanFrom(t, k + |inner| + 2, best)
  {
    GroupAt(t, k, inner);
    assert t[k] == t[k..k + |inner| + 2][0] == '(';
    var m := MatchParen(t, k);
    assert m + 1 == k + |inner| + 2;
    assert ScanFrom(t, k, best) == ScanFrom(t, m + 1, best);
  }

  /** What the later parser needs of `x op r` besides the scan. */
  lemma MainText(x: string, g: string, op: BinOp, r: string)
    requires Unpadded(x) && Unpadded(r) && WithoutN(x) && WithoutN(r) && Gap(g)
    requires g == "" ==> NoKeyEnd(r[0])
    ensures var sym := BinSymbol(op);
      var t := Join(x, g, sym, r);
      var p := |x| + |g|;
      WithoutN(t) && Unpadded(t) && t != "true" && t != "false" && !IsNumeric(t)
      && t[0] == x[0]
      && p + |sym| < |t| && t[p] == sym[0]
      && (|sym| == 2 ==> t[p + 1] == sym[1])
      && (|sym| == 1 ==> NoKeyEnd(t[p + 1]))
      && Trim(t[..p]) == x && Trim(t[p + |sym|..]) == r
  {
    var sym := BinSymbol(op);
    SymbolKey(op);
    JoinEnds(x, g, sym, r);
    JoinWithoutN(x, g, sym, r);
    JoinTrim(x, g, sym, r);
    JoinNotLeaf(x, g, sym, r);
    JoinChars(x, g, sym, r);
  }

  /** The later scan over `a sym b` with two words: nothing before the symbol
      and nothing after it changes the best split. */
  lemma WordsScan(a: string, g: string, sym: string, b: string, best: Option<Split>)
    requires Word(a) && Word(b) && Gap(g) && Key(sym)
    requires FitsIn(Join(a, g, sym, b), best)
    ensures var t := Join(a, g, sym, b);
      var p := |a| + |g|;
      ScanFrom(t, 0, best) == ScanFrom(t, p, best) && ScanFrom(t, p + |sym|, best) == best
  {
    var t := Join(a, g, sym, b);
    var p := |a| + |g|;
    WordPlain(a);
    WordPlain(b);
    PlainRange(a, g, sym, b, 0, p, best);
    PlainRange(a, g, sym, b, p + |sym|, |t|, best);
  }

  /** The later scan over `x g op g r` picks the operator between them. */
  predicate PicksOperator(x: string, g: string, op: BinOp, r: string) {
    var t := Join(x, g, BinSymbol(op), r);
    var p := |x| + |g|;
    var sp := Some(Split(p, Bin(op)));
    FitsIn(t, sp) && ScanFrom(t, 0, None) == ScanFrom(t, p, None)
    && ScanFrom(t, p + |BinSymbol(op)|, sp) == sp
  }

  /** The later scan on `a op b` with two words finds the operator and nothing else. */
  lemma MainWordsScan(a: string, g: string, op: BinOp, b: string)
    requires Word(a) && Word(b) && Gap(g)
    ensures PicksOperator(a, g, op, b)
  {
    var sym := BinSymbol(op);
    var sp := Some(Split(|a| + |g|, Bin(op)));
    SymbolKey(op);
    WordsScan(a, g, sym, b, None);
    WordsScan(a, g, sym, b, sp);
  }

  /** The later parser on `x op r`, given that its scan picks that operator
      and the text is not one group: the operands are parsed separately. */
  lemma MainJoin(x: string, g: string, op: BinOp, r: string)
    requires Unpadded(x) && Unpadded(r) && WithoutN(x) && WithoutN(r) && Gap(g)
    requires g == "" ==> NoKeyEnd(r[0])
    requires x[0] == '(' ==> MatchParen(Join(x, g, BinSymbol(op), r), 0) == |x| - 1
    requires PicksOperator(x, g, op, r)
    ensures Parse(Join(x, g, BinSymbol(op), r)) == Binary(op, Parse(x), Parse(r))
  {
    MainJoinSplits(x, g, op, r);
    MainSplitAt(Join(x, g, BinSymbol(op), r), |x| + |g|, op, x, r);
  }

  /** The text of `MainJoin` is split by the later parser at the operator. */
  lemma MainJoinSplits(x: string, g: string, op: BinOp, r: string)
    requires Unpadded(x) && Unpadded(r) && WithoutN(x) && WithoutN(r) && Gap(g)
    requires g == "" ==> NoKeyEnd(r[0])
    requires x[0] == '(' ==> MatchParen(Join(x, g, BinSymbol(op), r), 0) == |x| - 1
    requires PicksOperator(x, g, op, r)
    ensures var t := Join(x, g, BinSymbol(op), r);
      SplitsAt(t, |x| + |g|, op) && Trim(t[..|x| + |g|]) == x && Trim(t[|x| + |g| + |BinSymbol(op)|..]) == r
  {
    MainText(x, g, op, r);
  }

  /** The later parser on `a op b` with two words. */
  lemma MainWords(a: string, g: string, op: BinOp, b: string)
    requires Word(a) && Word(b) && Gap(g)
    ensures Parse(Join(a, g, BinSymbol(op), b)) == Binary(op, Parse(a), Parse(b))
  {
    var sym := BinSymbol(op);
    var t := Join(a, g, sym, b);
    WordFacts(a);
    WordFacts(b);
    MainWordsScan(a, g, op, b);
    MainJoin(a, g, op, b);
  }

  /** The later scan after the symbol of `x sym (r)` jumps over the group and ends. */
  lemma GroupRightScan(x: string, g: string, sym: string, r: string, best: Option<Split>)
    requires Gap(g) && Key(sym) && Balanced(r)
    requires FitsIn(Join(x, g, sym, Group(r)), best)
    ensures ScanFrom(Join(x, g, sym, Group(r)), |x| + |g| + |sym|, best) == best
  {
    var b := Group(r);
    var t := Join(x, g, sym, b);
    var q := |x| + |g| + |sym| + |g|;
    PlainRange(x, g, sym, b, |x| + |g| + |sym|, q, best);
    JoinLast(x, g, sym, b);
    assert |b| == |r| + 2;
    ScanGroup(t, q, r, best);
  }

  /** The later scan over `a sym (i)`: nothing before the symbol changes the
      best split, and the scan jumps over the group after it. */
  lemma RightGroupScan(a: string, g: string, sym: string, i: string, best: Option<Split>)
    requires Word(a) && Gap(g) && Key(sym) && Balanced(i)
    requires FitsIn(Join(a, g, sym, Group(i)), best)
    ensures var t := Join(a, g, sym, Group(i));
      var p := |a| + |g|;
      ScanFrom(t, 0, best) == ScanFrom(t, p, best) && ScanFrom(t, p + |sym|, best) == best
  {
    WordPlain(a);
    PlainRange(a, g, sym, Group(i), 0, |a| + |g|, best);
    GroupRightScan(a, g, sym, i, best);
  }

  /** The later scan on `a op (i)` finds the operator and jumps over the group. */
  lemma MainRightGroupScan(a: string, g: string, op: BinOp, i: string)
    requires Word(a) && Gap(g) && Balanced(i)
    ensures PicksOperator(a, g, op, Group(i))
  {
    var sym := BinSymbol(op);
    var sp := Some(Split(|a| + |g|, Bin(op)));
    SymbolKey(op);
    RightGroupScan(a, g, sym, i, None);
    RightGroupScan(a, g, sym, i, sp);
  }

  /** A group with neither `n` nor an unbalanced parenthesis parses as its inside. */
  lemma GroupElision(i: string)
    requires Balanced(i) && WithoutN(i)
    ensures Parse(Group(i)) == Parse(i)
  {
    AbsentFirstChar(i, "not");
    PlainParenElision(i);
  }

  /** The later parser on `!(i)`: the negation of the group's inside. */
  lemma MainBangGroup(i: string)
    requires Balanced(i) && WithoutN(i)
    ensures Parse("!" + Group(i)) == Not(Parse(i))
  {
    var t := "!" + Group(i);
    BangGroupText(i);
    BangUnfold(t, t, 0);
    assert t[0 + Width(Bang)..] == Group(i);
    GroupElision(i);
  }

  /** What the later parser sees in `!(i)`: nothing to rewrite or trim, no
      number, and a split at the `!`, since the scan jumps over the group. */
  lemma BangGroupText(i: string)
    requires Balanced(i) && WithoutN(i)
    ensures var t := "!" + Group(i);
      Normalize(t) == t && Compound(t) && LowestSplit(t) == Some(Split(0, Bang))
      && Trim(Group(i)) == Group(i)
  {
    var t := "!" + Group(i);
    var sp := Some(Split(0, Bang));
    GroupFacts(i);
    assert t[|t| - 1] == ')';
    forall k | 0 <= k < |t|
      ensures t[k] != 'n'
    {
      if k > 0 {
        assert t[k] == Group(i)[k - 1];
      }
    }
    AbsentFirstChar(t, "not");
    ReplaceFirstShrinks(t, "not", "!");
    TrimUnpadded(t);
    TrimUnpadded(Group(i));
    assert t[1..1 + |i| + 2] == Group(i);
    assert ScanFrom(t, 0, None) == ScanFrom(t, 1, sp);
    ScanGroup(t, 1, i, sp);
    NotNumeric(t, 0);
  }

  /** The later parser on `a op (i)` splits at the operator. */
  lemma MainRightGroupSplit(a: string, g: string, op: BinOp, i: string)
    requires Word(a) && Gap(g) && Balanced(i) && WithoutN(i)
    ensures Parse(Join(a, g, BinSymbol(op), Group(i))) == Binary(op, Parse(a), Parse(Group(i)))
  {
    WordFacts(a);
    GroupFacts(i);
    MainRightGroupScan(a, g, op, i);
    MainJoin(a, g, op, Group(i));
  }

  /** The later parser on `a op (i)`: the group is the right operand. */
  lemma MainRightGroup(a: string, g: string, op: BinOp, i: string)
    requires Word(a) && Gap(g) && Balanced(i) && WithoutN(i)
    ensures Parse(Join(a, g, BinSymbol(op), Group(i))) == Binary(op, Parse(a), Parse(i))
  {
    MainRightGroupSplit(a, g, op, i);
    GroupElision(i);
  }

  /** The later scan over `(l) sym (r)` jumps over the first group and the
      gap; the text is not one group because the first one closes early. */
  lemma GroupsLeftScan(l: string, g: string, sym: string, r: string, best: Option<Split>)
    requires Balanced(l) && Gap(g) && Key(sym)
    requires FitsIn(Join(Group(l), g, sym, Group(r)), best)
    ensures var t := Join(Group(l), g, sym, Group(r));
      ScanFrom(t, 0, best) == ScanFrom(t, |Group(l)| + |g|, best) && MatchParen(t, 0) == |Group(l)| - 1
  {
    var a := Group(l);
    var b := Group(r);
    var t := Join(a, g, sym, b);
    assert t[0..|l| + 2] == a;
    ScanGroup(t, 0, l, best);
    GroupAt(t, 0, l);
    PlainRange(a, g, sym, b, |a|, |a| + |g|, best);
  }

  /** The later scan on `(l) op (r)` jumps over both groups and finds the operator between them. */
  lemma MainGroupsScan(l: string, g: string, op: BinOp, r: string)
    requires Balanced(l) && Gap(g) && Balanced(r)
    ensures PicksOperator(Group(l), g, op, Group(r))
    ensures MatchParen(Join(Group(l), g, BinSymbol(op), Group(r)), 0) == |Group(l)| - 1
  {
    var sym := BinSymbol(op);
    var sp := Some(Split(|Group(l)| + |g|, Bin(op)));
    SymbolKey(op);
    GroupsLeftScan(l, g, sym, r, None);
    GroupRightScan(Group(l), g, sym, r, sp);
  }

  /** The later parser on `(l) op (r)` splits at the operator. */
  lemma MainGroupsSplit(l: string, g: string, op: BinOp, r: string)
    requires Balanced(l) && WithoutN(l) && Gap(g) && Balanced(r) && WithoutN(r)
    ensures Parse(Join(Group(l), g, BinSymbol(op), Group(r))) == Binary(op, Parse(Group(l)), Parse(Group(r)))
  {
    GroupFacts(l);
    GroupFacts(r);
    MainGroupsScan(l, g, op, r);
    MainJoin(Group(l), g, op, Group(r));
  }

  /** The later parser on `(l) op (r)`: both groups are operands. */
  lemma MainGroups(l: string, g: string, op: BinOp, r: string)
    requires Balanced(l) && WithoutN(l) && Gap(g) && Balanced(r) && WithoutN(r)
    ensures Parse(Join(Group(l), g, BinSymbol(op), Group(r))) == Binary(op, Parse(l), Parse(r))
  {
    MainGroupsSplit(l, g, op, r);
    GroupElision(l);
    GroupElision(r);
  }
}
