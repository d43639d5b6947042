/** `findMatchingParentheses`: the counting scan that finds the `)` closing
    the `(` at a given index. */
module Parens {

  /** How a character moves the nesting count. */
  function Delta(c: char): int {
    if c == '(' then 1 else if c == ')' then -1 else 0
  }

  /** Number of `(` minus number of `)` in `t`. */
  function Balance(t: string): int {
    if t == [] then 0 else Balance(t[..|t| - 1]) + Delta(t[|t| - 1])
  }

  lemma {:induction false} BalanceConcat(a: string, b: string)
    ensures Balance(a + b) == Balance(a) + Balance(b)
    decreases |b|
  {
    if b == [] {
      assert a + b == a;
    } else {
      assert (a + b)[..|a + b| - 1] == a + b[..|b| - 1];
      BalanceConcat(a, b[..|b| - 1]);
    }
  }

  /** The nesting count once the scan that starts after the `(` at `start`
      has read the character at index `j`. */
  function Depth(s: string, start: nat, j: nat): int
    requires start < j < |s|
  {
    1 + Balance(s[start + 1..j + 1])
  }

  /** The scan loop from index `i` with the count at `count`: the index
      whose character brings the count to zero, or `|s|` when the text ends first. */
  function MatchFrom(s: string, i: nat, count: int): (r: nat)
    ensures r <= |s|
    ensures i <= |s| ==> i <= r
    decreases |s| - i
  {
    if i >= |s| then |s|
    else
      var c := count + Delta(s[i]);
      if c == 0 then i else MatchFrom(s, i + 1, c)
  }

  /** The index of the `)` matching the `(` at `start`, or `|s|` when there is none. */
  function MatchParen(s: string, start: nat): (r: nat)
    ensures r <= |s|
    ensures start < |s| ==> start < r
  {
    MatchFrom(s, start + 1, 1)
  }

  /** `findMatchingParentheses(str, start)`. */
  method FindMatchingParentheses(s: string, start: nat) returns (r: nat)
    ensures r == MatchParen(s, start)
  {
    var count := 1;
    var i := start + 1;
    while count > 0
      invariant start + 1 <= i
      invariant count >= 0
      invariant i <= |s| || count == 1
      invariant count > 0 ==> MatchFrom(s, i, count) == MatchParen(s, start)
      invariant count == 0 ==> i - 1 == MatchParen(s, start)
      decreases if i <= |s| then |s| - i else 0, count
    {
      if i >= |s| {
        return |s|;
      }
      if s[i] == '(' {
        count := count + 1;
      }
      if s[i] == ')' {
        count := count - 1;
      }
      i := i + 1;
    }
    return i - 1;
  }

  lemma {:induction false} DepthStep(s: string, start: nat, j: nat)
    requires start + 1 < j < |s|
    ensures Depth(s, start, j) == Depth(s, start, j - 1) + Delta(s[j])
  {
    assert s[start + 1..j + 1][..j - start - 1] == s[start + 1..j];
  }

  lemma DepthFirst(s: string, start: nat)
    requires start + 1 < |s|
    ensures Depth(s, start, start + 1) == 1 + Delta(s[start + 1])
  {
    var t := s[start + 1..start + 2];
    assert t[..0] == [];
    assert Balance(t) == Balance(t[..0]) + Delta(t[0]);
  }

  /** The loop's own characterisation: scanning on from `i` with the count
      equal to the depth reached so far stops at the first index where the
      depth is zero, or at `|s|`. */
  lemma {:induction false} MatchFromSpec(s: string, start: nat, i: nat, count: int)
    requires start < i <= |s|
    requires count > 0
    requires i == start + 1 ==> count == 1
    requires i > start + 1 ==> count == Depth(s, start, i - 1)
    requires forall j :: start < j < i ==> Depth(s, start, j) > 0
    ensures var r := MatchFrom(s, i, count);
      i <= r <= |s|
      && (r < |s| ==> Depth(s, start, r) == 0)
      && forall j :: start < j < r ==> Depth(s, start, j) > 0
    decreases |s| - i
  {
    if i < |s| {
      if i == start + 1 {
        DepthFirst(s, start);
      } else {
        DepthStep(s, start, i);
      }
      var c := count + Delta(s[i]);
      if c != 0 {
        MatchFromSpec(s, start, i + 1, c);
      }
    }
  }

  /** The matching index is the first index after `start` where the depth
      falls to zero; `|s|` means the depth stays positive to the end. Both
      directions: any `r` with that description is what the matcher returns. */
  lemma MatchParenIsFirstZero(s: string, start: nat, r: nat)
    requires start < r <= |s|
    ensures MatchParen(s, start) == r <==>
      (forall j :: start < j < r ==> Depth(s, start, j) > 0)
      && (r < |s| ==> Depth(s, start, r) == 0)
  {
    MatchFromSpec(s, start, start + 1, 1);
  }

  /** A match inside the text is a `)`, and the text from `start` to it is balanced. */
  lemma MatchParenCloses(s: string, start: nat)
    requires start < |s| && s[start] == '('
    requires MatchParen(s, start) < |s|
    ensures var r := MatchParen(s, start);
      s[r] == ')' && Balance(s[start..r + 1]) == 0
  {
    var r := MatchParen(s, start);
    MatchFromSpec(s, start, start + 1, 1);
    if r == start + 1 {
      DepthFirst(s, start);
    } else {
      DepthStep(s, start, r);
    }
    assert s[start..r + 1] == [s[start]] + s[start + 1..r + 1];
    BalanceConcat([s[start]], s[start + 1..r + 1]);
    assert [s[start]][..0] == [];
  }

  /** The depth relative to an outer `(` is the depth reached just before an
      inner `(` plus the depth relative to the inner one. */
  lemma DepthSplit(s: string, q0: nat, q: nat, j: nat)
    requires q0 < q < j < |s| && s[q] == '('
    ensures Depth(s, q0, j) == 1 + Balance(s[q0 + 1..q]) + Depth(s, q, j)
  {
    assert s[q0 + 1..j + 1] == s[q0 + 1..q] + [s[q]] + s[q + 1..j + 1];
    BalanceConcat(s[q0 + 1..q] + [s[q]], s[q + 1..j + 1]);
    BalanceConcat(s[q0 + 1..q], [s[q]]);
    assert [s[q]][..0] == [];
  }

  /** A group opened inside another group closes before the outer group does. */
  lemma MatchNested(s: string, q0: nat, q: nat)
    requires q0 < q < MatchParen(s, q0) < |s|
    requires s[q] == '('
    ensures q < MatchParen(s, q) < MatchParen(s, q0)
  {
    var m := MatchParen(s, q0);
    MatchFromSpec(s, q0, q0 + 1, 1);
    MatchFromSpec(s, q, q + 1, 1);
    var base := 1 + Balance(s[q0 + 1..q]);
    if q > q0 + 1 {
      assert base == Depth(s, q0, q - 1);
    }
    assert base > 0;
    DepthSplit(s, q0, q, m);
  }
}
