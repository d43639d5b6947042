/** `lowestPrecedence`: the left-to-right scan that picks the operator a
    text is split at. It jumps over parenthesised groups, tries a
    two-character table key before a one-character one, and keeps the
    latest operator whose precedence is at most that of the best so far. */
module Scanner {
  import opened Syntax
  import opened Parens

  /** The `[index, length]` pair the scan returns; the length is `Width(tok)`. */
  datatype Split = Split(pos: nat, tok: Token)

  predicate FitsIn(s: string, best: Option<Split>) {
    best.Some? ==> best.value.pos + Width(best.value.tok) <= |s|
  }

  /** Whether an operator `t` met by the scan replaces the best so far. For a
      two-character key the source also accepts equal precedence when
      `precedence[nextTwo] !== "**"`; that compares a number with a string and
      always holds, so both branches come down to "at most the best so far". */
  predicate Replaces(t: Token, best: Option<Split>) {
    best.None? || Precedence(t) <= Precedence(best.value.tok)
  }

  /** The two-character table key starting at `i`, if any. */
  function TwoAt(s: string, i: nat): (r: Option<Token>)
    ensures r.Some? ==> i + 1 < |s| && Width(r.value) == 2
  {
    if i + 1 < |s| then TwoCharToken(s[i], s[i + 1]) else None
  }

  /** The scan loop from index `i` with `best` found so far. */
  function ScanFrom(s: string, i: nat, best: Option<Split>): (r: Option<Split>)
    requires FitsIn(s, best)
    ensures FitsIn(s, r)
    decreases |s| - i
  {
    if i >= |s| then best
    else if s[i] == '(' then ScanFrom(s, MatchParen(s, i) + 1, best)
    else match TwoAt(s, i) {
      case Some(t) => ScanFrom(s, i + 2, if Replaces(t, best) then Some(Split(i, t)) else best)
      case None =>
        match OneCharToken(s[i]) {
          case Some(t) => ScanFrom(s, i + 1, if Replaces(t, best) then Some(Split(i, t)) else best)
          case None => ScanFrom(s, i + 1, best)
        }
    }
  }

  /** The split `lowestPrecedence` reports for `s`; `None` is its empty array. */
  function LowestSplit(s: string): (r: Option<Split>)
    ensures FitsIn(s, r)
  {
    ScanFrom(s, 0, None)
  }

  /** `lowestPrecedence(string)`. */
  method LowestPrecedence(s: string) returns (op: Option<Split>)
    ensures op == LowestSplit(s)
  {
    op := None;
    var i := 0;
    while i < |s|
      invariant FitsIn(s, op)
      invariant ScanFrom(s, i, op) == LowestSplit(s)
      decreases |s| - i
    {
      if s[i] == '(' {
        var m := FindMatchingParentheses(s, i);
        i := m + 1;
        continue;
      }
      var two := TwoAt(s, i);
      if two.Some? {
        if Replaces(two.value, op) {
          op := Some(Split(i, two.value));
        }
        i := i + 1;
      } else {
        var one := OneCharToken(s[i]);
        if one.Some? && Replaces(one.value, op) {
          op := Some(Split(i, one.value));
        }
      }
      i := i + 1;
    }
  }

  /** Every operator occurrence the scan visits from `i`, in order. */
  function Occurrences(s: string, i: nat): seq<Split>
    decreases |s| - i
  {
    if i >= |s| then []
    else if s[i] == '(' then Occurrences(s, MatchParen(s, i) + 1)
    else match TwoAt(s, i) {
      case Some(t) => [Split(i, t)] + Occurrences(s, i + 2)
      case None =>
        match OneCharToken(s[i]) {
          case Some(t) => [Split(i, t)] + Occurrences(s, i + 1)
          case None => Occurrences(s, i + 1)
        }
    }
  }

  /** The scan's choice rule applied to a list of occurrences. */
  function Pick(best: Option<Split>, occ: seq<Split>): Option<Split>
    decreases |occ|
  {
    if occ == [] then best
    else Pick(if Replaces(occ[0].tok, best) then Some(occ[0]) else best, occ[1..])
  }

  predicate Increasing(occ: seq<Split>) {
    forall a, b :: 0 <= a < b < |occ| ==> occ[a].pos < occ[b].pos
  }

  /** `o` has the lowest precedence in `occ`, and every later occurrence has a
      strictly higher one: among ties the last one. */
  predicate IsLastMinimum(occ: seq<Split>, o: Split) {
    o in occ
    && (forall x :: x in occ ==> Precedence(o.tok) <= Precedence(x.tok))
    && (forall x :: x in occ && x.pos > o.pos ==> Precedence(o.tok) < Precedence(x.tok))
  }

  /** Every `(` before index `p` is matched before `p`: `p` lies outside every group. */
  predicate Closed(s: string, p: nat) {
    forall q :: 0 <= q < p && q < |s| && s[q] == '(' ==> MatchParen(s, q) < p
  }

  /** The occurrence is the table key written at its position, and a
      one-character key there is only taken when no two-character key starts there. */
  predicate TokenAt(s: string, o: Split) {
    if Width(o.tok) == 2 then TwoAt(s, o.pos) == Some(o.tok)
    else o.pos < |s| && TwoAt(s, o.pos) == None && OneCharToken(s[o.pos]) == Some(o.tok)
  }

  lemma {:induction false} ScanIsPick(s: string, i: nat, best: Option<Split>)
    requires FitsIn(s, best)
    ensures ScanFrom(s, i, best) == Pick(best, Occurrences(s, i))
    decreases |s| - i
  {
    if i < |s| {
      if s[i] == '(' {
        ScanIsPick(s, MatchParen(s, i) + 1, best);
      } else {
        var two := TwoAt(s, i);
        var nb := if two.Some? && Replaces(two.value, best) then Some(Split(i, two.value)) else best;
        if two.Some? {
          ScanIsPick(s, i + 2, nb);
          assert ([Split(i, two.value)] + Occurrences(s, i + 2))[1..] == Occurrences(s, i + 2);
        } else {
          var one := OneCharToken(s[i]);
          if one.Some? {
            var nb1 := if Replaces(one.value, best) then Some(Split(i, one.value)) else best;
            ScanIsPick(s, i + 1, nb1);
            assert ([Split(i, one.value)] + Occurrences(s, i + 1))[1..] == Occurrences(s, i + 1);
          } else {
            ScanIsPick(s, i + 1, best);
          }
        }
      }
    }
  }

  /** The choice rule keeps the last minimum of everything seen so far. */
  lemma {:induction false} PickSpec(seen: seq<Split>, best: Option<Split>, occ: seq<Split>)
    requires (best.None? && seen == []) || (best.Some? && IsLastMinimum(seen, best.value))
    requires Increasing(seen + occ)
    ensures var r := Pick(best, occ);
      (r.None? <==> seen + occ == [])
      && (r.Some? ==> IsLastMinimum(seen + occ, r.value))
    decreases |occ|
  {
    if occ == [] {
      assert seen + occ == seen;
    } else {
      var x := occ[0];
      var nb := if Replaces(x.tok, best) then Some(x) else best;
      var seen' := seen + [x];
      assert seen' + occ[1..] == seen + occ;
      forall y | y in seen
        ensures y.pos < x.pos
      {
        var a :| 0 <= a < |seen| && seen[a] == y;
        assert (seen + occ)[a] == y && (seen + occ)[|seen|] == x;
      }
      PickSpec(seen', nb, occ[1..]);
    }
  }

  /** The occurrences visited from `i` come in increasing order, and each is
      the table key written at its position, at or after `i`, outside every group. */
  predicate Placed(s: string, i: nat, occ: seq<Split>) {
    Increasing(occ) && forall o :: o in occ ==> i <= o.pos && TokenAt(s, o) && Closed(s, o.pos)
  }

  lemma PrependIncreasing(x: Split, occ: seq<Split>)
    requires Increasing(occ)
    requires forall o :: o in occ ==> x.pos < o.pos
    ensures Increasing([x] + occ)
  {
    var l := [x] + occ;
    forall a, b | 0 <= a < b < |l|
      ensures l[a].pos < l[b].pos
    {
      assert l[b] == occ[b - 1];
      if a > 0 {
        assert l[a] == occ[a - 1];
      }
    }
  }

  lemma PlacedCons(s: string, x: Split, occ: seq<Split>, j: nat)
    requires Placed(s, j, occ) && x.pos < j && TokenAt(s, x) && Closed(s, x.pos)
    ensures Placed(s, x.pos, [x] + occ)
  {
    PrependIncreasing(x, occ);
    forall o | o in [x] + occ
      ensures x.pos <= o.pos && TokenAt(s, o) && Closed(s, o.pos)
    {
      if o != x {
        assert o in occ;
      }
    }
  }

  /** Moving past a group: everything placed from after its match is placed from its start. */
  lemma PlacedEarlier(s: string, i: nat, j: nat, occ: seq<Split>)
    requires i <= j && Placed(s, j, occ)
    ensures Placed(s, i, occ)
  {
  }

  /** A scan position outside every group stays outside after a non-`(` character. */
  lemma ClosedStep(s: string, i: nat, k: nat)
    requires Closed(s, i) && i <= k
    requires forall q :: i <= q < k && q < |s| ==> s[q] != '('
    ensures Closed(s, k)
  {
  }

  lemma {:induction false} OccurrencesFacts(s: string, i: nat)
    requires Closed(s, i)
    ensures Placed(s, i, Occurrences(s, i))
    decreases |s| - i
  {
    if i < |s| {
      if s[i] == '(' {
        var m := MatchParen(s, i);
        if m < |s| {
          GroupClosed(s, i);
          OccurrencesFacts(s, m + 1);
          PlacedEarlier(s, i, m + 1, Occurrences(s, m + 1));
        }
      } else if TwoAt(s, i).Some? {
        ClosedStep(s, i, i + 2);
        OccurrencesFacts(s, i + 2);
        PlacedCons(s, Split(i, TwoAt(s, i).value), Occurrences(s, i + 2), i + 2);
      } else {
        ClosedStep(s, i, i + 1);
        OccurrencesFacts(s, i + 1);
        OneCharPlaced(s, i);
      }
    }
  }

  /** Past a group whose match is in the text, every `(` before is matched before. */
  lemma GroupClosed(s: string, i: nat)
    requires Closed(s, i) && i < |s| && s[i] == '(' && MatchParen(s, i) < |s|
    ensures Closed(s, MatchParen(s, i) + 1)
  {
    var m := MatchParen(s, i);
    MatchParenCloses(s, i);
    forall q | 0 <= q < m + 1 && q < |s| && s[q] == '('
      ensures MatchParen(s, q) < m + 1
    {
      if i < q {
        MatchNested(s, i, q);
      }
    }
  }

  /** The step of `OccurrencesFacts` at a character that starts no two-character key. */
  lemma OneCharPlaced(s: string, i: nat)
    requires Closed(s, i) && i < |s| && s[i] != '(' && TwoAt(s, i).None?
    requires Placed(s, i + 1, Occurrences(s, i + 1))
    ensures Placed(s, i, Occurrences(s, i))
  {
    var one := OneCharToken(s[i]);
    if one.Some? {
      PlacedCons(s, Split(i, one.value), Occurrences(s, i + 1), i + 1);
    } else {
      PlacedEarlier(s, i, i + 1, Occurrences(s, i + 1));
    }
  }

  /** The split point is minimal: `lowestPrecedence` reports nothing exactly
      when the scan visits no operator, and otherwise reports the last of the
      visited occurrences with the lowest precedence. */
  lemma LowestSplitSpec(s: string)
    ensures var occ := Occurrences(s, 0);
      (LowestSplit(s).None? <==> occ == [])
      && (LowestSplit(s).Some? ==> IsLastMinimum(occ, LowestSplit(s).value))
  {
    ScanIsPick(s, 0, None);
    OccurrencesFacts(s, 0);
    assert [] + Occurrences(s, 0) == Occurrences(s, 0);
    PickSpec([], None, Occurrences(s, 0));
  }

  /** Every occurrence the scan visits is the table key written at its
      position (two-character keys first) and lies outside every parenthesised group. */
  lemma OccurrencesPlaced(s: string)
    ensures forall o :: o in Occurrences(s, 0) ==> TokenAt(s, o) && Closed(s, o.pos)
  {
    OccurrencesFacts(s, 0);
  }

  /** Equal precedence: the later operator wins, so `8-3-2` splits at the second `-`. */
  lemma SubtractionSplitsAtLast()
    ensures LowestSplit("8-3-2") == Some(Split(3, Bin(Sub)))
  {
  }

  /** The same holds for `**`: `2**3**2` splits at the second `**`. */
  lemma PowerSplitsAtLast()
    ensures LowestSplit("2**3**2") == Some(Split(4, Bin(Pow)))
  {
  }

  /** A two-character key is taken before its one-character prefix: `5>=6` splits at `>=`. */
  lemma TwoCharacterKeyFirst()
    ensures LowestSplit("5>=6") == Some(Split(1, Bin(Ge)))
  {
  }
}
