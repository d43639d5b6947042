/** The `Choice` class and the two list resolvers that run every choice of
    a `Show Choices` command: `updateChoicesState` for the command list of
    the choice window, `previewChoicesState` for the labels the window is
    sized by. Both versions of the plugin share this code; the `Dialect`
    selects the version's `parse` and `interp`. */
module Choices {
  import opened JsString
  import opened Syntax
  import opened Tags
  import opened Parser
  import opened Early
  import opened Interp

  /** `this.parse(raw)` of the version. */
  function Compile(d: Dialect, raw: string): Expr {
    match d
    case Main => Parse(raw)
    case Early => EarlyParse(raw)
  }

  /** The expression field after `parseAll`: a region found replaces it. */
  function Compiled(d: Dialect, raw: Option<string>, prior: Option<Expr>): Option<Expr> {
    match raw
    case Some(t) => Some(Compile(d, t))
    case None => prior
  }

  /** The flag field after `interpAll`: `if (this.disableExpr)` holds for
      every stored tree, whose value then replaces the flag. */
  function Flagged(d: Dialect, e: Option<Expr>, prior: Result, vars: real -> real): Result {
    match e
    case Some(x) => Eval(d, x, vars)
    case None => prior
  }

  /** What `run()` leaves in a fresh choice: the caption without its regions,
      and the values of the two flags, `false` where there is no region. */
  datatype Outcome = Outcome(text: string, disabled: Result, hidden: Result)

  function Resolution(d: Dialect, caption: string, vars: real -> real): Outcome {
    var x := Extract(caption);
    Outcome(
      x.text,
      Flagged(d, Compiled(d, x.disableRaw, None), Ok(Bool(false)), vars),
      Flagged(d, Compiled(d, x.hideRaw, None), Ok(Bool(false)), vars))
  }

  class Choice {
    const dialect: Dialect
    var text: string
    var disabled: Result
    var hidden: Result
    var disableExpr: Option<Expr>
    var hideExpr: Option<Expr>

    /** `Choice.initialize(text)`. */
    constructor(d: Dialect, caption: string)
      ensures dialect == d && text == caption
      ensures disabled == Ok(Bool(false)) && hidden == Ok(Bool(false))
      ensures disableExpr == None && hideExpr == None
    {
      dialect := d;
      text := caption;
      disabled := Ok(Bool(false));
      hidden := Ok(Bool(false));
      disableExpr := None;
      hideExpr := None;
    }

    method CompileText(raw: string) returns (e: Expr)
      ensures e == Compile(dialect, raw)
    {
      if dialect == Main {
        e := Parse(raw);
      } else {
        e := ParseEarly(raw);
      }
    }

    /** `Choice.parseAll()`: compiles the regions it finds and cuts them out of the caption. */
    method ParseAll()
      modifies this
      ensures var x := Extract(old(text));
        text == x.text
        && disableExpr == Compiled(dialect, x.disableRaw, old(disableExpr))
        && hideExpr == Compiled(dialect, x.hideRaw, old(hideExpr))
      ensures disabled == old(disabled) && hidden == old(hidden)
    {
      var dStart, dEnd, dRaw := FindRegion(text, OpenDis, CloseDis);
      if dRaw.Some? {
        var e := CompileText(dRaw.value);
        disableExpr := Some(e);
      }
      var hStart, hEnd, hRaw := FindRegion(text, OpenHide, CloseHide);
      if hRaw.Some? {
        var e := CompileText(hRaw.value);
        hideExpr := Some(e);
      }
      text := Strip(text, dStart, dEnd, hStart, hEnd);
    }

    /** `Choice.interpAll()`: each stored tree's value becomes its flag. */
    method InterpAll(vars: real -> real)
      modifies this
      ensures disabled == Flagged(dialect, disableExpr, old(disabled), vars)
      ensures hidden == Flagged(dialect, hideExpr, old(hidden), vars)
      ensures text == old(text) && disableExpr == old(disableExpr) && hideExpr == old(hideExpr)
    {
      if disableExpr.Some? {
        disabled := Eval(dialect, disableExpr.value, vars);
      }
      if hideExpr.Some? {
        hidden := Eval(dialect, hideExpr.value, vars);
      }
    }

    /** `Choice.run()`. */
    method Run(vars: real -> real)
      modifies this
      ensures var x := Extract(old(text));
        text == x.text
        && disabled == Flagged(dialect, Compiled(dialect, x.disableRaw, old(disableExpr)), old(disabled), vars)
        && hidden == Flagged(dialect, Compiled(dialect, x.hideRaw, old(hideExpr)), old(hidden), vars)
    {
      ParseAll();
      InterpAll(vars);
    }
  }

  /** One `if (this.text.includes(open) && this.text.includes(close))` block of
      `parseAll`: the positions of the markers and the raw text between them. */
  method FindRegion(t: string, open: string, close: string) returns (start: int, end: int, raw: Option<string>)
    ensures Found(start, end, raw) == Locate(t, open, close)
  {
    start := -1;
    end := -1;
    raw := None;
    if Contains(t, open) && Contains(t, close) {
      start := IndexOf(t, open, 0);
      end := IndexOf(t, close, start + 1);
      raw := Some(Slice(t, start + |open|, end));
    }
  }

  /** A fresh choice run on `caption`, as the two resolvers do for each entry. */
  method Resolve(d: Dialect, caption: string, vars: real -> real) returns (o: Outcome)
    ensures o == Resolution(d, caption, vars)
  {
    var c := new Choice(d, caption);
    c.Run(vars);
    o := Outcome(c.text, c.disabled, c.hidden);
  }

  /** A caption with no complete region keeps its text, and neither flag is set. */
  lemma PlainLabel(d: Dialect, caption: string, vars: real -> real)
    requires !Contains(caption, OpenDis) || !Contains(caption, CloseDis)
    requires !Contains(caption, OpenHide) || !Contains(caption, CloseHide)
    ensures Resolution(d, caption, vars) == Outcome(caption, Ok(Bool(false)), Ok(Bool(false)))
  {
    NoRegion(caption);
  }

  /** Only a disable region: the caption is the outside pieces, the disable
      flag is the value of the region's expression, and the hide flag stays false. */
  lemma DisableRegion(d: Dialect, p0: string, r: string, p1: string, vars: real -> real)
    requires Free(p0) && Free(r) && Free(p1)
    ensures Resolution(d, p0 + OpenDis + r + CloseDis + p1, vars)
      == Outcome(p0 + p1, Eval(d, Compile(d, r), vars), Ok(Bool(false)))
  {
    DisableOnly(p0, r, p1);
  }

  /** A label that starts with its disable region, as the tests' labels do. */
  lemma DisableLabel(d: Dialect, r: string, rest: string, vars: real -> real)
    requires Free(r) && Free(rest)
    ensures Resolution(d, OpenDis + r + CloseDis + rest, vars)
      == Outcome(rest, Eval(d, Compile(d, r), vars), Ok(Bool(false)))
  {
    DisableFirst(r, rest);
  }

  /** Only a hide region, likewise. */
  lemma HideRegion(d: Dialect, p0: string, r: string, p1: string, vars: real -> real)
    requires Free(p0) && Free(r) && Free(p1)
    ensures Resolution(d, p0 + OpenHide + r + CloseHide + p1, vars)
      == Outcome(p0 + p1, Ok(Bool(false)), Eval(d, Compile(d, r), vars))
  {
    HideOnly(p0, r, p1);
  }

  /** Both regions, in either order: the caption is the outside pieces, and
      each flag is the value of its own region's expression. */
  lemma BothRegions(d: Dialect, p0: string, r1: string, p1: string, r2: string, p2: string, vars: real -> real)
    requires Free(p0) && Free(r1) && Free(p1) && Free(r2) && Free(p2)
    ensures Resolution(d, p0 + OpenDis + r1 + CloseDis + p1 + OpenHide + r2 + CloseHide + p2, vars)
      == Outcome(p0 + p1 + p2, Eval(d, Compile(d, r1), vars), Eval(d, Compile(d, r2), vars))
    ensures Resolution(d, p0 + OpenHide + r1 + CloseHide + p1 + OpenDis + r2 + CloseDis + p2, vars)
      == Outcome(p0 + p1 + p2, Eval(d, Compile(d, r2), vars), Eval(d, Compile(d, r1), vars))
  {
    DisableThenHide(p0, r1, p1, r2, p2);
    HideThenDisable(p0, r1, p1, r2, p2);
  }

  /** Both regions, the first at the start of the label, in either order. */
  lemma TwoRegionLabel(d: Dialect, r1: string, p1: string, r2: string, p2: string, vars: real -> real)
    requires Free(r1) && Free(p1) && Free(r2) && Free(p2)
    ensures Resolution(d, OpenDis + r1 + CloseDis + p1 + OpenHide + r2 + CloseHide + p2, vars)
      == Outcome(p1 + p2, Eval(d, Compile(d, r1), vars), Eval(d, Compile(d, r2), vars))
    ensures Resolution(d, OpenHide + r1 + CloseHide + p1 + OpenDis + r2 + CloseDis + p2, vars)
      == Outcome(p1 + p2, Eval(d, Compile(d, r2), vars), Eval(d, Compile(d, r1), vars))
  {
    BothFirst(r1, p1, r2, p2);
  }

  //------------------------------------------------------------------------
  // The resolvers

  /** An entry of the window's command list. */
  datatype Command = Command(name: string, symbol: string, enabled: bool)

  /** The resolution of every caption under one dialect and variable table. */
  function Runner(d: Dialect, vars: real -> real): string -> Outcome {
    (t: string) => Resolution(d, t, vars)
  }

  /** An entry is hidden when its hide flag is truthy. */
  function Hides(run: string -> Outcome): Command -> bool {
    (c: Command) => Flag(run(c.name).hidden)
  }

  /** An entry after the first loop: the stripped caption, enabled unless the disable flag is truthy. */
  function Updates(run: string -> Outcome): Command -> Command {
    (c: Command) => c.(name := run(c.name).text, enabled := !Flag(run(c.name).disabled))
  }

  function HidesCaption(run: string -> Outcome): string -> bool {
    (t: string) => Flag(run(t).hidden)
  }

  function Strips(run: string -> Outcome): string -> string {
    (t: string) => run(t).text
  }

  /** The entries of `lst` that `gone` does not mark as hidden, each mapped by `f`, in order. */
  function Visible<T, U>(lst: seq<T>, gone: T -> bool, f: T -> U): seq<U> {
    if lst == [] then []
    else
      (if gone(lst[0]) then [] else [f(lst[0])]) + Visible(lst[1..], gone, f)
  }

  /** The list `updateChoicesState` is meant to return: the entries that are
      not hidden, in their order, each updated. */
  function VisibleCommands(d: Dialect, lst: seq<Command>, vars: real -> real): seq<Command> {
    Visible(lst, Hides(Runner(d, vars)), Updates(Runner(d, vars)))
  }

  /** The list `previewChoicesState` is meant to return: the stripped captions
      of the entries that are not hidden, in their order. */
  function VisibleLabels(d: Dialect, lst: seq<string>, vars: real -> real): seq<string> {
    Visible(lst, HidesCaption(Runner(d, vars)), Strips(Runner(d, vars)))
  }

  predicate Ascending(del: seq<nat>) {
    forall a, b :: 0 <= a < b < |del| ==> del[a] < del[b]
  }

  /** The entries of `s` whose positions are not listed in `del`, in order;
      `off` is the position of `s[0]`. */
  function Without<T>(s: seq<T>, del: seq<nat>, off: nat): seq<T> {
    if s == [] then [] else (if off in del then [] else [s[0]]) + Without(s[1..], del, off + 1)
  }

  lemma {:induction false} WithoutAppend<T>(a: seq<T>, b: seq<T>, del: seq<nat>, off: nat)
    ensures Without(a + b, del, off) == Without(a, del, off) + Without(b, del, off + |a|)
    decreases |a|
  {
    if a != [] {
      assert (a + b)[1..] == a[1..] + b;
      WithoutAppend(a[1..], b, del, off + 1);
    } else {
      assert a + b == b;
    }
  }

  /** No listed position falls in the range `s` covers: nothing is removed. */
  lemma {:induction false} WithoutUntouched<T>(s: seq<T>, del: seq<nat>, off: nat)
    requires forall x :: x in del ==> x < off || off + |s| <= x
    ensures Without(s, del, off) == s
    decreases |s|
  {
    if s != [] {
      WithoutUntouched(s[1..], del, off + 1);
    }
  }

  /** Where the splice loop has got to after removing the positions `del[k..]`:
      everything before `del[k - 1] + 1` is still there. */
  function Cut(del: seq<nat>, k: nat): nat
    requires k <= |del|
  {
    if k == 0 then 0 else del[k - 1] + 1
  }

  /** No listed position lies strictly between two consecutive ones. */
  lemma BetweenListed(del: seq<nat>, k: nat)
    requires Ascending(del) && 0 < k <= |del|
    ensures Cut(del, k - 1) <= del[k - 1]
    ensures forall x :: x in del ==> x < Cut(del, k - 1) || del[k - 1] <= x
  {
    forall x | x in del
      ensures x < Cut(del, k - 1) || del[k - 1] <= x
    {
      var j :| 0 <= j < |del| && del[j] == x;
      if j < k - 1 {
        assert del[j] <= del[k - 2];
      }
    }
  }

  /** Removing the listed positions from `s0[c..]` when the first listed one
      at or after `c` is `el`: the entries before `el` stay and `el` goes. */
  lemma WithoutFirstListed<T>(s0: seq<T>, del: seq<nat>, c: nat, el: nat)
    requires c <= el < |s0| && el in del
    requires forall x :: x in del ==> x < c || el <= x
    ensures Without(s0[c..], del, c) == s0[c..el] + Without(s0[el + 1..], del, el + 1)
  {
    assert s0[c..] == s0[c..el] + [s0[el]] + s0[el + 1..];
    WithoutAppend(s0[c..el] + [s0[el]], s0[el + 1..], del, c);
    WithoutAppend(s0[c..el], [s0[el]], del, c);
    WithoutUntouched(s0[c..el], del, c);
    assert Without([s0[el]], del, el) == [];
  }

  /** One splice: removing position `del[k - 1]` from the list in which the
      positions after it are already removed. */
  lemma SpliceStep<T>(s0: seq<T>, del: seq<nat>, k: nat)
    requires Ascending(del)
    requires 0 < k <= |del| && del[k - 1] < |s0|
    ensures var el := del[k - 1];
      s0[..el] + Without(s0[Cut(del, k)..], del, Cut(del, k))
        == s0[..Cut(del, k - 1)] + Without(s0[Cut(del, k - 1)..], del, Cut(del, k - 1))
  {
    var el := del[k - 1];
    assert Cut(del, k) == el + 1;
    BetweenListed(del, k);
    SpliceJoin(s0, del, Cut(del, k - 1), el);
  }

  /** Removing `el`, the first listed position from `c` on, from the list
      whose positions after `el` are already removed. */
  lemma SpliceJoin<T>(s0: seq<T>, del: seq<nat>, c: nat, el: nat)
    requires c <= el < |s0| && el in del
    requires forall x :: x in del ==> x < c || el <= x
    ensures s0[..el] + Without(s0[el + 1..], del, el + 1) == s0[..c] + Without(s0[c..], del, c)
  {
    WithoutFirstListed(s0, del, c, el);
    PrefixJoin(s0, c, el, Without(s0[el + 1..], del, el + 1), Without(s0[c..], del, c));
  }

  lemma PrefixJoin<T>(s: seq<T>, c: nat, el: nat, w: seq<T>, v: seq<T>)
    requires c <= el <= |s| && v == s[c..el] + w
    ensures s[..el] + w == s[..c] + v
  {
    assert s[..c] + s[c..el] == s[..el];
  }

  /** Dropping index `el` from `s0[..el + 1] + w` leaves `s0[..el] + w`. */
  lemma DropAt<T>(s0: seq<T>, w: seq<T>, el: nat, s: seq<T>)
    requires el < |s0| && s == s0[..el + 1] + w
    ensures s[..el] + s[el + 1..] == s0[..el] + w
  {
    assert s[..el] == s0[..el];
    assert s[el + 1..] == w;
  }

  /** One turn of the splice loop keeps its invariant. */
  lemma SpliceAdvance<T>(s0: seq<T>, del: seq<nat>, k: nat, s: seq<T>)
    requires Ascending(del)
    requires 0 < k <= |del| && del[k - 1] < |s0|
    requires s == s0[..Cut(del, k)] + Without(s0[Cut(del, k)..], del, Cut(del, k))
    ensures s[..del[k - 1]] + s[del[k - 1] + 1..]
      == s0[..Cut(del, k - 1)] + Without(s0[Cut(del, k - 1)..], del, Cut(del, k - 1))
  {
    var el := del[k - 1];
    SpliceStep(s0, del, k);
    DropAt(s0, Without(s0[Cut(del, k)..], del, Cut(del, k)), el, s);
  }

  /** The second loop of both resolvers: `splice(el, 1)` for every listed
      position, from the last one to the first, so that each position still
      names the entry it named in the original list. */
  method SpliceOut<T>(s0: seq<T>, del: seq<nat>) returns (s: seq<T>)
    requires Ascending(del)
    requires forall k :: 0 <= k < |del| ==> del[k] < |s0|
    ensures s == Without(s0, del, 0)
  {
    s := s0;
    var k := |del|;
    WithoutUntouched(s0[Cut(del, k)..], del, Cut(del, k));
    assert s0 == s0[..Cut(del, k)] + s0[Cut(del, k)..];
    while k > 0
      invariant 0 <= k <= |del|
      invariant s == s0[..Cut(del, k)] + Without(s0[Cut(del, k)..], del, Cut(del, k))
      decreases k
    {
      var el := del[k - 1];
      SpliceAdvance(s0, del, k, s);
      s := s[..el] + s[el + 1..];
      k := k - 1;
    }
    assert s0[0..] == s0;
  }

  /** The positions listed in `del` are exactly those `gone` marks as hidden, and
      `upd` is `lst` mapped by `f`: removing the listed positions leaves the
      visible entries. */
  lemma {:induction false} WithoutIsVisible<T, U>(upd: seq<U>, lst: seq<T>, del: seq<nat>, off: nat, gone: T -> bool, f: T -> U)
    requires |upd| == |lst|
    requires forall j :: 0 <= j < |lst| ==> upd[j] == f(lst[j])
    requires forall j :: 0 <= j < |lst| ==> (off + j in del <==> gone(lst[j]))
    ensures Without(upd, del, off) == Visible(lst, gone, f)
    decreases |lst|
  {
    if lst != [] {
      assert off + 0 in del <==> gone(lst[0]);
      forall j | 0 <= j < |lst| - 1
        ensures (off + 1 + j in del <==> gone(lst[1..][j]))
      {
        assert off + (j + 1) in del <==> gone(lst[j + 1]);
      }
      WithoutIsVisible(upd[1..], lst[1..], del, off + 1, gone, f);
    }
  }

  /** Noting position `index` in `del` when its entry is hidden keeps `del`
      the ascending list of the hidden positions seen so far. */
  lemma NoteHidden(del: seq<nat>, del': seq<nat>, index: nat, hidden: seq<bool>)
    requires index < |hidden|
    requires Ascending(del) && forall k :: 0 <= k < |del| ==> del[k] < index
    requires forall j :: 0 <= j < index ==> (j in del <==> hidden[j])
    requires del' == if hidden[index] then del + [index] else del
    ensures Ascending(del') && forall k :: 0 <= k < |del'| ==> del'[k] < index + 1
    ensures forall j :: 0 <= j < index + 1 ==> (j in del' <==> hidden[j])
  {
  }

  /** After the first loop of `updateChoicesState`: removing the noted
      positions from the updated entries leaves the visible commands. */
  lemma UpdatedWithout(lst0: seq<Command>, run: string -> Outcome, upd: seq<Command>, del: seq<nat>)
    requires |upd| == |lst0|
    requires forall j :: 0 <= j < |lst0| ==>
      upd[j] == lst0[j].(name := run(lst0[j].name).text, enabled := !Flag(run(lst0[j].name).disabled))
    requires forall j :: 0 <= j < |lst0| ==> (j in del <==> Flag(run(lst0[j].name).hidden))
    ensures Without(upd, del, 0) == Visible(lst0, Hides(run), Updates(run))
  {
    forall j | 0 <= j < |lst0|
      ensures upd[j] == Updates(run)(lst0[j]) && (0 + j in del <==> Hides(run)(lst0[j]))
    {
    }
    WithoutIsVisible(upd, lst0, del, 0, Hides(run), Updates(run));
  }

  /** After the first loop of `previewChoicesState`: removing the noted
      positions from the stripped captions leaves the visible ones. */
  lemma PreviewedWithout(lst0: seq<string>, run: string -> Outcome, upd: seq<string>, del: seq<nat>)
    requires |upd| == |lst0|
    requires forall j :: 0 <= j < |lst0| ==> upd[j] == run(lst0[j]).text
    requires forall j :: 0 <= j < |lst0| ==> (j in del <==> Flag(run(lst0[j]).hidden))
    ensures Without(upd, del, 0) == Visible(lst0, HidesCaption(run), Strips(run))
  {
    forall j | 0 <= j < |lst0|
      ensures upd[j] == Strips(run)(lst0[j]) && (0 + j in del <==> HidesCaption(run)(lst0[j]))
    {
    }
    WithoutIsVisible(upd, lst0, del, 0, HidesCaption(run), Strips(run));
  }

  /** The first loop of `updateChoicesState`, with `run` standing for a fresh
      `Choice` run on a caption: every entry gets its stripped caption and is
      enabled unless its disable flag is truthy, and `del` lists, in
      ascending order, the positions whose hide flag is truthy. */
  method MarkEntries(lst0: seq<Command>, run: string -> Outcome) returns (lst: seq<Command>, del: seq<nat>)
    ensures |lst| == |lst0|
    ensures forall j :: 0 <= j < |lst0| ==>
      lst[j] == lst0[j].(name := run(lst0[j].name).text, enabled := !Flag(run(lst0[j].name).disabled))
    ensures Ascending(del) && forall k :: 0 <= k < |del| ==> del[k] < |lst0|
    ensures forall j :: 0 <= j < |lst0| ==> (j in del <==> Flag(run(lst0[j].name).hidden))
  {
    ghost var hidden := seq(|lst0|, j requires 0 <= j < |lst0| => Flag(run(lst0[j].name).hidden));
    del := [];
    lst := lst0;
    for index := 0 to |lst|
      invariant |lst| == |lst0|
      invariant forall j :: 0 <= j < index ==>
        lst[j] == lst0[j].(name := run(lst0[j].name).text, enabled := !Flag(run(lst0[j].name).disabled))
      invariant forall j :: index <= j < |lst| ==> lst[j] == lst0[j]
      invariant Ascending(del) && forall k :: 0 <= k < |del| ==> del[k] < index
      invariant forall j :: 0 <= j < index ==> (j in del <==> hidden[j])
    {
      var choice := lst[index];
      var o := run(choice.name);
      lst := lst[index := lst[index].(enabled := !Flag(o.disabled))];
      lst := lst[index := lst[index].(name := o.text)];
      ghost var del0 := del;
      if Flag(o.hidden) {
        del := del + [index];
      }
      NoteHidden(del0, del, index, hidden);
    }
  }

  /** `updateChoicesState(lst)`: the first loop updates every entry and
      notes the hidden positions, the second removes them in reverse order. */
  method UpdateChoicesState(d: Dialect, lst0: seq<Command>, vars: real -> real) returns (lst: seq<Command>)
    ensures lst == VisibleCommands(d, lst0, vars)
  {
    var upd, del := MarkEntries(lst0, Runner(d, vars));
    lst := SpliceOut(upd, del);
    UpdatedWithout(lst0, Runner(d, vars), upd, del);
  }

  /** The first loop of `previewChoicesState`: each caption is replaced by its
      stripped text, and `del` lists the positions whose hide flag is truthy. */
  method MarkCaptions(lst0: seq<string>, run: string -> Outcome) returns (lst: seq<string>, del: seq<nat>)
    ensures |lst| == |lst0|
    ensures forall j :: 0 <= j < |lst0| ==> lst[j] == run(lst0[j]).text
    ensures Ascending(del) && forall k :: 0 <= k < |del| ==> del[k] < |lst0|
    ensures forall j :: 0 <= j < |lst0| ==> (j in del <==> Flag(run(lst0[j]).hidden))
  {
    ghost var hidden := seq(|lst0|, j requires 0 <= j < |lst0| => Flag(run(lst0[j]).hidden));
    del := [];
    lst := lst0;
    for index := 0 to |lst|
      invariant |lst| == |lst0|
      invariant forall j :: 0 <= j < index ==> lst[j] == run(lst0[j]).text
      invariant forall j :: index <= j < |lst| ==> lst[j] == lst0[j]
      invariant Ascending(del) && forall k :: 0 <= k < |del| ==> del[k] < index
      invariant forall j :: 0 <= j < index ==> (j in del <==> hidden[j])
    {
      var choice := lst[index];
      var o := run(choice);
      lst := lst[index := o.text];
      ghost var del0 := del;
      if Flag(o.hidden) {
        del := del + [index];
      }
      NoteHidden(del0, del, index, hidden);
    }
  }

  /** `previewChoicesState(lst)`: the same on the captions alone. */
  method PreviewChoicesState(d: Dialect, lst0: seq<string>, vars: real -> real) returns (lst: seq<string>)
    ensures lst == VisibleLabels(d, lst0, vars)
  {
    var upd, del := MarkCaptions(lst0, Runner(d, vars));
    lst := SpliceOut(upd, del);
    PreviewedWithout(lst0, Runner(d, vars), upd, del);
  }

  function Names(lst: seq<Command>): (r: seq<string>)
    ensures |r| == |lst| && forall j :: 0 <= j < |lst| ==> r[j] == lst[j].name
  {
    if lst == [] then [] else [lst[0].name] + Names(lst[1..])
  }

  /** The window is sized for exactly the captions it shows: previewing the
      captions gives the names of the updated list. */
  lemma {:induction false} PreviewMatchesUpdate(d: Dialect, lst: seq<Command>, vars: real -> real)
    ensures VisibleLabels(d, Names(lst), vars) == Names(VisibleCommands(d, lst, vars))
  {
    PreviewMatchesUpdateBy(lst, Runner(d, vars));
  }

  lemma {:induction false} PreviewMatchesUpdateBy(lst: seq<Command>, run: string -> Outcome)
    ensures Visible(Names(lst), HidesCaption(run), Strips(run)) == Names(Visible(lst, Hides(run), Updates(run)))
  {
    if lst != [] {
      assert Names(lst)[1..] == Names(lst[1..]);
      PreviewMatchesUpdateBy(lst[1..], run);
      var head := if Hides(run)(lst[0]) then [] else [Updates(run)(lst[0])];
      NamesAppend(head, Visible(lst[1..], Hides(run), Updates(run)));
    }
  }

  lemma NamesAppend(a: seq<Command>, b: seq<Command>)
    ensures Names(a + b) == Names(a) + Names(b)
  {
    if a != [] {
      assert (a + b)[1..] == a[1..] + b;
      NamesAppend(a[1..], b);
    } else {
      assert a + b == b;
    }
  }

  /** An entry survives exactly when it is not hidden, and it survives updated. */
  lemma {:induction false} VisibleMembers<T, U>(lst: seq<T>, gone: T -> bool, f: T -> U, u: U)
    ensures u in Visible(lst, gone, f) <==> exists j :: 0 <= j < |lst| && !gone(lst[j]) && u == f(lst[j])
  {
    if lst != [] {
      VisibleMembers(lst[1..], gone, f, u);
      if u in Visible(lst[1..], gone, f) {
        var j :| 0 <= j < |lst[1..]| && !gone(lst[1..][j]) && u == f(lst[1..][j]);
        assert lst[j + 1] == lst[1..][j];
      }
      if exists j :: 0 <= j < |lst| && !gone(lst[j]) && u == f(lst[j]) {
        var j :| 0 <= j < |lst| && !gone(lst[j]) && u == f(lst[j]);
        if j > 0 {
          assert lst[1..][j - 1] == lst[j];
        }
      }
    }
  }

  /** Survivors keep their order: the visible entries at positions `i < j`
      appear in that order in the result. */
  lemma {:induction false} VisibleKeepsOrder<T, U>(lst: seq<T>, gone: T -> bool, f: T -> U, i: nat, j: nat)
    requires i < j < |lst| && !gone(lst[i]) && !gone(lst[j])
    ensures exists a, b ::
      0 <= a < b < |Visible(lst, gone, f)|
      && Visible(lst, gone, f)[a] == f(lst[i]) && Visible(lst, gone, f)[b] == f(lst[j])
  {
    var rest := Visible(lst[1..], gone, f);
    if i == 0 {
      assert lst[1..][j - 1] == lst[j];
      VisibleMembers(lst[1..], gone, f, f(lst[j]));
      var b :| 0 <= b < |rest| && rest[b] == f(lst[j]);
      assert Visible(lst, gone, f) == [f(lst[0])] + rest;
      assert Visible(lst, gone, f)[0] == f(lst[i]);
      assert Visible(lst, gone, f)[b + 1] == f(lst[j]);
    } else {
      assert lst[1..][i - 1] == lst[i] && lst[1..][j - 1] == lst[j];
      VisibleKeepsOrder(lst[1..], gone, f, i - 1, j - 1);
      var a, b :| 0 <= a < b < |rest| && rest[a] == f(lst[i]) && rest[b] == f(lst[j]);
      var head := if gone(lst[0]) then [] else [f(lst[0])];
      assert Visible(lst, gone, f) == head + rest;
      assert Visible(lst, gone, f)[|head| + a] == f(lst[i]);
      assert Visible(lst, gone, f)[|head| + b] == f(lst[j]);
    }
  }
}
