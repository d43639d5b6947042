/** The tag handling of `Choice.parseAll`: locating the `<dis>…</dis>` and
    `<hide>…</hide>` regions of a choice label, taking out their expression
    text, and removing them from the label. */
module Tags {
  import opened JsString
  import opened Syntax

  const OpenDis: string := "<dis>"
  const CloseDis: string := "</dis>"
  const OpenHide: string := "<hide>"
  const CloseHide: string := "</hide>"

  /** Where a region was found: the index of its open marker and of the close
      marker after it, both -1 when the label lacks either marker, and the
      raw expression text between them. */
  datatype Found = Found(start: int, end: int, raw: Option<string>)

  /** One `if (this.text.includes(open) && this.text.includes(close))` block. */
  function Locate(t: string, open: string, close: string): (f: Found)
    ensures f.raw.Some? <==> f.start >= 0
  {
    if Contains(t, open) && Contains(t, close) then
      var s := IndexOf(t, open, 0);
      var e := IndexOf(t, close, s + 1);
      Found(s, e, Some(Slice(t, s + |open|, e)))
    else Found(-1, -1, None)
  }

  /** The label once the disable region starting at `ds` (its close marker
      at `de`) and the hide region at `hs` (closing at `he`) are cut out, by
      the four cases of the source; a start of -1 means no region, and with
      neither region the label is unchanged. */
  function Strip(t: string, ds: int, de: int, hs: int, he: int): string {
    if ds >= 0 && hs < 0 then
      Slice(t, 0, ds) + SliceFrom(t, de + |CloseDis|)
    else if ds < 0 && hs >= 0 then
      Slice(t, 0, hs) + SliceFrom(t, he + |CloseHide|)
    else if ds < hs then
      Slice(t, 0, ds) + Slice(t, de + |CloseDis|, hs) + SliceFrom(t, he + |CloseHide|)
    else if ds > hs then
      Slice(t, 0, hs) + Slice(t, he + |CloseHide|, ds) + SliceFrom(t, de + |CloseDis|)
    else t
  }

  /** The new label and the raw texts of the two regions, if present. */
  datatype Extraction = Extraction(text: string, disableRaw: Option<string>, hideRaw: Option<string>)

  function Extract(t: string): Extraction {
    var d := Locate(t, OpenDis, CloseDis);
    var h := Locate(t, OpenHide, CloseHide);
    Extraction(Strip(t, d.start, d.end, h.start, h.end), d.raw, h.raw)
  }

  /** A marker starts with `<` and has no other `<`. */
  predicate TagShaped(k: string) {
    |k| >= 2 && k[0] == '<' && forall j :: 1 <= j < |k| ==> k[j] != '<'
  }

  /** A label piece that holds none of the four markers. */
  predicate Free(p: string) {
    !Contains(p, OpenDis) && !Contains(p, CloseDis) && !Contains(p, OpenHide) && !Contains(p, CloseHide)
  }

  /** Text without `<` holds no marker. */
  lemma Unmarked(p: string)
    requires '<' !in p
    ensures Free(p)
  {
    assert forall i :: 0 <= i < |p| ==> p[i] != '<';
    AbsentFirstChar(p, OpenDis);
    AbsentFirstChar(p, CloseDis);
    AbsentFirstChar(p, OpenHide);
    AbsentFirstChar(p, CloseHide);
  }

  lemma MarkersTagShaped()
    ensures TagShaped(OpenDis) && TagShaped(CloseDis) && TagShaped(OpenHide) && TagShaped(CloseHide)
  {
  }

  lemma AtPrefix(a: string, b: string, k: string, i: nat)
    requires i + |k| <= |a|
    ensures At(a + b, k, i) <==> At(a, k, i)
  {
    AtIsSlice(a + b, k, i);
    AtIsSlice(a, k, i);
    assert (a + b)[i..i + |k|] == a[i..i + |k|];
  }

  /** No occurrence of a marker starts in `a` and ends in `b` when `b` starts with `<`. */
  lemma NoStraddle(a: string, b: string, k: string, i: nat)
    requires TagShaped(k) && b != [] && b[0] == '<'
    requires i < |a| < i + |k|
    ensures !At(a + b, k, i)
  {
    AtIsSlice(a + b, k, i);
    if i + |k| <= |a + b| {
      assert (a + b)[i..i + |k|][|a| - i] == b[0];
    }
  }

  /** The first occurrence of a marker from `from` on is where `b` starts,
      when `a` holds none from `from` on. */
  lemma FirstMarker(a: string, b: string, k: string, from: nat)
    requires TagShaped(k) && At(b, k, 0)
    requires from <= |a|
    requires forall i: nat :: from <= i ==> !At(a, k, i)
    ensures IndexOf(a + b, k, from) == |a|
  {
    AtShift(a, b, k, 0);
    forall i | from <= i < |a|
      ensures !At(a + b, k, i)
    {
      if i + |k| <= |a| {
        AtPrefix(a, b, k, i);
      } else {
        NoStraddle(a, b, k, i);
      }
    }
    IndexOfFirst(a + b, k, from, |a|);
  }

  /** Joining two marker-free texts does not create a marker when the second starts with `<`. */
  lemma AbsentJoin(a: string, b: string, k: string)
    requires TagShaped(k) && !Contains(a, k) && !Contains(b, k)
    requires b == [] || b[0] == '<'
    ensures !Contains(a + b, k)
  {
    ContainsIffAt(a, k);
    ContainsIffAt(b, k);
    ContainsIffAt(a + b, k);
    forall i: nat
      ensures !At(a + b, k, i)
    {
      if i >= |a| {
        AtShift(a, b, k, i - |a|);
      } else if i + |k| <= |a| {
        AtPrefix(a, b, k, i);
      } else if b == [] {
        AtIsSlice(a + b, k, i);
      } else {
        NoStraddle(a, b, k, i);
      }
    }
  }

  /** Text without `<` followed by text without the marker holds no marker. */
  lemma AbsentAfterPlain(q: string, r: string, k: string)
    requires TagShaped(k) && !Contains(r, k)
    requires forall j :: 0 <= j < |q| ==> q[j] != '<'
    ensures !Contains(q + r, k)
  {
    ContainsIffAt(r, k);
    ContainsIffAt(q + r, k);
    forall i: nat
      ensures !At(q + r, k, i)
    {
      if i >= |q| {
        AtShift(q, r, k, i - |q|);
      } else {
        AtIsSlice(q + r, k, i);
      }
    }
  }

  /** A different marker followed by text without `k` holds no `k`; the two
      markers differ at index `j`. */
  lemma AbsentAfterMarker(m: string, rest: string, k: string, j: nat)
    requires TagShaped(m) && TagShaped(k) && !Contains(rest, k)
    requires 0 < j < |m| && j < |k| && m[j] != k[j]
    ensures !Contains(m + rest, k)
  {
    AbsentAfterPlain(m[1..], rest, k);
    ContainsIffAt(m[1..] + rest, k);
    ContainsIffAt(m + rest, k);
    assert m + rest == [m[0]] + (m[1..] + rest);
    forall i: nat
      ensures !At(m + rest, k, i)
    {
      if i >= 1 {
        AtShift([m[0]], m[1..] + rest, k, i - 1);
      } else {
        AtIsSlice(m + rest, k, 0);
      }
    }
  }

  /** A region `open r close` placed after marker-free text `p` is where
      `Locate` finds it, with `r` as its raw text. */
  lemma RegionLocated(p: string, open: string, r: string, close: string, rest: string)
    requires TagShaped(open) && TagShaped(close)
    requires !Contains(p, open) && !Contains(r, close)
    ensures Locate(p + open + r + close + rest, open, close)
      == Found(|p|, |p| + |open| + |r|, Some(r))
  {
    var t := p + open + r + close + rest;
    OpenLocated(p, open, r + close + rest);
    assert t == p + open + (r + close + rest);
    CloseLocated(p, open, r, close, rest);
    var e := |p| + |open| + |r|;
    assert t[|p| + |open|..e] == r;
  }

  /** The open marker is found right after marker-free text `p`. */
  lemma OpenLocated(p: string, open: string, rest: string)
    requires TagShaped(open) && !Contains(p, open)
    ensures IndexOf(p + open + rest, open, 0) == |p|
    ensures Contains(p + open + rest, open)
  {
    var t := p + open + rest;
    var b := open + rest;
    assert t == p + b;
    AtIsSlice(b, open, 0);
    assert b[0..|open|] == open;
    ContainsIffAt(p, open);
    FirstMarker(p, b, open, 0);
    ContainsIffAt(t, open);
  }

  /** The close marker is found after the text `r` that follows the open marker. */
  lemma CloseLocated(p: string, open: string, r: string, close: string, rest: string)
    requires TagShaped(open) && TagShaped(close) && !Contains(r, close)
    ensures IndexOf(p + open + r + close + rest, close, |p| + 1) == |p| + |open| + |r|
    ensures Contains(p + open + r + close + rest, close)
  {
    var t := p + open + r + close + rest;
    // the close marker is searched from the character after `<`
    var x := p + [open[0]];
    var y := open[1..] + r + close + rest;
    assert t == x + y;
    IndexOfShift(x, y, close, 0);
    var q := open[1..] + r;
    var c := close + rest;
    assert y == q + c;
    AtIsSlice(c, close, 0);
    assert c[0..|close|] == close;
    AbsentAfterPlain(open[1..], r, close);
    ContainsIffAt(q, close);
    FirstMarker(q, c, close, 0);
    assert IndexOf(t, close, |p| + 1) == |p| + |open| + |r|;
    IndexOfSpec(t, close, |p| + 1);
    ContainsIffAt(t, close);
  }

  /** No piece holds marker `k` and the two markers of the region differ from
      `k` at indices `j1` and `j2`: then the whole label holds no `k`. */
  lemma AbsentInPlacement(p0: string, om: string, r: string, cm: string, p1: string, k: string, j1: nat, j2: nat)
    requires TagShaped(om) && TagShaped(cm) && TagShaped(k)
    requires !Contains(p0, k) && !Contains(r, k) && !Contains(p1, k)
    requires 0 < j1 < |om| && j1 < |k| && om[j1] != k[j1]
    requires 0 < j2 < |cm| && j2 < |k| && cm[j2] != k[j2]
    ensures !Contains(p0 + om + r + cm + p1, k)
  {
    AbsentAfterMarker(cm, p1, k, j2);
    AbsentJoin(r, cm + p1, k);
    AbsentAfterMarker(om, r + (cm + p1), k, j1);
    AbsentJoin(p0, om + (r + (cm + p1)), k);
    assert p0 + om + r + cm + p1 == p0 + (om + (r + (cm + p1)));
  }

  /** A label holding neither a complete disable region nor a complete hide
      region is left as it is. */
  lemma NoRegion(t: string)
    requires !Contains(t, OpenDis) || !Contains(t, CloseDis)
    requires !Contains(t, OpenHide) || !Contains(t, CloseHide)
    ensures Extract(t) == Extraction(t, None, None)
  {
  }

  /** Only a disable region: the label is the text before and after it, and
      the raw expression is the text between the markers. */
  lemma DisableOnly(p0: string, r: string, p1: string)
    requires Free(p0) && Free(r) && Free(p1)
    ensures Extract(p0 + OpenDis + r + CloseDis + p1) == Extraction(p0 + p1, Some(r), None)
  {
    var t := p0 + OpenDis + r + CloseDis + p1;
    MarkersTagShaped();
    RegionLocated(p0, OpenDis, r, CloseDis, p1);
    AbsentInPlacement(p0, OpenDis, r, CloseDis, p1, OpenHide, 1, 1);
    assert t[..|p0|] == p0;
    assert t[|p0| + 5 + |r| + 6..] == p1;
  }

  /** A disable region at the very start: the label is the text after it. */
  lemma DisableFirst(r: string, rest: string)
    requires Free(r) && Free(rest)
    ensures Extract(OpenDis + r + CloseDis + rest) == Extraction(rest, Some(r), None)
  {
    Unmarked("");
    DisableOnly("", r, rest);
    assert "" + OpenDis == OpenDis;
    assert "" + rest == rest;
  }

  /** Only a hide region, likewise. */
  lemma HideOnly(p0: string, r: string, p1: string)
    requires Free(p0) && Free(r) && Free(p1)
    ensures Extract(p0 + OpenHide + r + CloseHide + p1) == Extraction(p0 + p1, None, Some(r))
  {
    var t := p0 + OpenHide + r + CloseHide + p1;
    MarkersTagShaped();
    RegionLocated(p0, OpenHide, r, CloseHide, p1);
    AbsentInPlacement(p0, OpenHide, r, CloseHide, p1, OpenDis, 1, 1);
    assert t[..|p0|] == p0;
    assert t[|p0| + 6 + |r| + 7..] == p1;
  }

  /** A disable region and then a hide region: the label is the three outside
      pieces in their order. */
  lemma DisableThenHide(p0: string, r1: string, p1: string, r2: string, p2: string)
    requires Free(p0) && Free(r1) && Free(p1) && Free(r2) && Free(p2)
    ensures Extract(p0 + OpenDis + r1 + CloseDis + p1 + OpenHide + r2 + CloseHide + p2)
      == Extraction(p0 + p1 + p2, Some(r1), Some(r2))
  {
    var front := p0 + OpenDis + r1 + CloseDis + p1;
    var t := front + OpenHide + r2 + CloseHide + p2;
    MarkersTagShaped();
    FirstRegion(p0, OpenDis, r1, CloseDis, p1, OpenHide + r2 + CloseHide + p2);
    assert t == p0 + OpenDis + r1 + CloseDis + p1 + (OpenHide + r2 + CloseHide + p2);
    AbsentInPlacement(p0, OpenDis, r1, CloseDis, p1, OpenHide, 1, 1);
    RegionLocated(front, OpenHide, r2, CloseHide, p2);
    CutTwo(p0, OpenDis, r1, CloseDis, p1, OpenHide, r2, CloseHide, p2);
  }

  /** Both regions, the first at the very start of the label: the label is
      the text between them and the text after the second. */
  lemma BothFirst(r1: string, p1: string, r2: string, p2: string)
    requires Free(r1) && Free(p1) && Free(r2) && Free(p2)
    ensures Extract(OpenDis + r1 + CloseDis + p1 + OpenHide + r2 + CloseHide + p2)
      == Extraction(p1 + p2, Some(r1), Some(r2))
    ensures Extract(OpenHide + r1 + CloseHide + p1 + OpenDis + r2 + CloseDis + p2)
      == Extraction(p1 + p2, Some(r2), Some(r1))
  {
    Unmarked("");
    DisableThenHide("", r1, p1, r2, p2);
    HideThenDisable("", r1, p1, r2, p2);
    assert "" + OpenDis == OpenDis && "" + OpenHide == OpenHide;
    assert "" + p1 == p1;
  }

  /** The first of two regions is located as if it were alone. */
  lemma FirstRegion(p0: string, open: string, r: string, close: string, p1: string, more: string)
    requires TagShaped(open) && TagShaped(close)
    requires !Contains(p0, open) && !Contains(r, close)
    ensures Locate(p0 + open + r + close + p1 + more, open, close)
      == Found(|p0|, |p0| + |open| + |r|, Some(r))
  {
    assert p0 + open + r + close + p1 + more == p0 + open + r + close + (p1 + more);
    RegionLocated(p0, open, r, close, p1 + more);
  }

  /** Cutting two regions out of a label leaves the three pieces around them. */
  lemma CutTwo(p0: string, o1: string, r1: string, c1: string, p1: string, o2: string, r2: string, c2: string, p2: string)
    ensures var t := p0 + o1 + r1 + c1 + p1 + o2 + r2 + c2 + p2;
      var s2 := |p0| + |o1| + |r1| + |c1| + |p1|;
      Slice(t, 0, |p0|) + Slice(t, |p0| + |o1| + |r1| + |c1|, s2) + SliceFrom(t, s2 + |o2| + |r2| + |c2|)
        == p0 + p1 + p2
  {
    var t := p0 + o1 + r1 + c1 + p1 + o2 + r2 + c2 + p2;
    var s2 := |p0| + |o1| + |r1| + |c1| + |p1|;
    assert t[..|p0|] == p0;
    assert t[|p0| + |o1| + |r1| + |c1|..s2] == p1;
    assert t[s2 + |o2| + |r2| + |c2|..] == p2;
  }

  /** A hide region and then a disable region, likewise. */
  lemma HideThenDisable(p0: string, r1: string, p1: string, r2: string, p2: string)
    requires Free(p0) && Free(r1) && Free(p1) && Free(r2) && Free(p2)
    ensures Extract(p0 + OpenHide + r1 + CloseHide + p1 + OpenDis + r2 + CloseDis + p2)
      == Extraction(p0 + p1 + p2, Some(r2), Some(r1))
  {
    var front := p0 + OpenHide + r1 + CloseHide + p1;
    var t := front + OpenDis + r2 + CloseDis + p2;
    MarkersTagShaped();
    FirstRegion(p0, OpenHide, r1, CloseHide, p1, OpenDis + r2 + CloseDis + p2);
    assert t == p0 + OpenHide + r1 + CloseHide + p1 + (OpenDis + r2 + CloseDis + p2);
    AbsentInPlacement(p0, OpenHide, r1, CloseHide, p1, OpenDis, 1, 1);
    RegionLocated(front, OpenDis, r2, CloseDis, p2);
    CutTwo(p0, OpenHide, r1, CloseHide, p1, OpenDis, r2, CloseDis, p2);
  }
}
