/** The JavaScript string built-ins the condition engine relies on: `trim`,
    `indexOf`/`includes`, `slice` and `replace` with a string pattern. Strings
    are sequences of UTF-16 code units in JavaScript; here they are `seq<char>`.
    The functions are written character by character so that the verifier can
    also evaluate them on the concrete labels of the scenario lemmas. */
module JsString {

  /** JavaScript's WhiteSpace and LineTerminator characters, the set `trim` removes. */
  predicate IsSpace(c: char) {
    c == ' ' || c == '\t' || c == '\n' || c == '\r' || c == '\U{000B}' || c == '\U{000C}'
    || c == '\U{00A0}' || c == '\U{FEFF}' || c == '\U{1680}' || ('\U{2000}' <= c <= '\U{200A}')
    || c == '\U{2028}' || c == '\U{2029}' || c == '\U{202F}' || c == '\U{205F}' || c == '\U{3000}'
  }

  /** `s.trimStart()`. */
  function TrimStart(s: string): (r: string)
    ensures |r| <= |s|
  {
    if s != [] && IsSpace(s[0]) then TrimStart(s[1..]) else s
  }

  /** `s.trimEnd()`. */
  function TrimEnd(s: string): (r: string)
    ensures |r| <= |s|
  {
    if s != [] && IsSpace(s[|s| - 1]) then TrimEnd(s[..|s| - 1]) else s
  }

  /** `s.trim()`. */
  function Trim(s: string): (r: string)
    ensures |r| <= |s|
  {
    TrimEnd(TrimStart(s))
  }

  /** `trimStart` removes exactly the leading white space. */
  lemma {:induction false} TrimStartSpec(s: string)
    ensures TrimStart(s) == s[|s| - |TrimStart(s)|..]
    ensures TrimStart(s) == [] || !IsSpace(TrimStart(s)[0])
    ensures forall i :: 0 <= i < |s| - |TrimStart(s)| ==> IsSpace(s[i])
  {
    if s != [] && IsSpace(s[0]) {
      TrimStartSpec(s[1..]);
    }
  }

  /** `trimEnd` removes exactly the trailing white space. */
  lemma {:induction false} TrimEndSpec(s: string)
    ensures TrimEnd(s) == s[..|TrimEnd(s)|]
    ensures TrimEnd(s) == [] || !IsSpace(TrimEnd(s)[|TrimEnd(s)| - 1])
    ensures forall i :: |TrimEnd(s)| <= i < |s| ==> IsSpace(s[i])
  {
    if s != [] && IsSpace(s[|s| - 1]) {
      TrimEndSpec(s[..|s| - 1]);
    }
  }

  /** Trimmed text neither starts nor ends with white space, and it is a
      contiguous piece of the original text. */
  lemma TrimSpec(s: string)
    ensures var r := Trim(s);
      (r == [] || (!IsSpace(r[0]) && !IsSpace(r[|r| - 1])))
      && r == s[|s| - |TrimStart(s)|..][..|r|]
  {
    TrimStartSpec(s);
    var t := TrimStart(s);
    TrimEndSpec(t);
    var r := TrimEnd(t);
    if r != [] {
      assert r[0] == t[0];
    }
  }

  /** Trimming takes nothing from text that neither starts nor ends with white space. */
  lemma TrimUnpadded(s: string)
    requires s == [] || (!IsSpace(s[0]) && !IsSpace(s[|s| - 1]))
    ensures Trim(s) == s
  {
  }

  /** Trimming twice is trimming once. */
  lemma TrimIdempotent(s: string)
    ensures Trim(Trim(s)) == Trim(s)
  {
    TrimSpec(s);
    TrimUnpadded(Trim(s));
  }

  /** Text made only of white space trims to the empty string. */
  lemma {:induction false} TrimBlank(s: string)
    requires forall i :: 0 <= i < |s| ==> IsSpace(s[i])
    ensures Trim(s) == []
  {
    TrimStartSpec(s);
  }

  /** A space after unpadded text is trimmed away. */
  lemma TrimSpaceAfter(a: string)
    requires a != [] && !IsSpace(a[0]) && !IsSpace(a[|a| - 1])
    ensures Trim(a + " ") == a
  {
    var t := a + " ";
    assert t[0] == a[0];
    assert TrimStart(t) == t;
    assert t[..|t| - 1] == a;
    assert TrimEnd(t) == TrimEnd(a) == a;
  }

  /** A space before unpadded text is trimmed away. */
  lemma TrimSpaceBefore(b: string)
    requires b != [] && !IsSpace(b[0]) && !IsSpace(b[|b| - 1])
    ensures Trim(" " + b) == b
  {
    var t := " " + b;
    assert t[1..] == b;
    assert TrimStart(t) == TrimStart(b) == b;
    assert TrimEnd(b) == b;
  }

  /** `m` occurs in `s` at index `i`, compared character by character. */
  predicate At(s: string, m: string, i: nat)
    decreases |m|
  {
    if m == [] then i <= |s| else i < |s| && s[i] == m[0] && At(s, m[1..], i + 1)
  }

  lemma {:induction false} AtIsSlice(s: string, m: string, i: nat)
    ensures At(s, m, i) <==> i + |m| <= |s| && s[i..i + |m|] == m
  {
    if m != [] && i < |s| {
      AtIsSlice(s, m[1..], i + 1);
      if i + |m| <= |s| {
        var a := s[i..i + |m|];
        assert a[1..] == s[i + 1..i + 1 + |m[1..]|];
        if a[0] == m[0] && a[1..] == m[1..] {
          assert a == [a[0]] + a[1..];
          assert m == [m[0]] + m[1..];
        }
      }
    }
  }

  /** `s.indexOf(m, from)` for a non-negative `from`, and -1 when there is no occurrence. */
  function IndexOf(s: string, m: string, from: nat): (r: int)
    ensures r == -1 || (from <= r && r + |m| <= |s|)
    decreases |s| - from
  {
    if from + |m| > |s| then -1
    else if At(s, m, from) then from
    else IndexOf(s, m, from + 1)
  }

  /** `indexOf` returns the first occurrence at or after `from`, or -1 when there is none. */
  lemma {:induction false} IndexOfSpec(s: string, m: string, from: nat)
    ensures var r := IndexOf(s, m, from);
      (r == -1 || (from <= r && At(s, m, r)))
      && forall i :: from <= i && (r == -1 || i < r) ==> !At(s, m, i)
    decreases |s| - from
  {
    forall i | from + |m| > |s| && from <= i
      ensures !At(s, m, i)
    {
      AtIsSlice(s, m, i);
    }
    if from + |m| <= |s| && !At(s, m, from) {
      IndexOfSpec(s, m, from + 1);
    }
  }

  /** The converse: an occurrence at `k` with none in `[from, k)` is what `indexOf` finds. */
  lemma IndexOfFirst(s: string, m: string, from: nat, k: nat)
    requires from <= k && At(s, m, k)
    requires forall i :: from <= i < k ==> !At(s, m, i)
    ensures IndexOf(s, m, from) == k
  {
    IndexOfSpec(s, m, from);
  }

  /** `s.includes(m)`. */
  predicate Contains(s: string, m: string) {
    IndexOf(s, m, 0) >= 0
  }

  lemma ContainsIffAt(s: string, m: string)
    ensures Contains(s, m) <==> exists i: nat :: At(s, m, i)
  {
    IndexOfSpec(s, m, 0);
  }

  /** The index `slice` uses for an argument `i` on a string of length `len`:
      negative arguments count from the end, and the result is clamped to [0, len]. */
  function SliceIndex(i: int, len: nat): (r: nat)
    ensures r <= len
    ensures 0 <= i <= len ==> r == i
  {
    if i < 0 then (if len + i < 0 then 0 else len + i) else if i > len then len else i
  }

  /** `s.slice(start, end)`, with JavaScript's handling of negative and oversized arguments. */
  function Slice(s: string, start: int, end: int): (r: string)
    ensures 0 <= start <= end <= |s| ==> r == s[start..end]
    ensures |r| <= |s|
    ensures start > 0 && s != [] ==> |r| < |s|
  {
    var a := SliceIndex(start, |s|);
    var b := SliceIndex(end, |s|);
    if a < b then s[a..b] else []
  }

  /** `s.slice(start)`. */
  function SliceFrom(s: string, start: int): (r: string)
    ensures 0 <= start <= |s| ==> r == s[start..]
  {
    Slice(s, start, |s|)
  }

  /** `s.replace(pat, rep)` with a string pattern: only the first occurrence is replaced. */
  function ReplaceFirst(s: string, pat: string, rep: string): string
  {
    var i := IndexOf(s, pat, 0);
    if i < 0 then s else s[..i] + rep + s[i + |pat|..]
  }

  /** Replacing a pattern by a text no longer than it never lengthens the string,
      and text without the pattern is left alone. */
  lemma ReplaceFirstShrinks(s: string, pat: string, rep: string)
    requires |rep| <= |pat|
    ensures |ReplaceFirst(s, pat, rep)| <= |s|
    ensures !Contains(s, pat) ==> ReplaceFirst(s, pat, rep) == s
  {
    IndexOfSpec(s, pat, 0);
    if IndexOf(s, pat, 0) >= 0 {
      AtIsSlice(s, pat, IndexOf(s, pat, 0));
    }
  }

  /** A pattern at the very start is the occurrence `replace` rewrites. */
  lemma ReplaceLeading(m: string, rest: string, rep: string)
    requires m != []
    ensures ReplaceFirst(m + rest, m, rep) == rep + rest
  {
    var s := m + rest;
    AtIsSlice(s, m, 0);
    assert s[0..|m|] == m;
    IndexOfFirst(s, m, 0, 0);
    assert s[|m|..] == rest;
  }

  /** Wrapping text in two characters that do not occur in `m` shifts every
      occurrence of `m` by one and adds none. */
  lemma WrappedAt(t: string, m: string, c1: char, c2: char, i: nat)
    requires m != []
    requires forall k :: 0 <= k < |m| ==> m[k] != c1 && m[k] != c2
    ensures At([c1] + t + [c2], m, i + 1) <==> At(t, m, i)
    ensures !At([c1] + t + [c2], m, 0)
  {
    WrappedShift(t, m, c1, c2, i);
    WrappedStart(t, m, c1, c2);
  }

  lemma WrappedShift(t: string, m: string, c1: char, c2: char, i: nat)
    requires m != [] && m[|m| - 1] != c2
    ensures At([c1] + t + [c2], m, i + 1) <==> At(t, m, i)
  {
    var s := [c1] + t + [c2];
    AtIsSlice(s, m, i + 1);
    AtIsSlice(t, m, i);
    if i + |m| <= |t| {
      assert s[1..|t| + 1] == t;
      assert s[i + 1..i + 1 + |m|] == s[1..|t| + 1][i..i + |m|];
    } else if i + 1 + |m| <= |s| {
      var w := s[i + 1..i + 1 + |m|];
      assert w[|m| - 1] == s[|s| - 1] == c2;
      assert w != m;
    }
  }

  lemma WrappedStart(t: string, m: string, c1: char, c2: char)
    requires m != [] && m[0] != c1
    ensures !At([c1] + t + [c2], m, 0)
  {
    var s := [c1] + t + [c2];
    AtIsSlice(s, m, 0);
    if |m| <= |s| {
      assert s[0..|m|][0] == s[0] == c1;
    }
  }

  /** ... so `indexOf` finds the same occurrence, one place later. */
  lemma WrappedIndex(t: string, m: string, c1: char, c2: char)
    requires m != []
    requires forall k :: 0 <= k < |m| ==> m[k] != c1 && m[k] != c2
    ensures var j := IndexOf(t, m, 0);
      IndexOf([c1] + t + [c2], m, 0) == if j >= 0 then j + 1 else -1
  {
    var s := [c1] + t + [c2];
    IndexOfSpec(t, m, 0);
    var j := IndexOf(t, m, 0);
    if j >= 0 {
      WrappedAt(t, m, c1, c2, j);
      forall i | 0 <= i < j + 1
        ensures !At(s, m, i)
      {
        WrappedAt(t, m, c1, c2, if i == 0 then 0 else i - 1);
      }
      IndexOfFirst(s, m, 0, j + 1);
    } else {
      IndexOfSpec(s, m, 0);
      var r := IndexOf(s, m, 0);
      if r >= 0 {
        WrappedAt(t, m, c1, c2, if r == 0 then 0 else r - 1);
      }
    }
  }

  /** ... and `replace` rewrites that occurrence inside the wrapping. */
  lemma ReplaceWrapped(t: string, m: string, rep: string, c1: char, c2: char)
    requires m != []
    requires forall k :: 0 <= k < |m| ==> m[k] != c1 && m[k] != c2
    ensures ReplaceFirst([c1] + t + [c2], m, rep) == [c1] + ReplaceFirst(t, m, rep) + [c2]
  {
    var s := [c1] + t + [c2];
    WrappedIndex(t, m, c1, c2);
    var j := IndexOf(t, m, 0);
    if j >= 0 {
      var r := j + 1;
      assert ReplaceFirst(s, m, rep) == s[..r] + rep + s[r + |m|..];
      assert ReplaceFirst(t, m, rep) == t[..j] + rep + t[j + |m|..];
      assert s[..r] == [c1] + t[..j];
      assert s[r + |m|..] == t[j + |m|..] + [c2];
    }
  }

  /** A pattern after a prefix that lacks its first character is the
      occurrence `replace` rewrites. */
  lemma ReplaceAfter(x: string, m: string, z: string, rep: string)
    requires m != []
    requires forall i :: 0 <= i < |x| ==> x[i] != m[0]
    ensures ReplaceFirst(x + m + z, m, rep) == x + rep + z
  {
    var s := x + m + z;
    AtIsSlice(s, m, |x|);
    assert s[|x|..|x| + |m|] == m;
    forall i | 0 <= i < |x|
      ensures !At(s, m, i)
    {
      assert s[i] == x[i];
    }
    IndexOfFirst(s, m, 0, |x|);
    assert s[..|x|] == x;
    assert s[|x| + |m|..] == z;
  }

  /** Text in which the first character of `m` never appears does not contain `m`. */
  lemma AbsentFirstChar(s: string, m: string)
    requires m != []
    requires forall i :: 0 <= i < |s| ==> s[i] != m[0]
    ensures !Contains(s, m)
  {
    IndexOfSpec(s, m, 0);
  }

  /** An occurrence after a prefix is an occurrence in the rest. */
  lemma {:induction false} AtShift(x: string, y: string, m: string, i: nat)
    ensures At(x + y, m, |x| + i) <==> At(y, m, i)
    decreases |m|
  {
    if m != [] && i < |y| {
      assert (x + y)[|x| + i] == y[i];
      AtShift(x, y, m[1..], i + 1);
    }
  }

  /** Searching after a prefix is searching the rest. */
  lemma {:induction false} IndexOfShift(x: string, y: string, m: string, from: nat)
    ensures IndexOf(x + y, m, |x| + from) == (if IndexOf(y, m, from) < 0 then -1 else |x| + IndexOf(y, m, from))
    decreases |y| - from
  {
    AtShift(x, y, m, from);
    if from + |m| <= |y| && !At(y, m, from) {
      IndexOfShift(x, y, m, from + 1);
    }
  }
}
