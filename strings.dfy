/** String operations of the Python runtime that the field-path code relies on:
    `str.split` and `str.join` on a one-character separator, `int()` and `str()`
    on decimal text, `str.replace` with an empty replacement, and the
    "append if not already present" de-duplication loop. */
module Strings {
  import opened Wrappers

  // ---------------------------------------------------------------------------
  // split / join on one character
  // ---------------------------------------------------------------------------

  /** `s.split(c)`: the pieces between the occurrences of `c`, always at least one. */
  function Split(s: string, c: char): (parts: seq<string>)
    ensures |parts| >= 1
    decreases |s|
  {
    if s == [] then [""]
    else if s[0] == c then [""] + Split(s[1..], c)
    else
      var rest := Split(s[1..], c);
      [[s[0]] + rest[0]] + rest[1..]
  }

  /** `c.join(parts)`. */
  function Join(parts: seq<string>, c: char): string
    decreases |parts|
  {
    if parts == [] then ""
    else if |parts| == 1 then parts[0]
    else parts[0] + [c] + Join(parts[1..], c)
  }

  /** Number of occurrences of `c` in `s`. */
  function Count(s: string, c: char): nat
    decreases |s|
  {
    if s == [] then 0 else (if s[0] == c then 1 else 0) + Count(s[1..], c)
  }

  lemma {:induction false} CountIn(s: string, c: char)
    ensures c in s <==> Count(s, c) > 0
    decreases |s|
  {
    if s != [] {
      CountIn(s[1..], c);
      assert s == [s[0]] + s[1..];
    }
  }

  lemma {:induction false} SplitPiecesFree(s: string, c: char)
    ensures forall k :: 0 <= k < |Split(s, c)| ==> c !in Split(s, c)[k]
    ensures |Split(s, c)| == Count(s, c) + 1
    decreases |s|
  {
    if s != [] {
      SplitPiecesFree(s[1..], c);
    }
  }

  /** Splitting and joining again gives back the text. */
  lemma {:induction false} JoinSplit(s: string, c: char)
    ensures Join(Split(s, c), c) == s
    decreases |s|
  {
    if s != [] {
      JoinSplit(s[1..], c);
      var rest := Split(s[1..], c);
      if s[0] != c {
        if |rest| == 1 {
          assert Split(s, c) == [[s[0]] + rest[0]];
        } else {
          assert Split(s, c)[1..] == rest[1..];
          assert Join(rest, c) == rest[0] + [c] + Join(rest[1..], c);
        }
      }
    }
  }

  /** No piece of a split is longer than the text. */
  lemma LastPieceFits(s: string, c: char)
    ensures var parts := Split(s, c); |parts[|parts| - 1]| <= |s|
  {
    var parts := Split(s, c);
    JoinSplit(s, c);
    if |parts| >= 2 {
      JoinLast(parts, c);
    }
  }

  /** Text free of `c` splits into itself alone. */
  lemma {:induction false} SplitFree(s: string, c: char)
    requires c !in s
    ensures Split(s, c) == [s]
    decreases |s|
  {
    if s != [] {
      assert c !in s[1..];
      SplitFree(s[1..], c);
      assert [s[0]] + s[1..] == s;
    }
  }

  /** `Split(a + [c] + b)` is `Split(a)` followed by `Split(b)`, for `a` free of `c`. */
  lemma {:induction false} SplitAt(a: string, b: string, c: char)
    requires c !in a
    ensures Split(a + [c] + b, c) == [a] + Split(b, c)
    decreases |a|
  {
    if a == [] {
      assert a + [c] + b == [c] + b;
      assert ([c] + b)[1..] == b;
    } else {
      assert (a + [c] + b)[1..] == a[1..] + [c] + b;
      assert (a + [c] + b)[0] == a[0];
      assert c !in a[1..];
      SplitAt(a[1..], b, c);
      assert ([a[1..]] + Split(b, c))[1..] == Split(b, c);
      assert [a[0]] + a[1..] == a;
    }
  }

  /** Joining pieces free of `c` and splitting again gives back the pieces. */
  lemma {:induction false} SplitJoin(parts: seq<string>, c: char)
    requires |parts| >= 1
    requires forall k :: 0 <= k < |parts| ==> c !in parts[k]
    ensures Split(Join(parts, c), c) == parts
    decreases |parts|
  {
    if |parts| == 1 {
      SplitFree(parts[0], c);
    } else {
      SplitJoin(parts[1..], c);
      SplitAt(parts[0], Join(parts[1..], c), c);
      assert [parts[0]] + parts[1..] == parts;
    }
  }

  /** `s.split(c)[0]` when the first `c` is preceded by `a`. */
  lemma SplitHead(a: string, b: string, c: char)
    requires c !in a
    ensures Split(a + [c] + b, c)[0] == a
  {
    SplitAt(a, b, c);
  }

  /** The last piece of a join follows the last separator. */
  lemma {:induction false} JoinLast(parts: seq<string>, c: char)
    requires |parts| >= 2
    ensures Join(parts, c) == Join(parts[..|parts| - 1], c) + [c] + parts[|parts| - 1]
    decreases |parts|
  {
    var n := |parts|;
    if n == 2 {
      assert parts[1..] == [parts[1]];
      assert parts[..1] == [parts[0]];
    } else {
      JoinLast(parts[1..], c);
      var init := parts[..n - 1];
      assert init[1..] == parts[1..][..n - 2];
      assert init[0] == parts[0];
      calc {
        Join(parts, c);
        parts[0] + [c] + Join(parts[1..], c);
        parts[0] + [c] + (Join(init[1..], c) + [c] + parts[n - 1]);
        (parts[0] + [c] + Join(init[1..], c)) + [c] + parts[n - 1];
        Join(init, c) + [c] + parts[n - 1];
      }
    }
  }

  // ---------------------------------------------------------------------------
  // removing characters
  // ---------------------------------------------------------------------------

  /** `s.replace(c, "")` for a one-character `c`. */
  function Remove(s: string, c: char): (r: string)
    ensures c !in r
    ensures |r| == |s| - Count(s, c)
    decreases |s|
  {
    if s == [] then ""
    else (if s[0] == c then "" else [s[0]]) + Remove(s[1..], c)
  }

  lemma {:induction false} RemoveKeepsFree(s: string, c: char)
    requires c !in s
    ensures Remove(s, c) == s
    decreases |s|
  {
    if s != [] {
      assert c !in s[1..];
      RemoveKeepsFree(s[1..], c);
    }
  }

  /** Removal works piecewise: the characters other than `c` are kept, in order. */
  lemma {:induction false} RemoveConcat(a: string, b: string, c: char)
    ensures Remove(a + b, c) == Remove(a, c) + Remove(b, c)
    decreases |a|
  {
    if a == [] {
      assert a + b == b;
    } else {
      assert (a + b)[1..] == a[1..] + b;
      RemoveConcat(a[1..], b, c);
    }
  }

  // ---------------------------------------------------------------------------
  // the text before the first occurrence of a two-character marker
  // ---------------------------------------------------------------------------

  /** The two-character marker `m` occurs in `s` at position `k`. */
  predicate MarkerAt(s: string, k: nat, m: string)
    requires |m| == 2
  {
    k + 2 <= |s| && s[k] == m[0] && s[k + 1] == m[1]
  }

  /** `s.split(m)[0]` for a two-character marker `m`. */
  function BeforeMarker(s: string, m: string): (r: string)
    requires |m| == 2
    ensures |r| <= |s| && r == s[..|r|]
    ensures forall k: nat :: k < |r| ==> !MarkerAt(s, k, m)
    ensures |r| < |s| ==> MarkerAt(s, |r|, m)
    decreases |s|
  {
    if |s| < 2 then s
    else if MarkerAt(s, 0, m) then ""
    else
      var rest := BeforeMarker(s[1..], m);
      assert forall k: nat :: 1 <= k ==> MarkerAt(s, k, m) == MarkerAt(s[1..], k - 1, m);
      assert rest == s[1..][..|rest|];
      [s[0]] + rest
  }

  /** `s` contains no occurrence of the two-character marker `m`. */
  ghost predicate FreeOfMarker(s: string, m: string)
    requires |m| == 2
  {
    forall k: nat :: !MarkerAt(s, k, m)
  }

  lemma FreeOfMarkerChar(s: string, m: string)
    requires |m| == 2 && (m[0] !in s || |s| < 2)
    ensures FreeOfMarker(s, m)
  {
  }

  /** Two marker-free texts stay marker-free when joined, unless the marker
      straddles the seam. */
  lemma FreeOfMarkerConcat(a: string, b: string, m: string)
    requires |m| == 2 && FreeOfMarker(a, m) && FreeOfMarker(b, m)
    requires a != [] && b != [] ==> a[|a| - 1] != m[0] || b[0] != m[1]
    ensures FreeOfMarker(a + b, m)
  {
    forall k: nat
      ensures !MarkerAt(a + b, k, m)
    {
      if k + 2 <= |a| {
        assert !MarkerAt(a, k, m);
      } else if k >= |a| {
        assert !MarkerAt(b, k - |a|, m);
      }
    }
  }

  /** Without a marker, nothing is cut off. */
  lemma BeforeMarkerNone(s: string, m: string)
    requires |m| == 2 && FreeOfMarker(s, m)
    ensures BeforeMarker(s, m) == s
  {
  }

  /** The text before the first marker, when the marker follows `a`. */
  lemma BeforeMarkerAt(a: string, b: string, m: string)
    requires |m| == 2 && FreeOfMarker(a, m) && (a != [] ==> a[|a| - 1] != m[0])
    ensures BeforeMarker(a + m + b, m) == a
  {
    var s := a + m + b;
    var r := BeforeMarker(s, m);
    assert MarkerAt(s, |a|, m);
    if |r| < |a| {
      assert MarkerAt(s, |r|, m);
      if |r| + 2 <= |a| {
        assert MarkerAt(a, |r|, m);
      }
    }
  }

  // ---------------------------------------------------------------------------
  // decimal text: Python's str() and int()
  // ---------------------------------------------------------------------------

  predicate IsDigit(ch: char) { '0' <= ch <= '9' }

  /** The whitespace that `int()` ignores around its argument. */
  predicate IsSpace(ch: char) { ch == ' ' || ch == '\t' || ch == '\n' || ch == '\r' || ch as int == 11 || ch as int == 12 }

  predicate AllDigits(s: string) { forall k :: 0 <= k < |s| ==> IsDigit(s[k]) }

  function DigitValue(ch: char): nat requires IsDigit(ch) { (ch - '0') as nat }

  function DigitChar(d: nat): (ch: char)
    requires d < 10
    ensures IsDigit(ch) && DigitValue(ch) == d
  {
    ('0' as int + d) as char
  }

  /** The value of a run of decimal digits. */
  function DigitsValue(s: string): nat
    requires AllDigits(s)
    decreases |s|
  {
    if s == [] then 0 else DigitsValue(s[..|s| - 1]) * 10 + DigitValue(s[|s| - 1])
  }

  /** `str(n)` for a natural number: no sign, no leading zero. */
  function NatToString(n: nat): (s: string)
    ensures |s| >= 1 && AllDigits(s)
    ensures |s| > 1 ==> s[0] != '0'
    decreases n
  {
    if n < 10 then [DigitChar(n)] else NatToString(n / 10) + [DigitChar(n % 10)]
  }

  /** `str(n)` for an integer. */
  function IntToString(n: int): (s: string)
    ensures |s| >= 1
  {
    if n < 0 then "-" + NatToString(-n) else NatToString(n)
  }

  function StripLeft(s: string): (r: string)
    ensures |r| <= |s| && r == s[|s| - |r|..]
    ensures r != [] ==> !IsSpace(r[0])
    decreases |s|
  {
    if s != [] && IsSpace(s[0]) then StripLeft(s[1..]) else s
  }

  function StripRight(s: string): (r: string)
    ensures |r| <= |s| && r == s[..|r|]
    ensures r != [] ==> !IsSpace(r[|r| - 1])
    decreases |s|
  {
    if s != [] && IsSpace(s[|s| - 1]) then StripRight(s[..|s| - 1]) else s
  }

  /** `int(s)` as Python 2 reads it, with ASCII digits and C whitespace only:
      whitespace around the number, an optional sign, whitespace again between
      the sign and the digits, and at least one decimal digit; anything else is
      a `ValueError`, here `None`. */
  function ParseInt(s: string): (r: Option<int>)
    ensures r.Some? ==> exists k :: 0 <= k < |s| && IsDigit(s[k])
  {
    var x := StripLeft(s);
    var t := StripRight(x);
    var r := ParseSigned(t);
    if r.Some? then
      DigitInside(s, x, t);
      r
    else r
  }

  /** `int()` on text with no surrounding whitespace: an optional sign, then
      whitespace, then the digits. */
  function ParseSigned(t: string): (r: Option<int>)
    ensures r.Some? ==> exists k :: 0 <= k < |t| && IsDigit(t[k])
  {
    if |t| >= 1 && (t[0] == '-' || t[0] == '+') then
      var u := StripLeft(t[1..]);
      if |u| >= 1 && AllDigits(u) then
        assert t[|t| - |u|] == u[0];
        Some(if t[0] == '-' then -(DigitsValue(u) as int) else DigitsValue(u))
      else None
    else if |t| >= 1 && AllDigits(t) then
      assert IsDigit(t[0]);
      Some(DigitsValue(t))
    else None
  }

  /** A digit of the stripped text is a digit of the text. */
  lemma DigitInside(s: string, x: string, t: string)
    requires |x| <= |s| && x == s[|s| - |x|..] && |t| <= |x| && t == x[..|t|]
    requires exists k :: 0 <= k < |t| && IsDigit(t[k])
    ensures exists k :: 0 <= k < |s| && IsDigit(s[k])
  {
    var k :| 0 <= k < |t| && IsDigit(t[k]);
    assert s[|s| - |x| + k] == t[k];
  }

  lemma {:induction false} DigitsOfNat(n: nat)
    ensures DigitsValue(NatToString(n)) == n
    decreases n
  {
    if n >= 10 {
      DigitsOfNat(n / 10);
      var s := NatToString(n);
      assert s[..|s| - 1] == NatToString(n / 10);
    }
  }

  lemma NoSpaceInDigits(s: string)
    requires AllDigits(s)
    ensures forall k :: 0 <= k < |s| ==> !IsSpace(s[k])
  {
  }

  /** Plain decimal digits read back as their value. */
  lemma ParseDigits(s: string)
    requires s != [] && AllDigits(s)
    ensures ParseInt(s) == Some(DigitsValue(s))
  {
    hide DigitsValue;
    NoSpaceInDigits(s);
    assert StripLeft(s) == s;
    assert StripRight(s) == s;
    assert s[0] != '-' && s[0] != '+';
  }

  /** A minus sign followed by decimal digits reads back as the negated value. */
  lemma ParseNegative(d: string)
    requires d != [] && AllDigits(d)
    ensures ParseInt("-" + d) == Some(-(DigitsValue(d) as int))
  {
    hide *;
    ParseSpacedSign([], '-', [], d, []);
    assert [] + ['-'] + [] + d + [] == "-" + d;
  }

  /** Leading whitespace is skipped up to the first other character. */
  lemma {:induction false} StripLeftSpaces(w: string, x: string)
    requires forall k :: 0 <= k < |w| ==> IsSpace(w[k])
    requires x == [] || !IsSpace(x[0])
    ensures StripLeft(w + x) == x
    decreases |w|
  {
    if w == [] {
      assert w + x == x;
    } else {
      assert (w + x)[0] == w[0];
      assert (w + x)[1..] == w[1..] + x;
      StripLeftSpaces(w[1..], x);
    }
  }

  /** Trailing whitespace is dropped back to the last other character. */
  lemma {:induction false} StripRightSpaces(x: string, w: string)
    requires forall k :: 0 <= k < |w| ==> IsSpace(w[k])
    requires x == [] || !IsSpace(x[|x| - 1])
    ensures StripRight(x + w) == x
    decreases |w|
  {
    if w == [] {
      assert x + w == x;
    } else {
      assert (x + w)[|x + w| - 1] == w[|w| - 1];
      assert (x + w)[..|x + w| - 1] == x + w[..|w| - 1];
      StripRightSpaces(x, w[..|w| - 1]);
    }
  }

  /** Python 2's `int()` reads a signed number with whitespace around it and
      between the sign and the digits: `int(" - 12 ") == -12`. */
  lemma ParseSpacedSign(pre: string, sign: char, gap: string, d: string, post: string)
    requires forall k :: 0 <= k < |pre| ==> IsSpace(pre[k])
    requires forall k :: 0 <= k < |gap| ==> IsSpace(gap[k])
    requires forall k :: 0 <= k < |post| ==> IsSpace(post[k])
    requires sign == '-' || sign == '+'
    requires d != [] && AllDigits(d)
    ensures ParseInt(pre + [sign] + gap + d + post)
            == Some(if sign == '-' then -(DigitsValue(d) as int) else DigitsValue(d))
  {
    hide DigitsValue, ParseSigned;
    var core := [sign] + gap + d;
    assert pre + [sign] + gap + d + post == pre + core + post;
    assert core[|core| - |d|..] == d;
    TrimSpaces(pre, core, post, d);
    SignThenDigits(sign, gap, d);
  }

  /** Whitespace around a text that starts with a sign and ends with a digit
      is stripped off. */
  lemma TrimSpaces(pre: string, core: string, post: string, d: string)
    requires forall k :: 0 <= k < |pre| ==> IsSpace(pre[k])
    requires forall k :: 0 <= k < |post| ==> IsSpace(post[k])
    requires core != [] && (core[0] == '-' || core[0] == '+')
    requires d != [] && AllDigits(d) && |d| <= |core| && core[|core| - |d|..] == d
    ensures StripRight(StripLeft(pre + core + post)) == core
  {
    assert IsDigit(d[|d| - 1]);
    hide DigitsValue, StripLeft, StripRight, AllDigits;
    assert pre + core + post == pre + (core + post);
    assert (core + post)[0] == core[0];
    StripLeftSpaces(pre, core + post);
    assert core[|core| - 1] == d[|d| - 1];
    StripRightSpaces(core, post);
  }

  /** A sign, whitespace, then digits: the signed value of the digits. */
  lemma SignThenDigits(sign: char, gap: string, d: string)
    requires forall k :: 0 <= k < |gap| ==> IsSpace(gap[k])
    requires sign == '-' || sign == '+'
    requires d != [] && AllDigits(d)
    ensures ParseSigned([sign] + gap + d)
            == Some(if sign == '-' then -(DigitsValue(d) as int) else DigitsValue(d))
  {
    hide DigitsValue;
    var t := [sign] + gap + d;
    assert t[0] == sign;
    assert StripLeft(t[1..]) == d by {
      assert IsDigit(d[0]);
      assert t[1..] == gap + d;
      StripLeftSpaces(gap, d);
    }
    hide StripLeft, AllDigits;
  }

  /** `int(str(n)) == n`: decimal text written by `str` reads back as the same integer. */
  lemma ParseIntOfString(n: int)
    ensures ParseInt(IntToString(n)) == Some(n)
  {
    var m := if n < 0 then -n else n;
    DigitsOfNat(m);
    if n < 0 {
      ParseNegative(NatToString(m));
    } else {
      ParseDigits(NatToString(m));
    }
  }

  lemma IntToStringFree(n: int, c: char)
    requires !IsDigit(c) && c != '-'
    ensures c !in IntToString(n)
  {
  }

  // ---------------------------------------------------------------------------
  // de-duplication in first-occurrence order
  // ---------------------------------------------------------------------------

  predicate Distinct<T(==)>(xs: seq<T>) {
    forall i, j :: 0 <= i < j < |xs| ==> xs[i] != xs[j]
  }

  /** The loop `for x in xs: if x not in out: out.append(x)`. */
  function Dedup<T(==)>(xs: seq<T>): seq<T>
    decreases |xs|
  {
    if xs == [] then []
    else
      var d := Dedup(xs[..|xs| - 1]);
      if xs[|xs| - 1] in d then d else d + [xs[|xs| - 1]]
  }

  /** One more input adds it at the end, unless it was there already. */
  lemma DedupSnoc<T>(xs: seq<T>, x: T)
    ensures Dedup(xs + [x]) == if x in Dedup(xs) then Dedup(xs) else Dedup(xs) + [x]
  {
    assert (xs + [x])[..|xs|] == xs;
  }

  /** The result keeps every value once and nothing else. */
  lemma {:induction false} DedupSpec<T>(xs: seq<T>)
    ensures Distinct(Dedup(xs))
    ensures forall x :: x in Dedup(xs) <==> x in xs
    decreases |xs|
  {
    if xs != [] {
      var init := xs[..|xs| - 1];
      DedupSpec(init);
      assert xs == init + [xs[|xs| - 1]];
    }
  }

  /** Index of the first occurrence of `x` in `xs`. */
  function FirstIndex<T(==)>(xs: seq<T>, x: T): (i: nat)
    requires x in xs
    ensures i < |xs| && xs[i] == x && x !in xs[..i]
    decreases |xs|
  {
    if xs[0] == x then 0 else FirstIndex(xs[1..], x) + 1
  }

  /** The kept values come in the order of their first occurrence. */
  lemma {:induction false} DedupOrder<T>(xs: seq<T>, i: nat, j: nat)
    requires i < j < |Dedup(xs)|
    ensures Dedup(xs)[i] in xs && Dedup(xs)[j] in xs
    ensures FirstIndex(xs, Dedup(xs)[i]) < FirstIndex(xs, Dedup(xs)[j])
    decreases |xs|
  {
    DedupSpec(xs);
    var init := xs[..|xs| - 1];
    var last := xs[|xs| - 1];
    var d := Dedup(init);
    var dd := Dedup(xs);
    DedupSpec(init);
    assert dd == d || dd == d + [last];
    assert i < |d| && dd[i] == d[i];
    DedupIn(init, i);
    assert |init| <= |xs| && init == xs[..|init|];
    FirstIndexPrefix(xs, init, dd[i]);
    if j < |d| {
      DedupOrder(init, i, j);
      assert dd[j] == d[j];
      DedupIn(init, j);
      FirstIndexPrefix(xs, init, dd[j]);
    } else {
      assert |d| == j && dd == d + [last];
      forall k | 0 <= k < |xs| - 1
        ensures xs[k] != last
      {
        assert xs[k] == init[k];
      }
    }
  }

  lemma DedupIn<T>(xs: seq<T>, k: nat)
    requires k < |Dedup(xs)|
    ensures Dedup(xs)[k] in xs
  {
    DedupSpec(xs);
    assert Dedup(xs)[k] in Dedup(xs);
  }

  lemma FirstIndexPrefix<T>(xs: seq<T>, init: seq<T>, x: T)
    requires |init| <= |xs| && init == xs[..|init|] && x in init
    ensures x in xs && FirstIndex(xs, x) == FirstIndex(init, x)
  {
    var b := FirstIndex(init, x);
    assert xs[b] == x;
    var a := FirstIndex(xs, x);
    forall k | 0 <= k < b
      ensures xs[k] != x
    {
      assert init[..b][k] == xs[k];
    }
    forall k | 0 <= k < a && k < |init|
      ensures init[k] != x
    {
      assert xs[..a][k] == init[k];
    }
  }
}
