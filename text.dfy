/**
 * The few pieces of Python's string semantics that the two scripts rely on:
 * `str.split()` with no argument, `int(str)` in base 10 with the whitespace it skips, and
 * the repetition `s * n`.
 */
module Text {
  import opened Wrappers

  /** Python's `str.isspace()`: the characters `split()` and `int()` treat as whitespace. */
  predicate IsSpace(c: char) {
    || ('\t' <= c <= '\r')
    || ('\U{1C}' <= c <= '\U{1F}')
    || c == ' ' || c == '\U{85}' || c == '\U{A0}' || c == '\U{1680}'
    || ('\U{2000}' <= c <= '\U{200A}')
    || c == '\U{2028}' || c == '\U{2029}' || c == '\U{202F}' || c == '\U{205F}' || c == '\U{3000}'
  }

  /** A token as `split()` produces it: non-empty and free of whitespace. */
  predicate IsWord(w: string) {
    w != [] && forall i :: 0 <= i < |w| ==> !IsSpace(w[i])
  }

  /** Index of the first whitespace character of `s`, or `|s|` when there is none. */
  function FirstSpace(s: string): (k: nat)
    ensures k <= |s|
    ensures forall i :: 0 <= i < k ==> !IsSpace(s[i])
    ensures k < |s| ==> IsSpace(s[k])
  {
    if s == [] || IsSpace(s[0]) then 0 else 1 + FirstSpace(s[1..])
  }

  /** Python's `s.split()`: the maximal runs of non-whitespace characters, in order. */
  function Split(s: string): (ws: seq<string>)
    ensures forall i :: 0 <= i < |ws| ==> IsWord(ws[i])
    decreases |s|
  {
    if s == [] then []
    else if IsSpace(s[0]) then Split(s[1..])
    else
      var k := FirstSpace(s);
      [s[..k]] + Split(s[k..])
  }

  /** Each word followed by one blank: the shape `"0.1 " * n` and `(IDENTITY + " ") * n` produce. */
  function Spaced(ws: seq<string>): string {
    if ws == [] then [] else ws[0] + " " + Spaced(ws[1..])
  }

  /** Python's `ws * n` on a list or a string, for a non-negative `n`. */
  function RepeatSeq<T>(ws: seq<T>, n: nat): (r: seq<T>)
    ensures |r| == |ws| * n
  {
    if n == 0 then [] else ws + RepeatSeq(ws, n - 1)
  }

  lemma SplitWordThen(w: string, rest: string)
    requires IsWord(w)
    ensures Split(w + " " + rest) == [w] + Split(rest)
  {
    var s := w + " " + rest;
    assert s[0] == w[0];
    var k := FirstSpace(s);
    assert s[|w|] == ' ';
    assert k == |w|;
    assert s[..k] == w;
    assert s[k..] == " " + rest;
    assert (" " + rest)[1..] == rest;
  }

  /** Splitting undoes the space-separated layout: the round trip the weight file relies on. */
  lemma {:induction false} SplitSpaced(ws: seq<string>)
    requires forall i :: 0 <= i < |ws| ==> IsWord(ws[i])
    ensures Split(Spaced(ws)) == ws
  {
    if ws != [] {
      SplitSpaced(ws[1..]);
      SplitWordThen(ws[0], Spaced(ws[1..]));
    }
  }

  lemma {:induction false} SpacedAppend(a: seq<string>, b: seq<string>)
    ensures Spaced(a + b) == Spaced(a) + Spaced(b)
  {
    if a != [] {
      assert (a + b)[0] == a[0];
      assert (a + b)[1..] == a[1..] + b;
      SpacedAppend(a[1..], b);
      calc {
        Spaced(a + b);
        a[0] + " " + Spaced(a[1..] + b);
        a[0] + " " + (Spaced(a[1..]) + Spaced(b));
        (a[0] + " " + Spaced(a[1..])) + Spaced(b);
        Spaced(a) + Spaced(b);
      }
    } else {
      assert a + b == b;
    }
  }

  /** Repeating a space-separated line repeats its tokens. */
  lemma {:induction false} RepeatSpaced(ws: seq<string>, n: nat)
    ensures RepeatSeq(Spaced(ws), n) == Spaced(RepeatSeq(ws, n))
  {
    if n > 0 {
      RepeatSpaced(ws, n - 1);
      SpacedAppend(ws, RepeatSeq(ws, n - 1));
    }
  }

  lemma {:induction false} RepeatSeqAdd<T>(ws: seq<T>, m: nat, n: nat)
    ensures RepeatSeq(ws, m + n) == RepeatSeq(ws, m) + RepeatSeq(ws, n)
  {
    if m > 0 {
      RepeatSeqAdd(ws, m - 1, n);
      calc {
        RepeatSeq(ws, m + n);
        ws + RepeatSeq(ws, (m - 1) + n);
        ws + (RepeatSeq(ws, m - 1) + RepeatSeq(ws, n));
        (ws + RepeatSeq(ws, m - 1)) + RepeatSeq(ws, n);
      }
    }
  }

  /** `(s * m) * n == s * (m * n)`, for the chained repetitions of the weight file. */
  lemma {:induction false} RepeatSeqMul<T>(ws: seq<T>, m: nat, n: nat)
    ensures RepeatSeq(RepeatSeq(ws, m), n) == RepeatSeq(ws, m * n)
  {
    if n > 0 {
      RepeatSeqMul(ws, m, n - 1);
      assert m * n == m + m * (n - 1);
      RepeatSeqAdd(ws, m, m * (n - 1));
    }
  }

  /** `split()` of `(t + " ") * n` is `n` copies of the token `t`. */
  lemma SplitRepeatedToken(t: string, n: nat)
    requires IsWord(t)
    ensures Split(RepeatSeq(t + " ", n)) == RepeatSeq([t], n)
  {
    assert Spaced([t]) == t + " ";
    RepeatSpaced([t], n);
    var ws := RepeatSeq([t], n);
    RepeatSeqAllWords([t], n);
    SplitSpaced(ws);
  }

  lemma {:induction false} RepeatSeqAllWords(ws: seq<string>, n: nat)
    requires forall i :: 0 <= i < |ws| ==> IsWord(ws[i])
    ensures forall i :: 0 <= i < |RepeatSeq(ws, n)| ==> IsWord(RepeatSeq(ws, n)[i])
  {
    if n > 0 {
      RepeatSeqAllWords(ws, n - 1);
    }
  }

  /** A single run of non-whitespace is one token. */
  lemma SplitWord(w: string)
    requires IsWord(w)
    ensures Split(w) == [w]
  {
    assert FirstSpace(w) == |w|;
    assert w[..|w|] == w && w[|w|..] == [];
  }

  /** Whitespace alone yields no token. */
  lemma {:induction false} SplitAllSpace(s: string)
    requires forall i :: 0 <= i < |s| ==> IsSpace(s[i])
    ensures Split(s) == []
    decreases |s|
  {
    if s != [] {
      SplitAllSpace(s[1..]);
    }
  }

  /** A whitespace character separates: the tokens of both sides, in order. */
  lemma SplitAtSpace(a: string, c: char, b: string)
    requires IsSpace(c)
    ensures Split(a + [c] + b) == Split(a) + Split(b)
  {
    assert a + [c] + b == a + ([c] + b);
    SplitBeforeSpace(a, [c] + b);
    assert ([c] + b)[1..] == b;
  }

  /** The tokens of `a + u`, where `u` starts with whitespace, are those of `a` followed by those of `u`. */
  lemma {:induction false} SplitBeforeSpace(a: string, u: string)
    requires u != [] && IsSpace(u[0])
    ensures Split(a + u) == Split(a) + Split(u)
    decreases |a|
  {
    if a == [] {
      assert a + u == u;
    } else if IsSpace(a[0]) {
      assert (a + u)[0] == a[0] && (a + u)[1..] == a[1..] + u;
      SplitBeforeSpace(a[1..], u);
    } else {
      SplitWordBeforeSpace(a, u);
    }
  }

  /** The step of `SplitBeforeSpace` where `a` opens with a word. */
  lemma {:induction false} SplitWordBeforeSpace(a: string, u: string)
    requires u != [] && IsSpace(u[0])
    requires a != [] && !IsSpace(a[0])
    ensures Split(a + u) == Split(a) + Split(u)
    decreases |a|, 0
  {
    var s := a + u;
    var k := FirstSpace(a);
    FirstSpaceAppend(a, u);
    assert s[0] == a[0];
    if k < |a| {
      assert s[..k] == a[..k];
      assert s[k..] == a[k..] + u;
      SplitBeforeSpace(a[k..], u);
    } else {
      assert s[..k] == a && s[k..] == u;
      assert a[..k] == a && a[k..] == [];
    }
  }

  /** Trailing whitespace, such as a line's terminator, adds no token. */
  lemma {:induction false} SplitTrailingSpace(s: string, c: char)
    requires IsSpace(c)
    ensures Split(s + [c]) == Split(s)
    decreases |s|
  {
    var t := s + [c];
    if s == [] {
      assert Split(t) == Split(t[1..]);
      assert t[1..] == [];
    } else if IsSpace(s[0]) {
      assert t[1..] == s[1..] + [c];
      SplitTrailingSpace(s[1..], c);
    } else {
      var k := FirstSpace(s);
      if k < |s| {
        FirstSpaceAppend(s, [c]);
        assert t[..k] == s[..k];
        assert t[k..] == s[k..] + [c];
        SplitTrailingSpace(s[k..], c);
      } else {
        FirstSpaceAppend(s, [c]);
        assert t[..k] == s && t[k..] == [c];
        assert Split([c]) == Split([c][1..]) == [];
        assert Split(t) == [s] + Split([c]);
        assert s[..k] == s && s[k..] == [];
        assert Split(s) == [s] + Split([]);
      }
    }
  }

  /** The first blank of `s + u` is the first blank of `s`, if `s` has one, else at `|s|` when `u` starts with one. */
  lemma {:induction false} FirstSpaceAppend(s: string, u: string)
    requires u != [] && IsSpace(u[0])
    ensures FirstSpace(s + u) == FirstSpace(s)
    decreases |s|
  {
    if s == [] {
      assert (s + u)[0] == u[0];
    } else if !IsSpace(s[0]) {
      assert (s + u)[1..] == s[1..] + u;
      FirstSpaceAppend(s[1..], u);
    }
  }

  /** `[x] * n` holds `x` at every position. */
  lemma {:induction false} RepeatOne<T>(x: T, n: nat)
    ensures forall i :: 0 <= i < n ==> RepeatSeq([x], n)[i] == x
  {
    if n > 0 {
      RepeatOne(x, n - 1);
    }
  }

  // ---------------------------------------------------------------------
  // The whitespace int() skips, and int()

  /** The first index at or after `i` that does not hold whitespace, or `|s|`. */
  function SkipSpace(s: string, i: nat): (k: nat)
    requires i <= |s|
    ensures i <= k <= |s|
    ensures forall j :: i <= j < k ==> IsSpace(s[j])
    ensures k < |s| ==> !IsSpace(s[k])
    decreases |s| - i
  {
    if i < |s| && IsSpace(s[i]) then SkipSpace(s, i + 1) else i
  }

  /** The end of `s[..j]` once its trailing whitespace is dropped. */
  function SkipSpaceBack(s: string, j: nat): (k: nat)
    requires j <= |s|
    ensures k <= j
    ensures forall i :: k <= i < j ==> IsSpace(s[i])
    ensures k > 0 ==> !IsSpace(s[k - 1])
  {
    if j > 0 && IsSpace(s[j - 1]) then SkipSpaceBack(s, j - 1) else j
  }

  /** The text `int(s)` reads: `s` without its leading and trailing whitespace. */
  function Strip(s: string): string {
    var u := s[SkipSpace(s, 0)..];
    u[..SkipSpaceBack(u, |u|)]
  }

  /** What `int()` reads is a slice of `s` with only whitespace around it and none at its ends. */
  lemma StripSlice(s: string)
    ensures exists a, b ::
      && 0 <= a <= b <= |s| && Strip(s) == s[a..b]
      && (forall i :: 0 <= i < a ==> IsSpace(s[i]))
      && (forall i :: b <= i < |s| ==> IsSpace(s[i]))
    ensures Strip(s) == [] || (!IsSpace(Strip(s)[0]) && !IsSpace(Strip(s)[|Strip(s)| - 1]))
  {
    var a := SkipSpace(s, 0);
    var u := s[a..];
    var k := SkipSpaceBack(u, |u|);
    assert Strip(s) == s[a..a + k];
    forall i | a + k <= i < |s|
      ensures IsSpace(s[i])
    {
      assert s[i] == u[i - a];
    }
  }

  predicate IsDigit(c: char) {
    '0' <= c <= '9'
  }

  /**
   * The digit part `int()` accepts in base 10: ASCII digits, where a single
   * underscore may stand between two digits.
   */
  predicate IsDecimal(d: string) {
    && |d| > 0
    && IsDigit(d[0])
    && forall i :: 0 <= i < |d| ==> IsDigit(d[i]) || (d[i] == '_' && i + 1 < |d| && IsDigit(d[i + 1]))
  }

  /** The value of a digit string, underscores ignored. */
  function DecimalValue(d: string): nat {
    if d == [] then 0
    else if d[|d| - 1] == '_' then DecimalValue(d[..|d| - 1])
    else if IsDigit(d[|d| - 1]) then DecimalValue(d[..|d| - 1]) * 10 + (d[|d| - 1] as int - '0' as int)
    else DecimalValue(d[..|d| - 1]) * 10
  }

  /** Python's `int(s)`: `None` where Python raises `ValueError`. */
  function ParseInt(s: string): Option<int> {
    var t := Strip(s);
    if t == [] then None
    else if t[0] == '-' || t[0] == '+' then
      var d := t[1..];
      var v: int := DecimalValue(d);
      if IsDecimal(d) then Some(if t[0] == '-' then -v else v) else None
    else if IsDecimal(t) then Some(DecimalValue(t))
    else None
  }

  /** Decimal text of a natural number, without leading zeros. */
  function ShowNat(n: nat): (s: string)
    ensures |s| > 0 && forall i :: 0 <= i < |s| ==> IsDigit(s[i])
  {
    if n < 10 then [('0' as int + n) as char]
    else ShowNat(n / 10) + [('0' as int + n % 10) as char]
  }

  /** Decimal text of an integer, as Python's `str(i)` writes it. */
  function Show(i: int): string {
    if i < 0 then "-" + ShowNat(-i) else ShowNat(i)
  }

  lemma {:induction false} DecimalValueShowNat(n: nat)
    ensures IsDecimal(ShowNat(n)) && DecimalValue(ShowNat(n)) == n
  {
    var s := ShowNat(n);
    if n >= 10 {
      DecimalValueShowNat(n / 10);
      assert s[..|s| - 1] == ShowNat(n / 10);
    }
  }

  /**
   * `int()` reads back what `str()` writes, also with the line terminator
   * a line read from a file still carries.
   */
  lemma ParseIntShow(i: int, eol: string)
    requires eol == "" || eol == "\n"
    ensures ParseInt(Show(i) + eol) == Some(i)
  {
    StripShow(i, eol);
    ShowParts(i);
  }

  /** The sign and digit parts of `str(i)`, as `int()` reads them. */
  lemma ShowParts(i: int)
    ensures Show(i) != []
    ensures i < 0 ==> Show(i)[0] == '-' && IsDecimal(Show(i)[1..]) && DecimalValue(Show(i)[1..]) == -i
    ensures i >= 0 ==> Show(i)[0] != '-' && Show(i)[0] != '+' && IsDecimal(Show(i)) && DecimalValue(Show(i)) == i
  {
    if i < 0 {
      DecimalValueShowNat(-i);
      assert Show(i)[1..] == ShowNat(-i);
    } else {
      DecimalValueShowNat(i);
    }
  }

  lemma StripShow(i: int, eol: string)
    requires eol == "" || eol == "\n"
    ensures Strip(Show(i) + eol) == Show(i)
  {
    var s := Show(i);
    var u := s + eol;
    assert !IsSpace(s[0]) && !IsSpace(s[|s| - 1]);
    assert u[0] == s[0] && u[|s| - 1] == s[|s| - 1];
    assert SkipSpace(u, 0) == 0;
    assert u[0..] == u;
    assert SkipSpaceBack(u, |u|) == |s|;
    assert u[..|s|] == s;
  }
}
