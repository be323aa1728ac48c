/**
 * Decimal text of 32-bit signed integers, as the client writes and reads its
 * cursor file: `seq.ToString()` on save and `int.Parse(...)` on load.
 *
 * The parser follows .NET's `NumberStyles.Integer`: optional leading and trailing
 * white space (U+0009..U+000D and U+0020), an optional `+` or `-` sign, then one or
 * more ASCII digits whose value must fit in 32 bits; anything else is a failure.
 */
module Decimal {
  import opened Wrappers

  const MinInt32: int := -0x8000_0000
  const MaxInt32: int := 0x7FFF_FFFF

  /** The C# `int`. */
  type Int32 = x: int | MinInt32 <= x <= MaxInt32

  predicate IsDigit(c: char) {
    '0' <= c <= '9'
  }

  predicate AllDigits(s: string) {
    forall i :: 0 <= i < |s| ==> IsDigit(s[i])
  }

  /** The white-space characters `int.Parse` skips at either end. */
  predicate IsWhite(c: char) {
    c == ' ' || '\t' <= c <= '\r'
  }

  function DigitChar(d: int): (c: char)
    requires 0 <= d <= 9
    ensures IsDigit(c)
  {
    (('0' as int) + d) as char
  }

  function DigitValue(c: char): (d: int)
    requires IsDigit(c)
    ensures 0 <= d <= 9
    ensures DigitChar(d) == c
  {
    (c as int) - ('0' as int)
  }

  /** Value of a digit string, most significant digit first. */
  function DigitsValue(s: string): (v: nat)
    requires AllDigits(s)
  {
    if s == [] then 0
    else DigitsValue(s[..|s| - 1]) * 10 + DigitValue(s[|s| - 1])
  }

  /** Shortest decimal digits of a natural number. */
  function Digits(n: nat): (s: string)
    ensures |s| > 0 && AllDigits(s)
    ensures s[0] == '0' ==> n == 0 && |s| == 1
    decreases n
  {
    if n < 10 then [DigitChar(n)] else Digits(n / 10) + [DigitChar(n % 10)]
  }

  /** `n.ToString()` with the invariant culture's minus sign. */
  function Render(n: int): (s: string)
    ensures |s| > 0
    ensures n >= 0 ==> AllDigits(s) && (s[0] == '0' ==> s == "0")
    ensures n < 0 ==> s[0] == '-' && |s| >= 2 && AllDigits(s[1..]) && s[1] != '0'
    ensures forall i :: 0 <= i < |s| ==> !IsWhite(s[i]) && s[i] != '.' && s[i] != '&'
  {
    if n < 0 then "-" + Digits(-n) else Digits(n)
  }

  /** `s` without its leading white space. */
  function TrimStart(s: string): (t: string)
    ensures |t| <= |s| && t == s[|s| - |t|..]
    ensures t == [] || !IsWhite(t[0])
    ensures AllWhite(s[..|s| - |t|])
  {
    if s != [] && IsWhite(s[0]) then TrimStart(s[1..]) else s
  }

  /** `s` without its trailing white space. */
  function TrimEnd(s: string): (t: string)
    ensures |t| <= |s| && t == s[..|t|]
    ensures t == [] || !IsWhite(t[|t| - 1])
    ensures AllWhite(s[|t|..])
  {
    if s != [] && IsWhite(s[|s| - 1]) then TrimEnd(s[..|s| - 1]) else s
  }

  /** Digits with a sign applied, or `None` when empty, not all digits, or out of range. */
  function SignedValue(digits: string, negative: bool): (r: Option<Int32>)
    ensures r.Some? ==> |digits| > 0 && AllDigits(digits)
    ensures r.Some? ==> r.value == (if negative then -(DigitsValue(digits) as int) else DigitsValue(digits))
    ensures |digits| > 0 && AllDigits(digits)
            && MinInt32 <= (if negative then -(DigitsValue(digits) as int) else DigitsValue(digits)) <= MaxInt32
            ==> r.Some?
  {
    if digits == [] || !AllDigits(digits) then None
    else
      var v: int := if negative then -(DigitsValue(digits) as int) else DigitsValue(digits);
      if MinInt32 <= v <= MaxInt32 then Some(v) else None
  }

  /** Text of the shape `int.Parse` accepts once trimmed: an optional sign, then one or more digits. */
  predicate Signed(t: string) {
    || (|t| > 0 && AllDigits(t))
    || (|t| > 1 && (t[0] == '-' || t[0] == '+') && AllDigits(t[1..]))
  }

  /** The number a `Signed` text denotes: its digits' value, negated after a minus sign. */
  function SignedText(t: string): int
    requires Signed(t)
  {
    if t[0] == '-' then -(DigitsValue(t[1..]) as int)
    else if t[0] == '+' then DigitsValue(t[1..])
    else DigitsValue(t)
  }

  /** `int.Parse` on text already trimmed of white space. */
  function ParseTrimmed(t: string): (r: Option<Int32>)
    ensures r.Some? ==> Signed(t)
    ensures r.Some? ==> r.value == SignedText(t)
    ensures Signed(t) && MinInt32 <= SignedText(t) <= MaxInt32 ==> r.Some?
    ensures r.Some? && r.value < 0 ==> t[0] == '-'
  {
    if t != [] && (t[0] == '-' || t[0] == '+') then SignedValue(t[1..], t[0] == '-')
    else SignedValue(t, false)
  }

  /** `int.Parse(s)`; `None` where .NET throws a format or overflow exception. */
  function Parse(s: string): (r: Option<Int32>)
    ensures r.Some? ==> Signed(TrimEnd(TrimStart(s)))
    ensures r.Some? ==> r.value == SignedText(TrimEnd(TrimStart(s)))
    ensures var t := TrimEnd(TrimStart(s));
      Signed(t) && MinInt32 <= SignedText(t) <= MaxInt32 ==> r.Some?
    ensures r.Some? && r.value < 0 ==> TrimEnd(TrimStart(s))[0] == '-'
  {
    ParseTrimmed(TrimEnd(TrimStart(s)))
  }

  lemma {:induction false} DigitsValueOfDigits(n: nat)
    ensures DigitsValue(Digits(n)) == n
    decreases n
  {
    if n >= 10 {
      var s := Digits(n);
      assert s[..|s| - 1] == Digits(n / 10);
      DigitsValueOfDigits(n / 10);
      assert DigitValue(s[|s| - 1]) == n % 10;
    }
  }

  predicate AllWhite(w: string) {
    forall i :: 0 <= i < |w| ==> IsWhite(w[i])
  }

  /** Text that neither starts nor ends with white space is parsed as it stands. */
  lemma ParseSolid(x: string)
    requires x != [] && !IsWhite(x[0]) && !IsWhite(x[|x| - 1])
    ensures Parse(x) == ParseTrimmed(x)
  {
    assert TrimEnd(TrimStart(x)) == x;
  }

  lemma {:induction false} TrimStartWhitePrefix(w: string, x: string)
    requires AllWhite(w)
    requires x == [] || !IsWhite(x[0])
    ensures TrimStart(w + x) == x
    decreases |w|
  {
    if w == [] {
      assert w + x == x;
    } else {
      assert (w + x)[1..] == w[1..] + x;
      TrimStartWhitePrefix(w[1..], x);
    }
  }

  lemma {:induction false} TrimEndWhiteSuffix(x: string, w: string)
    requires AllWhite(w)
    requires x == [] || !IsWhite(x[|x| - 1])
    ensures TrimEnd(x + w) == x
    decreases |w|
  {
    if w == [] {
      assert x + w == x;
    } else {
      assert (x + w)[..|x + w| - 1] == x + w[..|w| - 1];
      TrimEndWhiteSuffix(x, w[..|w| - 1]);
    }
  }

  /** Trimming white space from both ends of `w1 + x + w2` leaves exactly `x`. */
  lemma TrimBoth(w1: string, x: string, w2: string)
    requires AllWhite(w1) && AllWhite(w2)
    requires x != [] && !IsWhite(x[0]) && !IsWhite(x[|x| - 1])
    ensures TrimEnd(TrimStart(w1 + x + w2)) == x
  {
    assert w1 + x + w2 == w1 + (x + w2);
    TrimStartWhitePrefix(w1, x + w2);
    TrimEndWhiteSuffix(x, w2);
  }

  lemma {:induction false} ZerosValue(zeros: string)
    requires forall i :: 0 <= i < |zeros| ==> zeros[i] == '0'
    ensures AllDigits(zeros) && DigitsValue(zeros) == 0
    decreases |zeros|
  {
    if zeros != [] {
      ZerosValue(zeros[..|zeros| - 1]);
    }
  }

  lemma {:induction false} LeadingZerosValue(zeros: string, d: string)
    requires forall i :: 0 <= i < |zeros| ==> zeros[i] == '0'
    requires AllDigits(d)
    ensures AllDigits(zeros + d) && DigitsValue(zeros + d) == DigitsValue(d)
    decreases |d|
  {
    ZerosValue(zeros);
    if d == [] {
      assert zeros + d == zeros;
    } else {
      var zd := zeros + d;
      assert zd[..|zd| - 1] == zeros + d[..|d| - 1];
      assert zd[|zd| - 1] == d[|d| - 1];
      LeadingZerosValue(zeros, d[..|d| - 1]);
    }
  }

  /** Loading what `SaveSequenceID` wrote gives back the saved number. */
  lemma ParseRender(n: Int32)
    ensures Parse(Render(n)) == Some(n)
  {
    if n < 0 {
      var m: nat := -(n as int);
      DigitsValueOfDigits(m);
      assert Render(n) == ['-'] + Digits(m);
      ParseWithSign('-', Digits(m));
    } else {
      DigitsValueOfDigits(n);
      ParseUnsigned(Digits(n));
    }
  }

  /** Surrounding white space does not change what a saved cursor parses to. */
  lemma ParseAcceptsPadding(w1: string, n: Int32, w2: string)
    requires AllWhite(w1) && AllWhite(w2)
    ensures Parse(w1 + Render(n) + w2) == Some(n)
  {
    var r := Render(n);
    TrimBoth(w1, r, w2);
    ParseRender(n);
  }

  /** An explicit sign and leading zeros are accepted: `[+|-]0…0<digits>` parses to the signed value. */
  lemma ParseAcceptsSignAndZeros(zeros: string, m: nat)
    requires forall i :: 0 <= i < |zeros| ==> zeros[i] == '0'
    requires m <= MaxInt32 + 1
    ensures m <= MaxInt32 ==> Parse("+" + (zeros + Digits(m))) == Some(m)
    ensures m <= MaxInt32 ==> Parse(zeros + Digits(m)) == Some(m)
    ensures Parse("-" + (zeros + Digits(m))) == Some(-(m as int))
  {
    var d := zeros + Digits(m);
    assert AllDigits(d) && DigitsValue(d) == m by {
      LeadingZerosValue(zeros, Digits(m));
      DigitsValueOfDigits(m);
    }
    if m <= MaxInt32 {
      assert Parse(zeros + Digits(m)) == Some(m) by { ParseUnsigned(d); }
      assert Parse("+" + d) == Some(m) by { ParseWithSign('+', d); }
    }
    assert Parse("-" + d) == Some(-(m as int)) by { ParseWithSign('-', d); }
  }

  /** Parsing a plain digit string reads its value, when it fits. */
  lemma ParseUnsigned(d: string)
    requires d != [] && AllDigits(d)
    ensures Parse(d) == SignedValue(d, false)
  {
    assert IsDigit(d[0]) && IsDigit(d[|d| - 1]);
    ParseSolid(d);
    assert d[0] != '-' && d[0] != '+';
  }

  /** Parsing a sign followed by a digit string reads the signed value, when it fits. */
  lemma ParseWithSign(c: char, d: string)
    requires c == '+' || c == '-'
    requires d != [] && AllDigits(d)
    ensures Parse([c] + d) == SignedValue(d, c == '-')
  {
    var t := [c] + d;
    assert t[0] == c && t[|t| - 1] == d[|d| - 1] && IsDigit(d[|d| - 1]);
    ParseSolid(t);
    assert t[1..] == d;
  }

  /** Text that is blank, or a lone sign with white space around it, is a format failure. */
  lemma ParseRejectsEmpty(w1: string, c: char, w2: string)
    requires AllWhite(w1) && AllWhite(w2)
    requires c == '+' || c == '-'
    ensures Parse(w1 + w2) == None
    ensures Parse(w1 + [c] + w2) == None
  {
    TrimStartWhitePrefix(w1 + w2, []);
    assert w1 + w2 + [] == w1 + w2;
    TrimBoth(w1, [c], w2);
  }

  /** White space between the sign and the digits is a format failure. */
  lemma ParseRejectsWhiteAfterSign(w1: string, c: char, ws: string, d: string, w2: string)
    requires AllWhite(w1) && AllWhite(w2) && AllWhite(ws) && ws != []
    requires c == '+' || c == '-'
    requires d != [] && AllDigits(d)
    ensures Parse(w1 + ([c] + (ws + d)) + w2) == None
  {
    var rest := ws + d;
    var t := [c] + rest;
    assert t[|t| - 1] == d[|d| - 1];
    TrimBoth(w1, t, w2);
    assert t[1..] == rest;
    assert rest[0] == ws[0];
    assert !AllDigits(rest) by {
      assert !IsDigit(rest[0]);
    }
  }

  /** White space between digits is a format failure. */
  lemma ParseRejectsWhiteInDigits(w1: string, a: string, ws: string, b: string, w2: string)
    requires AllWhite(w1) && AllWhite(w2) && AllWhite(ws) && ws != []
    requires a != [] && AllDigits(a) && b != [] && AllDigits(b)
    ensures Parse(w1 + (a + (ws + b)) + w2) == None
  {
    var t := a + (ws + b);
    SplitDigits(a, ws, b);
    TrimBoth(w1, t, w2);
  }

  /** Digits with a white gap inside neither start nor end with white space, yet are not all digits. */
  lemma SplitDigits(a: string, ws: string, b: string)
    requires ws != [] && IsWhite(ws[0])
    requires a != [] && IsDigit(a[0]) && b != [] && IsDigit(b[|b| - 1])
    ensures var t := a + (ws + b);
      !IsWhite(t[0]) && !IsWhite(t[|t| - 1]) && !AllDigits(t) && !Signed(t)
  {
    var t := a + (ws + b);
    assert t[0] == a[0] && t[|t| - 1] == b[|b| - 1];
    assert t[|a|] == ws[0];
    assert !AllDigits(t);
    assert t[0] != '-' && t[0] != '+';
  }

  /** A number beyond the 32-bit range is an overflow failure, with or without a minus sign. */
  lemma ParseRejectsOverflow(m: nat)
    ensures m > MaxInt32 ==> Parse(Digits(m)) == None
    ensures m > MaxInt32 + 1 ==> Parse("-" + Digits(m)) == None
  {
    DigitsValueOfDigits(m);
    ParseUnsigned(Digits(m));
    ParseWithSign('-', Digits(m));
  }
}
