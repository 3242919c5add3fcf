/**
  Decimal text of non-negative integers, as Python produces and reads it:
  `str(n)`, `int(s)` on a string of ASCII digits, and the zero-padded
  format specs `{n:02d}` and `%Y`/`%m`/`%d`.
 */
module Decimal {

  predicate IsDigit(c: char) {
    '0' <= c <= '9'
  }

  predicate AllDigits(s: string) {
    forall i :: 0 <= i < |s| ==> IsDigit(s[i])
  }

  function DigitChar(d: nat): (c: char)
    requires d < 10
    ensures IsDigit(c)
  {
    ('0' as int + d) as char
  }

  function DigitValue(c: char): (d: nat)
    requires IsDigit(c)
    ensures d < 10 && DigitChar(d) == c
  {
    c as int - '0' as int
  }

  function Pow10(k: nat): (p: nat)
    ensures p >= 1
  {
    if k == 0 then 1 else 10 * Pow10(k - 1)
  }

  /** `str(n)`: the shortest decimal text of `n`, without leading zeros. */
  function Show(n: nat): (s: string)
    ensures |s| >= 1 && AllDigits(s)
    ensures s[0] == '0' ==> n == 0
    ensures n >= 10 <==> |s| >= 2
    decreases n
  {
    if n < 10 then [DigitChar(n)] else Show(n / 10) + [DigitChar(n % 10)]
  }

  /** `int(s)` for a string of ASCII digits (the empty string reads as 0). */
  function Value(s: string): (v: nat)
    requires AllDigits(s)
    ensures v < Pow10(|s|)
  {
    if s == [] then 0
    else
      var init := Value(s[..|s| - 1]);
      assert init * 10 + DigitValue(s[|s| - 1]) < Pow10(|s| - 1) * 10 by {
        assert init <= Pow10(|s| - 1) - 1;
      }
      init * 10 + DigitValue(s[|s| - 1])
  }

  /** `s` left-padded with '0' to at least `width` characters (`{n:0<width>d}`). */
  function ZeroPad(s: string, width: nat): (r: string)
    ensures |r| == if |s| >= width then |s| else width
    ensures r[|r| - |s|..] == s
    ensures forall i :: 0 <= i < |r| - |s| ==> r[i] == '0'
  {
    if |s| >= width then s else seq(width - |s|, _ => '0') + s
  }

  /** Reading back what `Show` printed gives the number again. */
  lemma {:induction false} ValueOfShow(n: nat)
    ensures Value(Show(n)) == n
    decreases n
  {
    if n >= 10 {
      var s := Show(n);
      assert s[..|s| - 1] == Show(n / 10);
      ValueOfShow(n / 10);
    }
  }

  /** Printed decimal texts identify their numbers. */
  lemma ShowInjective(m: nat, n: nat)
    requires Show(m) == Show(n)
    ensures m == n
  {
    ValueOfShow(m);
    ValueOfShow(n);
  }

  lemma {:induction false} ValuePositive(s: string)
    requires |s| >= 1 && AllDigits(s) && s[0] != '0'
    ensures Value(s) >= Pow10(|s| - 1)
    decreases |s|
  {
    if |s| > 1 {
      var t := s[..|s| - 1];
      assert t[0] == s[0];
      ValuePositive(t);
      assert Pow10(|s| - 1) == 10 * Pow10(|t| - 1);
    }
  }

  /** A digit string without leading zeros is exactly what `str(int(s))` prints back. */
  lemma {:induction false} ShowOfValue(s: string)
    requires |s| >= 1 && AllDigits(s)
    requires s[0] == '0' ==> |s| == 1
    ensures Show(Value(s)) == s
    decreases |s|
  {
    if |s| > 1 {
      var t := s[..|s| - 1];
      var d := DigitValue(s[|s| - 1]);
      assert t[0] == s[0];
      ValuePositive(t);
      ShowOfValue(t);
      var v := Value(s);
      assert v == Value(t) * 10 + d;
      assert v >= 10;
      assert v / 10 == Value(t) && v % 10 == d;
      assert s == t + [s[|s| - 1]];
    }
  }

  /** Leading zeros do not change the value `int()` reads. */
  lemma {:induction false} ValueIgnoresLeadingZeros(z: string, s: string)
    requires forall i :: 0 <= i < |z| ==> z[i] == '0'
    requires AllDigits(s)
    ensures AllDigits(z + s) && Value(z + s) == Value(s)
    decreases |s| + |z|
  {
    assert AllDigits(z + s) by {
      forall i | 0 <= i < |z + s| ensures IsDigit((z + s)[i]) {
        if i < |z| { assert (z + s)[i] == z[i]; } else { assert (z + s)[i] == s[i - |z|]; }
      }
    }
    if s == [] {
      assert z + s == z;
      if z != [] {
        assert z[..|z| - 1] + [] == z[..|z| - 1];
        ValueIgnoresLeadingZeros(z[..|z| - 1], []);
      }
    } else {
      var t := s[..|s| - 1];
      assert (z + s)[..|z + s| - 1] == z + t;
      ValueIgnoresLeadingZeros(z, t);
    }
  }

  /** Zero padding keeps the value and keeps the text all digits. */
  lemma ZeroPadValue(s: string, width: nat)
    requires AllDigits(s)
    ensures AllDigits(ZeroPad(s, width)) && Value(ZeroPad(s, width)) == Value(s)
  {
    if |s| < width {
      ValueIgnoresLeadingZeros(seq(width - |s|, _ => '0'), s);
    }
  }

  /** A number below 10^k prints in at most k digits. */
  lemma {:induction false} ShowLength(n: nat, k: nat)
    requires k >= 1 && n < Pow10(k)
    ensures |Show(n)| <= k
    decreases n
  {
    if n >= 10 {
      assert Pow10(1) == 10;
      assert n / 10 < Pow10(k - 1);
      ShowLength(n / 10, k - 1);
    }
  }

  /** A number of at least 10^k prints in more than k digits. */
  lemma {:induction false} ShowLengthAbove(n: nat, k: nat)
    requires n >= Pow10(k)
    ensures |Show(n)| > k
    decreases k
  {
    if k > 0 {
      assert n >= 10;
      assert n / 10 >= Pow10(k - 1);
      ShowLengthAbove(n / 10, k - 1);
    }
  }

  lemma AllDigitsConcat(a: string, b: string)
    requires AllDigits(a) && AllDigits(b)
    ensures AllDigits(a + b)
  {
    forall i | 0 <= i < |a + b| ensures IsDigit((a + b)[i]) {
      if i < |a| { assert (a + b)[i] == a[i]; } else { assert (a + b)[i] == b[i - |a|]; }
    }
  }

  /** The three parts of a concatenation, cut back out at their lengths. */
  lemma SplitThree(a: string, b: string, c: string)
    ensures var r := a + b + c;
      r[..|a|] == a && r[|a|..|a| + |b|] == b && r[|a| + |b|..] == c
  {
    var r := a + b + c;
    assert r[..|a|] == a;
    assert r[|a|..|a| + |b|] == b;
    assert r[|a| + |b|..] == c;
  }

  /** `{n:0<width>d}` for a number that fits: exactly `width` digits that read back as `n`. */
  lemma FixedWidth(n: nat, width: nat)
    requires width >= 1 && n < Pow10(width)
    ensures |ZeroPad(Show(n), width)| == width
    ensures AllDigits(ZeroPad(Show(n), width)) && Value(ZeroPad(Show(n), width)) == n
  {
    ShowLength(n, width);
    ZeroPadValue(Show(n), width);
    ValueOfShow(n);
  }

  /** `{n:02d}` for a number below 100. */
  lemma TwoDigits(n: nat)
    requires n < 100
    ensures |ZeroPad(Show(n), 2)| == 2
    ensures AllDigits(ZeroPad(Show(n), 2)) && Value(ZeroPad(Show(n), 2)) == n
  {
    assert Pow10(2) == 100 by { assert Pow10(1) == 10; }
    FixedWidth(n, 2);
  }

  /** `%Y` for a year below 10000. */
  lemma FourDigits(n: nat)
    requires n < 10000
    ensures |ZeroPad(Show(n), 4)| == 4
    ensures AllDigits(ZeroPad(Show(n), 4)) && Value(ZeroPad(Show(n), 4)) == n
  {
    assert Pow10(4) == 10000 by { assert Pow10(1) == 10; assert Pow10(3) == 1000; }
    FixedWidth(n, 4);
  }
}
