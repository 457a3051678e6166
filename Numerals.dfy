/** Decimal rendering of integers as Python prints them: `str(n)` and the
    zero-padded format `f"{n:0Wd}"` (width W counts the sign), together with
    the parser that inverts them. */
module Numerals {

  predicate IsDigit(c: char) {
    '0' <= c <= '9'
  }

  predicate AllDigits(s: string) {
    forall i :: 0 <= i < |s| ==> IsDigit(s[i])
  }

  function DigitChar(d: nat): (c: char)
    requires d < 10
    ensures IsDigit(c)
  {
    (48 + d) as char
  }

  function DigitValue(c: char): (d: nat)
    requires IsDigit(c)
    ensures d < 10
  {
    c as int - 48
  }

  /** The value of a string of decimal digits (leading zeros allowed). */
  function Value(s: string): nat
    requires AllDigits(s)
  {
    if s == [] then 0 else Value(s[..|s| - 1]) * 10 + DigitValue(s[|s| - 1])
  }

  /** `str(n)` for a non-negative integer: its shortest decimal form. */
  function NatToString(n: nat): (s: string)
    ensures 1 <= |s|
    ensures AllDigits(s)
    ensures Value(s) == n
    ensures |s| > 1 ==> s[0] != '0'
    decreases n
  {
    if n < 10 then [DigitChar(n)]
    else
      var init := NatToString(n / 10);
      var s := init + [DigitChar(n % 10)];
      assert s[..|s| - 1] == init;
      s
  }

  /** Distinct numbers render differently. */
  lemma NatToStringInjective(a: nat, b: nat)
    ensures NatToString(a) == NatToString(b) ==> a == b
  {
  }

  /** `str(n)` for any integer: a minus sign before the magnitude. */
  function IntToString(n: int): (s: string)
    ensures 1 <= |s|
    ensures n >= 0 ==> s == NatToString(n)
    ensures n < 0 ==> s == "-" + NatToString(-n)
  {
    if n >= 0 then NatToString(n) else "-" + NatToString(-n)
  }

  /** `str(n)` is made of digits and at most a leading minus sign. */
  lemma IntToStringChars(n: int)
    ensures forall i :: 0 <= i < |IntToString(n)| ==> IsDigit(IntToString(n)[i]) || IntToString(n)[i] == '-'
  {
    if n < 0 {
      var s := IntToString(n);
      forall i | 1 <= i < |s| ensures IsDigit(s[i]) {
        assert s[i] == NatToString(-n)[i - 1];
      }
    }
  }

  /** Distinct integers render differently. */
  lemma IntToStringInjective(a: int, b: int)
    ensures IntToString(a) == IntToString(b) ==> a == b
  {
    if IntToString(a) == IntToString(b) {
      if a >= 0 && b >= 0 {
        NatToStringInjective(a, b);
      } else if a < 0 && b < 0 {
        assert IntToString(a)[1..] == NatToString(-a);
        assert IntToString(b)[1..] == NatToString(-b);
        NatToStringInjective(-a, -b);
      }
    }
  }

  /** A run of `k` zero digits. */
  function Zeros(k: nat): (z: string)
    ensures |z| == k
    ensures forall i :: 0 <= i < k ==> z[i] == '0'
  {
    if k == 0 then [] else Zeros(k - 1) + "0"
  }

  /** Leading zeros do not change the value of a digit string. */
  lemma {:induction false} ValueLeadingZeros(k: nat, s: string)
    requires AllDigits(s)
    ensures AllDigits(Zeros(k) + s)
    ensures Value(Zeros(k) + s) == Value(s)
    decreases |s|, k
  {
    var zs := Zeros(k) + s;
    if s == [] {
      assert zs == Zeros(k);
      if k > 0 {
        assert zs[..|zs| - 1] == Zeros(k - 1) + [];
        ValueLeadingZeros(k - 1, []);
      }
    } else {
      assert zs[..|zs| - 1] == Zeros(k) + s[..|s| - 1];
      ValueLeadingZeros(k, s[..|s| - 1]);
    }
  }

  /** `f"{n:0{width}d}"` for a non-negative number: padded on the left
      with zeros to at least `width` characters, never truncated. */
  function PadNat(n: nat, width: nat): (s: string)
    ensures |s| >= width && |s| >= 1
  {
    var digits := NatToString(n);
    Zeros(if |digits| < width then width - |digits| else 0) + digits
  }

  /** The padded form is the shortest form behind leading zeros: the exact
      length, only digits, and the same value. */
  lemma PadNatSpec(n: nat, width: nat)
    ensures |PadNat(n, width)| == if |NatToString(n)| < width then width else |NatToString(n)|
    ensures AllDigits(PadNat(n, width))
    ensures Value(PadNat(n, width)) == n
  {
    var digits := NatToString(n);
    ValueLeadingZeros(if |digits| < width then width - |digits| else 0, digits);
  }

  /** `f"{n:0{width}d}"` for any integer: the sign counts toward the width. */
  function Pad(n: int, width: nat): (s: string)
    ensures |s| >= width && |s| >= 1
  {
    if n >= 0 then PadNat(n, width)
    else "-" + PadNat(-n, if width > 0 then width - 1 else 0)
  }

  /** Only a negative number is padded with a leading minus sign. */
  lemma PadSign(n: int, width: nat)
    ensures n >= 0 <==> Pad(n, width)[0] != '-'
  {
    if n >= 0 {
      PadNatSpec(n, width);
      assert IsDigit(Pad(n, width)[0]);
    }
  }

  /** Reads back a rendered integer: an optional minus sign, then digits. */
  function ParseInt(s: string): (r: int)
    requires s != [] && (if s[0] == '-' then AllDigits(s[1..]) else AllDigits(s))
  {
    if s[0] == '-' then 0 - Value(s[1..]) else Value(s) as int
  }

  /** Padding loses nothing: the number can be read back from its padded form. */
  lemma PadRoundTrip(n: int, width: nat)
    ensures var s := Pad(n, width);
      s != [] && (if s[0] == '-' then AllDigits(s[1..]) else AllDigits(s)) && ParseInt(s) == n
  {
    var s := Pad(n, width);
    PadSign(n, width);
    if n < 0 {
      PadNatSpec(-n, if width > 0 then width - 1 else 0);
      assert s[1..] == PadNat(-n, if width > 0 then width - 1 else 0);
    } else {
      PadNatSpec(n, width);
    }
  }

  /** A padded number is made of digits and at most a minus sign. */
  lemma PadChars(n: int, width: nat)
    ensures forall i :: 0 <= i < |Pad(n, width)| ==> IsDigit(Pad(n, width)[i]) || Pad(n, width)[i] == '-'
  {
    var s := Pad(n, width);
    PadRoundTrip(n, width);
    forall i | 0 <= i < |s| ensures IsDigit(s[i]) || s[i] == '-' {
      if s[0] == '-' && i > 0 {
        assert s[i] == s[1..][i - 1];
      }
    }
  }

  /** Distinct numbers never share a padded form, at any width. */
  lemma PadInjective(a: int, b: int, width: nat)
    ensures Pad(a, width) == Pad(b, width) ==> a == b
  {
    PadRoundTrip(a, width);
    PadRoundTrip(b, width);
  }

  /** Short numbers get leading zeros, after the sign when negative. */
  lemma PadShortExamples()
    ensures Pad(5, 3) == "005"
    ensures Pad(7, 2) == "07"
    ensures Pad(-5, 3) == "-05"
  {
    assert NatToString(5) == "5";
    assert NatToString(7) == "7";
    assert Zeros(2) == "00" && Zeros(1) == "0";
  }

  /** A three-digit number is unchanged by the three-digit format. */
  lemma PadExactExample()
    ensures Pad(162, 3) == "162"
  {
    assert NatToString(16) == "16";
    assert NatToString(162) == "162";
  }

  /** A longer number is kept whole: the width is a minimum. */
  lemma PadLongExample()
    ensures Pad(1000, 3) == "1000"
  {
    assert NatToString(100) == "100";
    assert NatToString(1000) == "1000";
  }
}
