/** Decimal text of integers, as Python's `str(n)`, `int(s)` and the `d` format
    specifier produce and read it (ASCII digits only). */
module Decimal {

  datatype Option<T> = None | Some(value: T)

  predicate IsDigit(c: char) {
    '0' <= c <= '9'
  }

  predicate AllDigits(s: string) {
    forall i :: 0 <= i < |s| ==> IsDigit(s[i])
  }

  function DigitChar(d: nat): (c: char)
    requires d < 10
    ensures IsDigit(c)
  {
    ('0' as int + d) as char
  }

  function DigitValue(c: char): (d: nat)
    requires IsDigit(c)
    ensures d < 10 && DigitChar(d) == c
  {
    c as int - '0' as int
  }

  /** The canonical decimal text of `n`: no sign, no leading zero unless `n == 0`. */
  function Digits(n: nat): (s: string)
    ensures 1 <= |s| && AllDigits(s)
    ensures |s| > 1 ==> s[0] != '0'
    decreases n
  {
    if n < 10 then [DigitChar(n)] else Digits(n / 10) + [DigitChar(n % 10)]
  }

  /** The number a string of digits denotes, most significant digit first. */
  function Value(s: string): nat
    requires AllDigits(s)
  {
    if s == [] then 0 else Value(s[..|s| - 1]) * 10 + DigitValue(s[|s| - 1])
  }

  function Zeros(k: nat): (z: string)
    ensures |z| == k && AllDigits(z)
    ensures forall i :: 0 <= i < k ==> z[i] == '0'
  {
    if k == 0 then [] else Zeros(k - 1) + ['0']
  }

  /** Reading the canonical text of `n` gives `n` back. */
  lemma {:induction false} ValueOfDigits(n: nat)
    ensures Value(Digits(n)) == n
    decreases n
  {
    if n >= 10 {
      var s := Digits(n);
      assert s[..|s| - 1] == Digits(n / 10);
      ValueOfDigits(n / 10);
    }
  }

  /** Leading zeros do not change the value of a digit string. */
  lemma {:induction false} ValueIgnoresLeadingZeros(k: nat, s: string)
    requires AllDigits(s)
    ensures Value(Zeros(k) + s) == Value(s)
    decreases |s|
  {
    var t := Zeros(k) + s;
    if s == [] {
      assert t == Zeros(k);
      ZerosValue(k);
    } else {
      assert t[..|t| - 1] == Zeros(k) + s[..|s| - 1];
      ValueIgnoresLeadingZeros(k, s[..|s| - 1]);
    }
  }

  lemma {:induction false} ZerosValue(k: nat)
    ensures Value(Zeros(k)) == 0
  {
    if k > 0 {
      assert Zeros(k)[..k - 1] == Zeros(k - 1);
      ZerosValue(k - 1);
    }
  }

  /** Python's `int(s)` for base 10 on text that is already stripped: an optional
      `+` or `-` followed by at least one digit; leading zeros are accepted. */
  function ParseInt(s: string): (r: Option<int>)
    ensures r.Some? ==> 1 <= |s| && (IsDigit(s[0]) || s[0] in "+-")
  {
    if |s| >= 2 && s[0] == '-' && AllDigits(s[1..]) then Some(-(Value(s[1..]) as int))
    else if |s| >= 2 && s[0] == '+' && AllDigits(s[1..]) then Some(Value(s[1..]))
    else if |s| >= 1 && AllDigits(s) then Some(Value(s))
    else None
  }

  /** Python's `str(n)` for an integer. */
  function Show(n: int): (s: string)
    ensures 1 <= |s| && (IsDigit(s[0]) || s[0] == '-') && IsDigit(s[|s| - 1])
  {
    if n < 0 then "-" + Digits(-n) else Digits(n)
  }

  /** `int(str(n)) == n`. */
  lemma ParseShow(n: int)
    ensures ParseInt(Show(n)) == Some(n)
  {
    var m: nat := if n < 0 then -n else n;
    var d := Digits(m);
    ValueOfDigits(m);
    SignedRead(d, m);
    assert Show(n) == if n < 0 then "-" + d else d;
  }

  /** `str(n)` holds nothing but digits and a minus sign. */
  lemma ShowChars(n: int)
    ensures forall i :: 0 <= i < |Show(n)| ==> IsDigit(Show(n)[i]) || Show(n)[i] == '-'
  {
    if n < 0 {
      var d := Digits(-n);
      assert Show(n) == "-" + d;
      forall i | 1 <= i < |Show(n)| ensures IsDigit(Show(n)[i]) {
        assert Show(n)[i] == d[i - 1];
      }
    }
  }

  /** Text with anything but a digit after its first character is rejected, as
      `int('1.5')` and `int('1e3')` are: only the first character may be a sign. */
  lemma ParseIntRejectsInnerNonDigit(s: string, i: int)
    requires 0 < i < |s| && !IsDigit(s[i])
    ensures ParseInt(s) == None
  {
    assert !IsDigit(s[1..][i - 1]);
  }

  /** Leading zeros and an optional sign are accepted: `int('007') == 7`,
      `int('+007') == 7` and `int('-007') == -7`. */
  lemma LeadingZerosRead(k: nat, n: nat)
    ensures ParseInt(Zeros(k) + Digits(n)) == Some(n)
    ensures ParseInt("+" + Zeros(k) + Digits(n)) == Some(n)
    ensures ParseInt("-" + Zeros(k) + Digits(n)) == Some(-(n as int))
  {
    var d := Zeros(k) + Digits(n);
    ZerosThenDigits(k, n);
    ValueIgnoresLeadingZeros(k, Digits(n));
    ValueOfDigits(n);
    SignedRead(d, n);
    assert "+" + Zeros(k) + Digits(n) == "+" + d;
    assert "-" + Zeros(k) + Digits(n) == "-" + d;
  }

  lemma ZerosThenDigits(k: nat, n: nat)
    ensures |Zeros(k) + Digits(n)| >= 1 && AllDigits(Zeros(k) + Digits(n))
  {
    var d := Zeros(k) + Digits(n);
    forall i | 0 <= i < |d| ensures IsDigit(d[i]) {
      if i < k { assert d[i] == Zeros(k)[i]; } else { assert d[i] == Digits(n)[i - k]; }
    }
  }

  /** A digit string, bare or after a sign, reads as its value. */
  lemma SignedRead(d: string, v: nat)
    requires |d| >= 1 && AllDigits(d) && Value(d) == v
    ensures ParseInt(d) == Some(v)
    ensures ParseInt("+" + d) == Some(v)
    ensures ParseInt("-" + d) == Some(-(v as int))
  {
    var p, m := "+" + d, "-" + d;
    assert p[0] == '+' && p[1..] == d;
    assert m[0] == '-' && m[1..] == d;
    assert !AllDigits(p) by { assert !IsDigit(p[0]); }
  }

  /** Text without a digit, the empty string among it, is always rejected. */
  lemma ParseIntNeedsDigit(s: string)
    requires forall i :: 0 <= i < |s| ==> !IsDigit(s[i])
    ensures ParseInt(s) == None
  {
    if |s| >= 2 {
      assert !IsDigit(s[1..][0]);
    }
  }
}
