/** Decimal text of natural numbers: Python's `str(n)` for a non-negative `int`,
    and the digit-string-to-integer reading that pandas applies to a column
    made only of digits. */
module Decimal {

  /** 2^64: pandas holds an integer column in 64 bits (`int64`, or `uint64` for
      larger values), so only values below this are read back exactly. */
  const Limit64: nat := 0x1_0000_0000_0000_0000

  predicate IsDigit(ch: char) {
    '0' <= ch <= '9'
  }

  /** A non-empty run of ASCII digits. */
  predicate IsDecimal(s: string) {
    |s| > 0 && forall i :: 0 <= i < |s| ==> IsDigit(s[i])
  }

  /** Decimal text without superfluous leading zeros: what `str(n)` produces. */
  predicate IsCanonical(s: string) {
    IsDecimal(s) && (s[0] == '0' ==> |s| == 1)
  }

  function DigitChar(d: nat): (ch: char)
    requires d < 10
    ensures IsDigit(ch)
  {
    ('0' as int + d) as char
  }

  function DigitValue(ch: char): (d: nat)
    requires IsDigit(ch)
    ensures d < 10 && DigitChar(d) == ch
  {
    (ch as int - '0' as int) as nat
  }

  /** The value of a string of digits, most significant digit first. */
  function ValueOf(s: string): (v: nat)
    requires forall i :: 0 <= i < |s| ==> IsDigit(s[i])
    ensures v == 0 <==> forall i :: 0 <= i < |s| ==> s[i] == '0'
  {
    if |s| == 0 then 0 else ValueOf(s[..|s| - 1]) * 10 + DigitValue(s[|s| - 1])
  }

  /** Python's `str(n)` for `n >= 0`. */
  function Str(n: nat): (s: string)
    ensures IsCanonical(s)
    ensures s[0] == '0' <==> n == 0
  {
    if n < 10 then [DigitChar(n)] else Str(n / 10) + [DigitChar(n % 10)]
  }

  /** Reading back the decimal text of `n` gives `n`. */
  lemma {:induction false} ValueOfStr(n: nat)
    ensures ValueOf(Str(n)) == n
  {
    if n >= 10 {
      var s := Str(n);
      ValueOfStr(n / 10);
      assert s[..|s| - 1] == Str(n / 10);
    }
  }

  /** A digit string without a leading zero has a positive value. */
  lemma {:induction false} ValuePositive(s: string)
    requires IsDecimal(s) && s[0] != '0'
    ensures ValueOf(s) > 0
    decreases |s|
  {
    if |s| > 1 {
      ValuePositive(s[..|s| - 1]);
    }
  }

  /** Canonical decimal text is exactly the text of its own value. */
  lemma {:induction false} StrOfValue(s: string)
    requires IsCanonical(s)
    ensures Str(ValueOf(s)) == s
    decreases |s|
  {
    var n := ValueOf(s);
    if |s| > 1 {
      var p := s[..|s| - 1];
      assert p[0] == s[0];
      ValuePositive(p);
      StrOfValue(p);
      assert n / 10 == ValueOf(p) && n % 10 == DigitValue(s[|s| - 1]);
      assert s == p + [s[|s| - 1]];
    }
  }

  /** Leading zeros do not change the value of a digit string. */
  lemma {:induction false} ZeroPrefix(z: string, t: string)
    requires forall i :: 0 <= i < |z| ==> z[i] == '0'
    requires forall i :: 0 <= i < |t| ==> IsDigit(t[i])
    ensures ValueOf(z + t) == ValueOf(t)
    decreases |t|
  {
    var s := z + t;
    if |t| == 0 {
      assert s == z;
    } else {
      assert s[..|s| - 1] == z + t[..|t| - 1];
      assert s[|s| - 1] == t[|t| - 1];
      ZeroPrefix(z, t[..|t| - 1]);
    }
  }

  /** The number of zeros in front of the significant digits of a digit string;
      the last digit always counts as significant. */
  function LeadingZeros(s: string): (k: nat)
    requires IsDecimal(s)
    ensures k < |s| && (s[k] != '0' || k == |s| - 1)
    ensures forall i :: 0 <= i < k ==> s[i] == '0'
    decreases |s|
  {
    if |s| == 1 || s[0] != '0' then 0
    else
      var k := LeadingZeros(s[1..]);
      assert forall i :: 0 < i < k + 1 ==> s[i] == s[1..][i - 1];
      k + 1
  }

  /** What pandas reads from a digit string: the number whose `str` is the
      string with its leading zeros removed (all but the last, for zero). */
  lemma {:induction false} StripZeros(s: string)
    requires IsDecimal(s)
    ensures exists k :: 0 <= k < |s| && (forall i :: 0 <= i < k ==> s[i] == '0') && s[k..] == Str(ValueOf(s))
  {
    var k := LeadingZeros(s);
    var z, t := s[..k], s[k..];
    assert s == z + t;
    assert IsCanonical(t);
    ZeroPrefix(z, t);
    StrOfValue(t);
    Witness(s, k);
  }

  /** Names the run of zeros for `StripZeros`. */
  lemma {:induction false} Witness(s: string, k: nat)
    requires IsDecimal(s) && k < |s|
    requires forall i :: 0 <= i < k ==> s[i] == '0'
    requires s[k..] == Str(ValueOf(s))
    ensures exists k :: 0 <= k < |s| && (forall i :: 0 <= i < k ==> s[i] == '0') && s[k..] == Str(ValueOf(s))
  {
  }
}
