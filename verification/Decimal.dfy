/**
 Decimal numerals: what a template literal prints for a natural number and what `\d+` and
 `parseInt(digits, 10)` read back. Natural numbers are unbounded here.
 */
module Decimal {

  predicate IsDigit(c: char) {
    '0' <= c <= '9'
  }

  function DigitValue(c: char): nat {
    if IsDigit(c) then c as int - '0' as int else 0
  }

  function Numeral(n: nat): (s: string)
    ensures |s| >= 1
  {
    var last := [('0' as int + n % 10) as char];
    if n < 10 then last else Numeral(n / 10) + last
  }

  /** Where the digits that start at `k` end. */
  function DigitsEnd(s: string, k: nat): (e: nat)
    requires k <= |s|
    ensures k <= e <= |s|
    decreases |s| - k
  {
    if k == |s| || !IsDigit(s[k]) then k else DigitsEnd(s, k + 1)
  }

  /** The number that the digits from `k` up to `e` write. */
  function Value(s: string, k: nat, e: nat): nat
    requires k <= e <= |s|
    decreases e
  {
    if k == e then 0 else Value(s, k, e - 1) * 10 + DigitValue(s[e - 1])
  }

  /** A numeral, wherever it stands, is read as the number it was printed for. */
  lemma {:induction false} ValueOfNumeral(n: nat, s: string, k: nat)
    requires k + |Numeral(n)| <= |s| && s[k..k + |Numeral(n)|] == Numeral(n)
    ensures Value(s, k, k + |Numeral(n)|) == n
    ensures forall m :: k <= m < k + |Numeral(n)| ==> IsDigit(s[m])
  {
    var e := k + |Numeral(n)|;
    assert s[e - 1] == Numeral(n)[e - 1 - k];
    if n >= 10 {
      assert s[k..e - 1] == Numeral(n)[..e - 1 - k] == Numeral(n / 10);
      ValueOfNumeral(n / 10, s, k);
    }
  }

  /** No numeral but that of 0 begins with a 0. */
  lemma {:induction false} NumeralIsCanonical(n: nat)
    ensures Numeral(n)[0] == '0' <==> n == 0
    ensures n == 0 ==> |Numeral(n)| == 1
  {
    if n >= 10 {
      NumeralIsCanonical(n / 10);
    }
  }

  /** The digits at `k` end at `e`, if there are only digits up to `e` and none there. */
  lemma {:induction false} DigitsEndAt(s: string, k: nat, e: nat)
    requires k <= e <= |s|
    requires forall m :: k <= m < e ==> IsDigit(s[m])
    requires e < |s| ==> !IsDigit(s[e])
    ensures DigitsEnd(s, k) == e
    decreases e - k
  {
    if k < e {
      DigitsEndAt(s, k + 1, e);
    }
  }

  /** A text of one or more digits. */
  predicate IsDigits(s: string) {
    s != "" && forall k :: 0 <= k < |s| ==> IsDigit(s[k])
  }

  lemma {:induction false} DigitsEndIs(s: string, k: nat)
    requires k <= |s|
    ensures forall m :: k <= m < DigitsEnd(s, k) ==> IsDigit(s[m])
    ensures DigitsEnd(s, k) < |s| ==> !IsDigit(s[DigitsEnd(s, k)])
    decreases |s| - k
  {
    if k < |s| && IsDigit(s[k]) {
      DigitsEndIs(s, k + 1);
    }
  }

  lemma {:induction false} ValueOfSlice(s: string, k: nat, e: nat)
    requires k <= e <= |s|
    ensures Value(s, k, e) == Value(s[k..e], 0, e - k)
    decreases e
  {
    if k < e {
      ValueOfSlice(s, k, e - 1);
      ValueOfSlice(s[k..e], 0, e - 1 - k);
      assert s[k..e][0..e - 1 - k] == s[k..e - 1];
    }
  }

  function Zeros(n: nat): string {
    if n == 0 then "" else "0" + Zeros(n - 1)
  }

  /** The text is the numeral of the number, with zeros before it. */
  ghost predicate Writes(s: string, v: nat) {
    if v == 0 then s == Zeros(|s|) else exists z: nat :: s == Zeros(z) + Numeral(v)
  }

  /** Any digits are read as the number whose numeral they are, but for zeros before it. */
  lemma {:induction false} DigitsAreNumeral(s: string)
    requires IsDigits(s)
    ensures Writes(s, Value(s, 0, |s|))
  {
    var front, last := s[..|s| - 1], s[|s| - 1];
    ValueOfSlice(s, 0, |s| - 1);
    assert s[0..|s| - 1] == front && s == front + [last];
    if front == "" {
      assert Value(s, 0, 0) == 0 && Zeros(0) == "";
    } else {
      DigitsAreNumeral(front);
    }
    OneMoreDigit(front, Value(front, 0, |front|), last);
  }

  lemma OneMoreDigit(front: string, v: nat, last: char)
    requires Writes(front, v) && IsDigit(last)
    ensures Writes(front + [last], v * 10 + DigitValue(last))
  {
    var n := v * 10 + DigitValue(last);
    assert (('0' as int + DigitValue(last)) as char) == last;
    if v == 0 {
      if last == '0' {
        OneMoreZero(|front|);
      } else {
        assert front + [last] == Zeros(|front|) + Numeral(n);
      }
    } else {
      var z: nat :| front == Zeros(z) + Numeral(v);
      assert n / 10 == v && n % 10 == DigitValue(last);
      Associated(Zeros(z), Numeral(v), [last]);
      assert front + [last] == Zeros(z) + Numeral(n);
    }
  }

  lemma Associated(a: string, b: string, c: string)
    ensures a + b + c == a + (b + c)
  {
  }

  lemma {:induction false} OneMoreZero(n: nat)
    ensures Zeros(n) + "0" == Zeros(n + 1)
  {
    if n > 0 {
      OneMoreZero(n - 1);
      assert "0" + Zeros(n - 1) + "0" == "0" + (Zeros(n - 1) + "0");
    }
  }
}
