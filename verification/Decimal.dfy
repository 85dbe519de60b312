/** Decimal digit strings, as the calculator and the HTTP server print and read them. */
module Decimal {

  predicate IsDigit(c: char) { '0' <= c <= '9' }

  predicate AllDigits(s: string) { forall i :: 0 <= i < |s| ==> IsDigit(s[i]) }

  function DigitChar(d: nat): char
    requires d < 10
  {
    (d + 48) as char
  }

  function DigitValue(c: char): nat
    requires IsDigit(c)
  {
    c as int - 48
  }

  /** The value a digit string denotes. */
  function Val(s: string): nat
    requires AllDigits(s)
  {
    if s == "" then 0 else 10 * Val(s[..|s| - 1]) + DigitValue(s[|s| - 1])
  }

  /** Digits of v without leading zeros; none at all for 0. */
  function Digits(v: nat): string {
    if v == 0 then "" else Digits(v / 10) + [DigitChar(v % 10)]
  }

  /** The numeral for v. */
  function Numeral(v: nat): string {
    if v == 0 then "0" else Digits(v)
  }

  function Pow10(k: nat): nat {
    if k == 0 then 1 else 10 * Pow10(k - 1)
  }

  lemma {:induction false} ValDigits(v: nat)
    ensures AllDigits(Digits(v)) && Val(Digits(v)) == v
  {
    if v > 0 {
      ValDigits(v / 10);
      assert Digits(v)[..|Digits(v)| - 1] == Digits(v / 10);
    }
  }

  /** Digits(v) is the shortest numeral: it has at most k digits exactly when v < 10^k. */
  lemma {:induction false} DigitCount(v: nat, k: nat)
    ensures |Digits(v)| <= k <==> v < Pow10(k)
  {
    if v > 0 && k > 0 {
      DigitCount(v / 10, k - 1);
      assert v / 10 < Pow10(k - 1) <==> v < 10 * Pow10(k - 1);
    } else {
      PowPositive(k);
    }
  }

  lemma PowPositive(k: nat)
    ensures Pow10(k) > 0
  {
  }

  lemma NumeralRoundTrip(v: nat)
    ensures AllDigits(Numeral(v)) && Val(Numeral(v)) == v && |Numeral(v)| > 0
  {
    ValDigits(v);
    if v == 0 {
      assert Val("0") == 10 * Val("") + 0 by { assert "0"[..0] == ""; }
    }
  }

  lemma {:induction false} LeadingZero(s: string)
    requires AllDigits(s)
    ensures AllDigits("0" + s) && Val("0" + s) == Val(s)
  {
    if s == "" {
      assert "0"[..0] == "";
    } else {
      LeadingZero(s[..|s| - 1]);
      assert ("0" + s)[..|s|] == "0" + s[..|s| - 1];
    }
  }

  lemma ValBound(s: string)
    requires AllDigits(s)
    ensures Val(s) < Pow10(|s|)
  {
  }

  lemma {:induction false} ValPrefix(s: string, k: nat)
    requires AllDigits(s) && k <= |s|
    ensures Val(s[..k]) <= Val(s)
    decreases |s|
  {
    if k < |s| {
      ValPrefix(s[..|s| - 1], k);
      assert s[..|s| - 1][..k] == s[..k];
    } else {
      assert s[..k] == s;
    }
  }

  /** One more digit read. */
  lemma ValSnoc(s: string, k: nat)
    requires AllDigits(s) && k < |s|
    ensures Val(s[..k + 1]) == 10 * Val(s[..k]) + DigitValue(s[k])
  {
    assert s[..k + 1][..k] == s[..k];
  }
}
