/** Decimal digits of natural numbers, as used by '%d' formatting and int() parsing. */
module Decimal {

  function Pow10(k: nat): (r: nat)
    ensures r >= 1
  {
    if k == 0 then 1 else 10 * Pow10(k - 1)
  }

  /** The decimal digits of n, most significant first, without leading zeros ('%d' % n). */
  function Digits(n: nat): (ds: seq<nat>)
    ensures |ds| >= 1
    ensures forall i :: 0 <= i < |ds| ==> ds[i] < 10
  {
    if n < 10 then [n] else Digits(n / 10) + [n % 10]
  }

  /** The number a sequence of digits denotes (int() of a digit string). */
  function FromDigits(ds: seq<nat>): nat
  {
    if ds == [] then 0 else 10 * FromDigits(ds[..|ds| - 1]) + ds[|ds| - 1]
  }

  lemma {:induction false} FromDigitsDigits(n: nat)
    ensures FromDigits(Digits(n)) == n
  {
    if n >= 10 {
      var ds := Digits(n);
      assert ds[..|ds| - 1] == Digits(n / 10);
      FromDigitsDigits(n / 10);
    }
  }

  /** A number below 10^k has at most k digits. */
  lemma {:induction false} DigitsLength(n: nat, k: nat)
    requires k >= 1 && n < Pow10(k)
    ensures |Digits(n)| <= k
  {
    if n >= 10 {
      assert Pow10(1) == 10;
      DigitsLength(n / 10, k - 1);
    }
  }

  lemma {:induction false} Pow10Add(a: nat, b: nat)
    ensures Pow10(a + b) == Pow10(a) * Pow10(b)
  {
    if b > 0 {
      Pow10Add(a, b - 1);
    }
  }

  /** '%d' % n as text. */
  function Text(n: nat): (t: string)
    ensures |t| == |Digits(n)|
  {
    var ds := Digits(n);
    seq(|ds|, i requires 0 <= i < |ds| => (48 + ds[i]) as char)
  }

  /** The digit values of a text of decimal digits. */
  function TextDigits(t: string): seq<nat>
  {
    seq(|t|, i requires 0 <= i < |t| => if '0' <= t[i] <= '9' then t[i] as int - 48 else 0)
  }

  /** Reading the text back gives the number: distinct numbers have distinct texts. */
  lemma TextRoundTrip(n: nat)
    ensures FromDigits(TextDigits(Text(n))) == n
  {
    assert TextDigits(Text(n)) == Digits(n);
    FromDigitsDigits(n);
  }
}
