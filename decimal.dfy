/** Decimal text of natural numbers: `str(n)` and `'%03d' % n`. */
module Decimal {

  predicate IsDigit(c: char) {
    '0' <= c <= '9'
  }

  predicate AllDigits(s: string) {
    forall c | c in s :: IsDigit(c)
  }

  /** `str(n)` */
  function Text(n: nat): (s: string)
    ensures |s| >= 1 && AllDigits(s)
  {
    if n < 10 then [('0' as int + n) as char]
    else Text(n / 10) + [('0' as int + n % 10) as char]
  }

  /** The number a string of digits denotes. */
  function Value(s: string): nat
    requires AllDigits(s)
  {
    if s == [] then 0
    else
      assert s[|s| - 1] in s;
      Value(s[..|s| - 1]) * 10 + (s[|s| - 1] as int - '0' as int)
  }

  /** Reading back `str(n)` gives `n`. */
  lemma {:induction false} TextValue(n: nat)
    ensures Value(Text(n)) == n
  {
    if n >= 10 {
      TextValue(n / 10);
      var t := Text(n);
      assert t[..|t| - 1] == Text(n / 10);
    }
  }

  function Zeros(k: nat): (z: string)
    ensures |z| == k && AllDigits(z)
  {
    if k == 0 then "" else "0" + Zeros(k - 1)
  }

  /** Leading zeros do not change the value. */
  lemma {:induction false} ZerosValue(k: nat, t: string)
    requires AllDigits(t)
    ensures Value(Zeros(k) + t) == Value(t)
    decreases k, |t|
  {
    if t == [] {
      assert Zeros(k) + t == Zeros(k);
      if k > 0 {
        assert Zeros(k)[..k - 1] == Zeros(k - 1) by {
          ZerosSnoc(k - 1);
        }
        ZerosValue(k - 1, []);
        assert Zeros(k - 1) + [] == Zeros(k - 1);
      }
    } else {
      var u := Zeros(k) + t;
      assert u[..|u| - 1] == Zeros(k) + t[..|t| - 1];
      ZerosValue(k, t[..|t| - 1]);
    }
  }

  lemma {:induction false} ZerosSnoc(k: nat)
    ensures Zeros(k + 1) == Zeros(k) + "0"
  {
    if k > 0 {
      ZerosSnoc(k - 1);
    }
  }

  /** `'%03d' % n`: zero-padded to at least three digits. */
  function Pad3(n: nat): string
  {
    var t := Text(n);
    if |t| >= 3 then t else Zeros(3 - |t|) + t
  }

  /** The padded text is all digits, at least three of them, exactly three below
      1000, and reads back as `n`; so distinct numbers get distinct texts. */
  lemma Pad3Spec(n: nat)
    ensures AllDigits(Pad3(n)) && |Pad3(n)| >= 3
    ensures n < 1000 ==> |Pad3(n)| == 3
    ensures Value(Pad3(n)) == n
  {
    TextValue(n);
    var t := Text(n);
    if |t| < 3 {
      ZerosValue(3 - |t|, t);
    }
    if n < 1000 {
      TextLength(n);
    }
  }

  lemma {:induction false} TextLength(n: nat)
    ensures n < 10 ==> |Text(n)| == 1
    ensures n < 100 ==> |Text(n)| <= 2
    ensures n < 1000 ==> |Text(n)| <= 3
  {
    if n >= 10 {
      TextLength(n / 10);
    }
  }

  lemma Pad3Injective(a: nat, b: nat)
    requires Pad3(a) == Pad3(b)
    ensures a == b
  {
    Pad3Spec(a);
    Pad3Spec(b);
  }
}
