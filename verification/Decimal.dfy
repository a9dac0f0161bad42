/** Numbers as printf's %u and %lu print them and as a reader takes them back. */
module Decimal {
  function Digit(d: nat): char
    requires d < 10
  {
    '0' + d as char
  }

  predicate IsDigit(c: char) {
    '0' <= c <= '9'
  }

  function Value(c: char): nat
    requires IsDigit(c)
  {
    (c - '0') as nat
  }

  predicate AllDigits(s: string) {
    forall i :: 0 <= i < |s| ==> IsDigit(s[i])
  }

  function Dec(n: nat): (s: string)
    ensures s != [] && AllDigits(s)
  {
    if n < 10 then [Digit(n)] else Dec(n / 10) + [Digit(n % 10)]
  }

  function Number(s: string): nat
    requires AllDigits(s)
  {
    if s == [] then 0 else 10 * Number(s[..|s| - 1]) + Value(s[|s| - 1])
  }

  lemma {:induction false} NumberDec(n: nat)
    ensures Number(Dec(n)) == n
  {
    var s := Dec(n);
    if n >= 10 {
      NumberDec(n / 10);
      assert s[..|s| - 1] == Dec(n / 10);
    } else {
      assert s[..0] == [];
    }
  }

  /** The usual digits, the last one for the remainder by ten. */
  lemma DecDigits(n: nat)
    ensures n < 10 ==> Dec(n) == ["0123456789"[n]]
    ensures n >= 10 ==> Dec(n) == Dec(n / 10) + ["0123456789"[n % 10]]
  {
    DigitIs(n % 10);
  }

  lemma DigitIs(d: nat)
    requires d < 10
    ensures Digit(d) == "0123456789"[d]
  {
  }

  lemma DecInjective(m: nat, n: nat)
    requires Dec(m) == Dec(n)
    ensures m == n
  {
    NumberDec(m);
    NumberDec(n);
  }

  function Power10(k: nat): nat {
    if k == 0 then 1 else 10 * Power10(k - 1)
  }

  /** A number below 10^k takes at most k digits. */
  lemma {:induction false} DecLength(n: nat, k: nat)
    requires k > 0 && n < Power10(k)
    ensures |Dec(n)| <= k
  {
    if n >= 10 {
      DecLength(n / 10, k - 1);
    }
  }

  /** With the same non-digit behind both, no number starts another one: the digits end at the same place. */
  lemma DecPrefixFree(m: nat, n: nat, rest: string)
    requires rest != [] && !IsDigit(rest[0])
    requires Dec(m) + rest <= Dec(n) + rest
    ensures m == n
  {
    var a, b := Dec(m), Dec(n);
    assert (b + rest)[|a|] == rest[0];
    assert |a| == |b|;
    assert a == (a + rest)[..|a|] == (b + rest)[..|a|] == b;
    DecInjective(m, n);
  }
}
