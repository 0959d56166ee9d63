/** Unpadded decimal text of a non-negative number, as `format!("{n}")`
    writes it, with the reading that inverts it. */
module Decimal {
  predicate IsDigit(c: char) { '0' <= c <= '9' }

  predicate AllDigits(s: string) { forall i :: 0 <= i < |s| ==> IsDigit(s[i]) }

  function DigitChar(d: nat): (c: char)
    requires d < 10
    ensures IsDigit(c) && c as int - 48 == d
  {
    (48 + d) as char
  }

  /** The decimal digits of n, most significant first, without leading zeros. */
  function Show(n: nat): (s: string)
    ensures 1 <= |s| && AllDigits(s)
    ensures s[0] == '0' <==> n == 0
  {
    if n < 10 then [DigitChar(n)] else Show(n / 10) + [DigitChar(n % 10)]
  }

  /** The number a string of decimal digits denotes. */
  function Read(s: string): nat
    requires AllDigits(s)
  {
    if s == [] then 0 else 10 * Read(s[..|s| - 1]) + (s[|s| - 1] as int - 48)
  }

  /** Reading the digits of n gives n back. */
  lemma {:induction false} ReadShow(n: nat)
    ensures Read(Show(n)) == n
  {
    if n >= 10 {
      ReadShow(n / 10);
      var s := Show(n);
      assert s[..|s| - 1] == Show(n / 10);
    }
  }

  /** Different numbers are written differently. */
  lemma ShowInjective(a: nat, b: nat)
    ensures Show(a) == Show(b) ==> a == b
  {
    ReadShow(a);
    ReadShow(b);
  }

  /** A `u8` takes at most three digits. */
  lemma ShowByteWidth(n: nat)
    requires n < 0x100
    ensures |Show(n)| <= 3
  {
    if n >= 10 {
      var m := n / 10;
      assert |Show(n)| == |Show(m)| + 1;
      if m >= 10 {
        assert m / 10 < 10;
        assert |Show(m)| == |Show(m / 10)| + 1 == 2;
      }
    }
  }

  /** Two digit runs each followed by a non-digit split a string the same
      way: the runs are equal and so are the rests. */
  lemma DigitsThenNonDigit(a: string, r: string, b: string, t: string)
    requires AllDigits(a) && AllDigits(b)
    requires |r| > 0 && |t| > 0 && !IsDigit(r[0]) && !IsDigit(t[0])
    requires a + r == b + t
    ensures a == b && r == t
  {
    var k := if |a| < |b| then |a| else |b|;
    assert k < |a + r| && (a + r)[k] == (b + t)[k];
    assert |a| == |b|;
    assert a == (a + r)[..|a|] && b == (b + t)[..|b|];
    assert r == (a + r)[|a|..] && t == (b + t)[|b|..];
  }
}
