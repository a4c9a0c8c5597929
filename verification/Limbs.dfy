/** Numbers stored as little-endian limbs (the representation of Mbed TLS's bignum_core.c). */
module Limbs {
  import opened Arithmetic

  /** biL; a limb is a 32-bit word on the board. */
  const LIMB_BITS := 32
  const BASE := 0x1_0000_0000

  type limb = x: int | 0 <= x < BASE

  /** The weight of limb `n`. */
  function Power(n: nat): (p: nat)
    ensures p >= 1
  {
    if n == 0 then 1 else BASE * Power(n - 1)
  }

  function Value(s: seq<limb>): nat
  {
    if s == [] then 0 else Value(s[..|s| - 1]) + s[|s| - 1] * Power(|s| - 1)
  }

  lemma ValueGrow(s: seq<limb>, i: nat)
    requires i < |s|
    ensures Value(s[..i + 1]) == Value(s[..i]) + s[i] * Power(i)
  {
    assert s[..i + 1][..i] == s[..i];
  }

  lemma ValueEmpty()
    ensures Value([]) == 0 && Power(0) == 1
  {
  }

  lemma {:induction false} ValueBound(s: seq<limb>)
    ensures Value(s) < Power(|s|)
  {
    if s != [] {
      ValueBound(s[..|s| - 1]);
      Scale(s[|s| - 1] as int + 1, BASE, Power(|s| - 1));
    }
  }

  lemma {:induction false} ValueConcat(a: seq<limb>, b: seq<limb>)
    ensures Value(a + b) == Value(a) + Power(|a|) * Value(b)
  {
    if b == [] {
      assert a + b == a;
    } else {
      var n := |b| - 1;
      ValueConcat(a, b[..n]);
      assert (a + b)[..|a| + n] == a + b[..n];
      PowerSum(|a|, n);
      Distribute(Power(|a|), Value(b[..n]), b[n] as int, Power(n));
    }
  }

  lemma Distribute(p: int, v: int, x: int, q: int)
    ensures p * (v + x * q) == p * v + x * (p * q)
  {
  }

  lemma {:induction false} PowerSum(m: nat, n: nat)
    ensures Power(m + n) == Power(m) * Power(n)
  {
    if n > 0 {
      PowerSum(m, n - 1);
      assert Power(m + n) == BASE * Power(m + (n - 1));
      assert BASE * (Power(m) * Power(n - 1)) == Power(m) * (BASE * Power(n - 1));
    }
  }

  lemma ValueLow(s: seq<limb>)
    requires s != []
    ensures Value(s) == s[0] + BASE * Value(s[1..])
  {
    assert s == s[..1] + s[1..];
    ValueConcat(s[..1], s[1..]);
    assert Value(s[..1]) == Value(s[..1][..0]) + s[0] * Power(0);
  }

  lemma {:induction false} ValueZero(s: seq<limb>)
    ensures Value(s) == 0 <==> forall i :: 0 <= i < |s| ==> s[i] == 0
  {
    if s != [] {
      var n := |s| - 1;
      ValueZero(s[..n]);
      assert s[n] > 0 ==> s[n] * Power(n) > 0;
      if Value(s) == 0 {
        assert s[n] == 0;
        forall i | 0 <= i < |s| ensures s[i] == 0 {
          assert i < n ==> s[i] == s[..n][i];
        }
      }
    }
  }

  /** `s`, extended with zero limbs. */
  function Padded(s: seq<limb>, n: nat): (t: seq<limb>)
    requires |s| <= n
    ensures |t| == n && t[..|s|] == s && forall j :: |s| <= j < n ==> t[j] == 0
  {
    s + seq(n - |s|, i => 0)
  }

  /** High zero limbs do not count. */
  lemma PaddedValue(t: seq<limb>, k: nat)
    requires k <= |t| && forall j :: k <= j < |t| ==> t[j] == 0
    ensures Value(t) == Value(t[..k])
  {
    hide Value, Power;
    assert t == t[..k] + t[k..];
    ValueConcat(t[..k], t[k..]);
    ValueZero(t[k..]);
  }

  /** The highest differing limb decides a comparison. */
  lemma ValueCompare(a: seq<limb>, b: seq<limb>, i: nat)
    requires |a| == |b| && i < |a| && a[i] < b[i] && a[i + 1..] == b[i + 1..]
    ensures Value(a) < Value(b)
  {
    hide Value, Power;
    assert a == a[..i + 1] + a[i + 1..] && b == b[..i + 1] + b[i + 1..];
    ValueConcat(a[..i + 1], a[i + 1..]);
    ValueConcat(b[..i + 1], b[i + 1..]);
    ValueGrow(a, i);
    ValueGrow(b, i);
    ValueBound(a[..i]);
    Scale(a[i] as int + 1, b[i], Power(i));
  }

  /** Different limbs of the same number stand for different values. */
  lemma {:induction false} ValueInjective(a: seq<limb>, b: seq<limb>)
    requires |a| == |b| && Value(a) == Value(b)
    ensures a == b
  {
    if a != [] {
      ValueLow(a);
      ValueLow(b);
      ValueInjective(a[1..], b[1..]);
      assert a == [a[0]] + a[1..] && b == [b[0]] + b[1..];
    }
  }

  lemma Parity(s: seq<limb>)
    requires s != []
    ensures Value(s) % 2 == s[0] % 2
  {
    hide Value;
    ValueLow(s);
    assert Value(s) == s[0] + 2 * (BASE / 2 * Value(s[1..]));
  }

  // ---------------------------------------------------------------- powers of two

  function Pow2(n: nat): (p: nat)
    ensures p >= 1
  {
    if n == 0 then 1 else 2 * Pow2(n - 1)
  }

  lemma {:induction false} Pow2Sum(m: nat, n: nat)
    ensures Pow2(m + n) == Pow2(m) * Pow2(n)
  {
    if n > 0 {
      Pow2Sum(m, n - 1);
      assert Pow2(m + n) == 2 * Pow2(m + (n - 1));
      assert 2 * (Pow2(m) * Pow2(n - 1)) == Pow2(m) * (2 * Pow2(n - 1));
    }
  }

  lemma Pow2Monotone(m: nat, n: nat)
    requires m <= n
    ensures Pow2(m) <= Pow2(n)
  {
    Pow2Sum(m, n - m);
    Scale(1, Pow2(n - m), Pow2(m));
  }

  lemma Pow2Limb()
    ensures Pow2(LIMB_BITS) == BASE
  {
    assert Pow2(8) == 0x100;
    Pow2Sum(8, 8);
    Pow2Sum(16, 16);
  }

  lemma {:induction false} PowerPow2(n: nat)
    ensures Power(n) == Pow2(LIMB_BITS * n)
  {
    if n > 0 {
      PowerPow2(n - 1);
      Pow2Limb();
      Pow2Sum(LIMB_BITS, LIMB_BITS * (n - 1));
    } else {
      assert LIMB_BITS * n == 0;
    }
  }

  /** The number of significant bits. */
  function Bits(n: nat): nat
  {
    if n == 0 then 0 else 1 + Bits(n / 2)
  }

  lemma {:induction false} BitsMonotone(m: nat, n: nat)
    requires m <= n
    ensures Bits(m) <= Bits(n)
  {
    if m > 0 {
      BitsMonotone(m / 2, n / 2);
    }
  }

  lemma {:induction false} BitsBound(n: nat, k: nat)
    ensures n < Pow2(k) <==> Bits(n) <= k
  {
    if n > 0 && k > 0 {
      BitsBound(n / 2, k - 1);
    }
  }

  lemma Split(x: seq<limb>, j: nat)
    requires j <= |x|
    ensures Value(x) == Value(x[..j]) + Power(j) * Value(x[j..])
  {
    assert x == x[..j] + x[j..];
    ValueConcat(x[..j], x[j..]);
  }
}
