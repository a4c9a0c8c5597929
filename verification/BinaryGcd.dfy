/** The mathematics of the constant-time binary GCD: one step, what it keeps, and how soon it ends. */
module BinaryGcd {
  import opened Limbs
  import opened Divisibility

  predicate Common(d: int, u: int, v: int)
  {
    Divides(d, u) && Divides(d, v)
  }

  /** `g` is the greatest common divisor: a common divisor that all the others divide. */
  ghost predicate IsGcd(g: int, a: int, b: int)
  {
    Common(g, a, b) && forall d :: Common(d, a, b) ==> Divides(d, g)
  }

  // ---------------------------------------------------------------- one step

  /** The number that a step keeps. */
  function Kept(u: nat, v: nat): nat
    requires u <= v
  {
    if u % 2 == 1 && v % 2 == 1 then u else v - u
  }

  /** The even number that a step halves. */
  function Shifted(u: nat, v: nat): nat
    requires u <= v
  {
    if u % 2 == 0 then u else if v % 2 == 0 then v else v - u
  }

  function NextLow(u: nat, v: nat): nat
    requires u <= v
  {
    if Shifted(u, v) / 2 < Kept(u, v) then Shifted(u, v) / 2 else Kept(u, v)
  }

  function NextHigh(u: nat, v: nat): (w: nat)
    requires u <= v
    ensures NextLow(u, v) <= w
  {
    if Shifted(u, v) / 2 < Kept(u, v) then Kept(u, v) else Shifted(u, v) / 2
  }

  lemma CommonForward(d: int, u: nat, v: nat)
    requires u <= v && (u % 2 == 1 || v % 2 == 1) && Common(d, u, v)
    ensures Common(d, Kept(u, v), Shifted(u, v) / 2)
  {
    hide Divides;
    OddDivisor(d, if u % 2 == 1 then u else v);
    Combination(d, v, u, -1);
    HalfDivides(d, Shifted(u, v) / 2);
  }

  lemma CommonBackward(d: int, u: nat, v: nat)
    requires u <= v && Common(d, Kept(u, v), Shifted(u, v) / 2)
    ensures Common(d, u, v)
  {
    hide Divides;
    var k, h := Kept(u, v), Shifted(u, v) / 2;
    assert Divides(d, 0) by { Combination(d, h, h, -1); }
    Combination(d, 0, h, 2);
    Combination(d, k, 2 * h, 1);
    Combination(d, 2 * h, k, -1);
  }

  /** A step keeps the common divisors, and so keeps one of the numbers odd. */
  lemma CommonKept(d: int, u: nat, v: nat)
    requires u <= v && (u % 2 == 1 || v % 2 == 1)
    ensures Common(d, u, v) <==> Common(d, NextLow(u, v), NextHigh(u, v))
  {
    hide Divides;
    if Common(d, u, v) {
      CommonForward(d, u, v);
    }
    if Common(d, NextLow(u, v), NextHigh(u, v)) {
      CommonBackward(d, u, v);
    }
  }

  // ---------------------------------------------------------------- how soon it ends

  /**
   * The potential of a pair, at most `p`, is the number of significant bits of two numbers that generate
   * it. Which two depends on how far apart the pair lies.
   */
  predicate Near(u: int, v: int, p: int)
    requires 0 <= u <= v
  {
    Bits(u) + Bits(v - u) <= p
  }

  /** `u` is at least half of `v`. */
  predicate High(u: int, v: int, p: int)
    requires 0 <= u <= v
  {
    var d := v - u;
    v % 2 == 1 && (u - d) % 2 == 1 && u >= d && Bits(d) + Bits(u - d) <= p
  }

  /** `u` is at most half of `v`. */
  predicate Low(u: int, v: int, p: int)
    requires 0 <= u <= v
  {
    var d := v - u;
    v % 2 == 1 && (d - u) % 2 == 1 && d >= u && Bits(u) + Bits(d - u) <= p
  }

  predicate Within(u: int, v: int, p: int)
    requires 0 <= u <= v
  {
    u == 0 || Near(u, v, p) || High(u, v, p) || Low(u, v, p)
  }

  /** At most half of a number has fewer bits. */
  lemma Halving(y: nat, z: nat)
    requires 0 < y && z <= y / 2
    ensures Bits(z) < Bits(y)
  {
    BitsMonotone(z, y / 2);
  }

  lemma NearLowers(u: nat, v: nat, p: int)
    requires 0 < u < v && (u % 2 == 1 || v % 2 == 1) && Near(u, v, p)
    ensures Within(NextLow(u, v), NextHigh(u, v), p - 1)
  {
    hide Bits;
    var d := v - u;
    if u % 2 == 0 {
      if u / 2 <= d {
        Halving(u, u / 2);
        BitsMonotone(d - u / 2, d);
      } else {
        Halving(u, u / 2 - d);
      }
    } else if v % 2 == 1 {
      if d / 2 <= u {
        Halving(d, d / 2);
        BitsMonotone(u - d / 2, u);
      } else {
        Halving(d, d / 2 - u);
      }
    } else if d <= u {
      Halving(u, (u - d) / 2);
    } else {
      Halving(d, (d - u) / 2);
      assert High(v / 2, d, p - 1);
    }
  }

  lemma HighLowers(u: nat, v: nat, p: int)
    requires 0 < u < v && High(u, v, p)
    ensures Within(NextLow(u, v), NextHigh(u, v), p - 1)
  {
    hide Bits;
    var d := v - u;
    var e := u - d;
    if u % 2 == 1 {
      Halving(d, d / 2);
      assert Low(d / 2, u, p - 1);
    } else if e >= d {
      Halving(e, (e - d) / 2);
    } else {
      Halving(d, (d - e) / 2);
      assert High(u / 2, d, p - 1);
    }
  }

  lemma LowLowers(u: nat, v: nat, p: int)
    requires 0 < u < v && Low(u, v, p)
    ensures Within(NextLow(u, v), NextHigh(u, v), p - 1)
  {
    hide Bits;
    var d := v - u;
    var f := d - u;
    if u % 2 == 0 {
      Halving(u, u / 2);
      assert Low(u / 2, d, p - 1);
    } else if f >= u {
      Halving(f, (f - u) / 2);
    } else {
      Halving(u, (u - f) / 2);
      assert High(d / 2, u, p - 1);
    }
  }

  /** Every step lowers the potential. */
  lemma StepLowers(u: nat, v: nat, p: int)
    requires u <= v && (u % 2 == 1 || v % 2 == 1) && Within(u, v, p)
    ensures Within(NextLow(u, v), NextHigh(u, v), p - 1)
  {
    if 0 < u < v {
      if Near(u, v, p) {
        NearLowers(u, v, p);
      } else if High(u, v, p) {
        HighLowers(u, v, p);
      } else {
        LowLowers(u, v, p);
      }
    }
  }

  /** With nothing left of the potential, the end is reached. */
  lemma Ended(u: nat, v: nat)
    requires u <= v && Within(u, v, 0)
    ensures u == 0
  {
  }

  // ---------------------------------------------------------------- runs of steps

  datatype Pair = Pair(low: nat, high: nat)

  /** The pair after `k` steps. */
  function Steps(a: nat, n: nat, k: nat): (p: Pair)
    requires a <= n
    ensures p.low <= p.high
  {
    if k == 0 then Pair(a, n) else
    var p := Steps(a, n, k - 1);
    Pair(NextLow(p.low, p.high), NextHigh(p.low, p.high))
  }

  lemma {:induction false} StepsKeepCommon(a: nat, n: nat, k: nat, d: int)
    requires a <= n && n % 2 == 1
    ensures Common(d, a, n) <==> Common(d, Steps(a, n, k).low, Steps(a, n, k).high)
  {
    hide Common, NextLow, NextHigh;
    if k > 0 {
      var p := Steps(a, n, k - 1);
      StepsKeepCommon(a, n, k - 1, d);
      StepsStayOdd(a, n, k - 1);
      CommonKept(d, p.low, p.high);
    }
  }

  /** The two numbers are never both even. */
  lemma {:induction false} StepsStayOdd(a: nat, n: nat, k: nat)
    requires a <= n && n % 2 == 1
    ensures Steps(a, n, k).low % 2 == 1 || Steps(a, n, k).high % 2 == 1
  {
    hide NextLow, NextHigh;
    if k > 0 {
      var p := Steps(a, n, k - 1);
      StepsStayOdd(a, n, k - 1);
      CommonKept(2, p.low, p.high);
    }
  }

  lemma {:induction false} StepsLower(a: nat, n: nat, k: nat)
    requires a <= n && n % 2 == 1
    ensures Within(Steps(a, n, k).low, Steps(a, n, k).high, Bits(a) + Bits(n) - k)
  {
    hide NextLow, NextHigh;
    if k > 0 {
      var p := Steps(a, n, k - 1);
      StepsLower(a, n, k - 1);
      StepsStayOdd(a, n, k - 1);
      StepLowers(p.low, p.high, Bits(a) + Bits(n) - (k - 1));
    } else {
      BitsMonotone(n - a, n);
    }
  }

  /** Enough steps end with 0 and the greatest common divisor. */
  lemma StepsReachGcd(a: nat, n: nat, k: nat)
    requires a <= n && n % 2 == 1 && Bits(a) + Bits(n) <= k
    ensures Steps(a, n, k).low == 0 && IsGcd(Steps(a, n, k).high, a, n)
  {
    hide Steps, Common;
    var p := Steps(a, n, k);
    StepsLower(a, n, k);
    Ended(p.low, p.high);
    StepsStayOdd(a, n, k);
    forall d ensures Common(d, a, n) <==> Common(d, 0, p.high) {
      StepsKeepCommon(a, n, k, d);
    }
    EndDivisors(p.high);
  }

  lemma EndDivisors(v: nat)
    requires v > 0
    ensures Common(v, 0, v) && forall d :: Common(d, 0, v) ==> Divides(d, v)
  {
  }

  // ---------------------------------------------------------------- the inverse

  /** `x` is `a` times `t` modulo `n`. */
  predicate Multiple(x: int, a: int, t: int, n: int)
  {
    Divides(n, x - a * t)
  }

  lemma Expand(v: int, u: int, a: int, q: int, r: int, n: int, k: int, w: int)
    requires q - r == n * k + w
    ensures v - u - a * w == (v - a * q) - (u - a * r) + (a * k) * n
  {
    assert a * (q - r) == a * q - a * r;
    assert a * (n * k + w) == a * (n * k) + a * w;
    assert a * (n * k) == (a * k) * n;
  }

  /** Subtracting both sides, the second modulo `n`. */
  lemma MultipleSub(v: int, u: int, a: int, q: int, r: int, n: int)
    requires n > 0 && Multiple(v, a, q, n) && Multiple(u, a, r, n)
    ensures Multiple(v - u, a, (q - r) % n, n)
  {
    hide Divides;
    var k, w := (q - r) / n, (q - r) % n;
    Combination(n, v - a * q, u - a * r, -1);
    DividesSelf(n);
    Combination(n, (v - a * q) - (u - a * r), n, a * k);
    Expand(v, u, a, q, r, n, k, w);
  }

  /** Halving both sides, the second modulo the odd `n`. */
  lemma MultipleHalf(h: int, a: int, t: int, t': int, n: int)
    requires n > 0 && Multiple(2 * h, a, t, n) && n % 2 == 1 && (2 * t' == t || 2 * t' == t + n)
    ensures Multiple(h, a, t', n)
  {
    hide Divides;
    DividesSelf(n);
    var k := if 2 * t' == t then 0 else 0 - a;
    Combination(n, 2 * h - a * t, n, k);
    Halved(h, a, t, t', n, k);
    HalfDivides(n, h - a * t');
  }

  lemma Halved(h: int, a: int, t: int, t': int, n: int, k: int)
    requires (k == 0 && 2 * t' == t) || (k == 0 - a && 2 * t' == t + n)
    ensures 2 * h - a * t + k * n == 2 * (h - a * t')
  {
    assert 2 * (a * t') == a * (2 * t');
    if k != 0 {
      assert a * (t + n) == a * t + a * n;
    }
  }

  /** `x` inverts `a` modulo `n`. */
  predicate Inverts(x: int, a: int, n: int)
  {
    Multiple(1, a, x, n)
  }

  /** An invertible number has no common divisor with the modulus but 1. */
  lemma InverseMeansCoprime(x: int, g: int, a: int, n: int)
    requires Common(g, a, n) && Inverts(x, a, n)
    ensures g == 1
  {
    var k := (1 - a * x) / n;
    hide Divides;
    Quotient(n, 1 - a * x);
    assert Divides(g, 0) by { Combination(g, n, n, -1); }
    Combination(g, 0, n, k);
    Combination(g, k * n, a, x);
    assert x * a == a * x && k * n == n * k;
    Quotient(g, 1);
    assert 1 == g * (1 / g);
    DividesOne(g);
  }
}
