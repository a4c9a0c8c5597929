/** `mbedtls_mpi_exp_mod`: exponentiation of signed numbers, and exactly when its result is the reduced power. */
module SignedExpMod {
  import opened Arithmetic
  import opened Limbs
  import opened LimbOps
  import opened Divisibility
  import opened Montgomery
  import opened ExpMod
  import opened MultiPrecision
  import opened Division

  const MAX_BITS := 8192

  /** What the code returns for a base of magnitude `a`. */
  function Outcome(a: nat, negative: bool, e: nat, n: nat, aliased: bool): int
    requires n > 0
  {
    var m := Pow(a, e) % n;
    if negative && e % 2 == 1 && !aliased then n - m else m
  }

  lemma {:induction false} PowSign(a: int, e: nat)
    ensures Pow(0 - a, e) == if e % 2 == 0 then Pow(a, e) else 0 - Pow(a, e)
  {
    if e > 0 {
      PowSign(a, e - 1);
      var p := Pow(a, e - 1);
      assert (0 - a) * p == 0 - a * p && (0 - a) * (0 - p) == a * p;
    }
  }

  /** The reduced power of a negative base with an odd exponent. */
  lemma NegativePower(a: nat, e: nat, n: nat)
    requires n > 0 && e % 2 == 1
    ensures Pow(0 - a, e) % n == if Pow(a, e) % n == 0 then 0 else n - Pow(a, e) % n
  {
    PowSign(a, e);
    var v := Pow(a, e);
    var k, m := v / n, v % n;
    assert v == n * k + m && n * (0 - k) == 0 - n * k && n * (0 - k - 1) == 0 - n * k - n;
    if m == 0 {
      DivUnique(0 - v, n, 0 - k, 0);
    } else {
      DivUnique(0 - v, n, 0 - k - 1, n - m);
    }
  }

  /**
   * The outcome is the reduced power except for a negative base with an odd exponent, where it is one
   * only if the base is not overwritten and its power is no multiple of `n`, or it is and it is.
   */
  lemma OutcomeReduced(a: nat, negative: bool, e: nat, n: nat, aliased: bool)
    requires n % 2 == 1
    ensures Outcome(a, negative, e, n, aliased) == Pow(if negative then 0 - a else a, e) % n
       <==> (negative && e % 2 == 1 ==> (aliased <==> Divides(n, Pow(a, e))))
  {
    hide Pow;
    if negative {
      if e % 2 == 1 {
        NegativePower(a, e, n);
      } else {
        PowSign(a, e);
      }
    }
  }

  /** What the code returns; `empty` says that the exponent has no limbs. */
  function Result(empty: bool, a: nat, negative: bool, e: nat, n: nat, aliased: bool): int
    requires n > 0
  {
    if empty then 1 else Outcome(a, negative, e, n, aliased)
  }

  /** The condition under which that is the reduced power. */
  predicate Right(empty: bool, a: nat, negative: bool, e: nat, n: nat, aliased: bool)
  {
    if empty then n != 1 else negative && e % 2 == 1 ==> (aliased <==> Divides(n, Pow(a, e)))
  }

  /** Exactly when the result is right. */
  lemma ResultExact(empty: bool, a: nat, negative: bool, e: nat, n: nat, aliased: bool)
    requires n % 2 == 1 && (empty ==> e == 0)
    ensures Result(empty, a, negative, e, n, aliased) == Pow(if negative then 0 - a else a, e) % n
       <==> Right(empty, a, negative, e, n, aliased)
  {
    hide Outcome, Divides;
    if empty {
      if n > 1 {
        DivUnique(1, n, 0, 1);
      }
    } else {
      OutcomeReduced(a, negative, e, n, aliased);
    }
  }

  /** -3 modulo 3 comes out as 3; -1 modulo 3, overwritten, as 1; and 0^0 modulo 1, without exponent limbs, as 1. */
  lemma WrongResults()
    ensures Result(false, 3, true, 1, 3, false) == 3 && Pow(-3, 1) % 3 == 0
    ensures Result(false, 1, true, 1, 3, true) == 1 && Pow(-1, 1) % 3 == 2
    ensures Result(true, 0, false, 0, 1, false) == 1 && Pow(0, 0) % 1 == 0
  {
    assert Pow(3, 1) == 3 * Pow(3, 0) && Pow(1, 1) == 1 * Pow(1, 0);
    assert Pow(-3, 1) == -3 * Pow(-3, 0) && Pow(-1, 1) == -1 * Pow(-1, 0);
  }

  // ---------------------------------------------------------------- the squared radix

  /** When the square of one limb's radix, which the documentation asks for, does for RR. */
  lemma DocumentedRadix(m: nat, n: nat)
    requires m % 2 == 1 && n > 0
    ensures SquaredRadix(BASE * BASE % m, m, Power(n)) <==> Divides(m, Power(2 * n - 2) - 1)
  {
    hide Divides, Power, Pow2;
    var rr, r, w := BASE * BASE % m, Power(n), Power(2 * n - 2) - 1;
    RadixDifference(n);
    Pow2Limb();
    Pow2Sum(LIMB_BITS, LIMB_BITS);
    DivUnique(rr, m, 0, rr);
    DifferenceDivides(rr, BASE * BASE, m);
    if Divides(m, rr - r * r) {
      Combination(m, rr - r * r, rr - BASE * BASE, -1);
      Combination(m, 0 * m, BASE * BASE - r * r, -1);
      CancelPow2(m, LIMB_BITS + LIMB_BITS, w);
    }
    if Divides(m, w) {
      Combination(m, rr - BASE * BASE, w, 0 - BASE * BASE);
    }
  }

  lemma RadixDifference(n: nat)
    requires n > 0
    ensures Power(n) * Power(n) - BASE * BASE == BASE * BASE * (Power(2 * n - 2) - 1)
  {
    hide Power;
    PowerSum(n, n);
    PowerStep(2 * n - 2);
    PowerStep(2 * n - 1);
  }

  /** One limb is always well served; for the two limbs of 2^32 + 3 the documented value is wrong. */
  lemma TwoLimbRadix(m: nat)
    requires m % 2 == 1
    ensures SquaredRadix(BASE * BASE % m, m, Power(1))
    ensures Value([3, 1]) == BASE + 3 && !SquaredRadix(BASE * BASE % (BASE + 3), BASE + 3, Power(2))
  {
    hide SquaredRadix, Value;
    DocumentedRadix(m, 1);
    DocumentedRadix(BASE + 3, 2);
    PowersOfBase();
    Factor(m, 0, 0);
    DivUnique(Power(2) - 1, BASE + 3, BASE - 3, 8);
    TwoLimbs([3, 1]);
  }

  lemma PowersOfBase()
    ensures Power(0) == 1 && Power(1) == BASE && Power(2) == BASE * BASE
  {
    PowerStep(0);
    PowerStep(1);
  }

  /** `core_get_mont_r2_unsafe`, as the array the core functions read. */
  method MontR2(N: Mpi) returns (RR: array<limb>)
    requires N.s == 1 && N.Abs() > 0 && N.p.Length > 0
    ensures fresh(RR) && RR.Length == N.p.Length && SquaredRadix(Value(RR[..]), N.Abs(), Power(N.p.Length))
  {
    hide Value, Power, Pow2, Bits;
    var n := N.p.Length;
    var X := new Mpi();
    X.Set(1);
    X.ShiftL(n * 2 * LIMB_BITS);
    SquaredPower(n);
    var _ := Modulo(X, X, N);
    X.Grow(n);
    RR := LowLimbs(X, n, N);
    RemainderSquared(Value(RR[..]), N.Abs(), Power(n));
  }

  lemma SquaredPower(n: nat)
    ensures Pow2(n * 2 * LIMB_BITS) == Power(n) * Power(n)
  {
    hide Power, Pow2;
    PowerPow2(n);
    Pow2Sum(LIMB_BITS * n, LIMB_BITS * n);
    assert LIMB_BITS * n + LIMB_BITS * n == n * 2 * LIMB_BITS;
  }

  lemma RemainderSquared(rr: int, n: int, r: int)
    requires n > 0 && rr == r * r % n
    ensures SquaredRadix(rr, n, r)
  {
    var k := r * r / n;
    assert r * r == n * k + rr;
    Factor(n, rr - r * r, 0 - k);
  }

  /** The limbs of `X` that the core functions work on; the others are zero because `X` is below `N`. */
  method LowLimbs(X: Mpi, n: nat, ghost N: Mpi) returns (x: array<limb>)
    requires X.p.Length >= n && N.p.Length == n && X.Abs() < N.Abs()
    ensures fresh(x) && x.Length == n && Value(x[..]) == X.Abs()
  {
    hide Value, Power;
    x := new limb[n];
    CopyLow(x, X.p, n);
    ValueBound(N.p[..]);
    HighZeros(X.p[..], n);
    PaddedValue(X.p[..], n);
    assert x[..] == x[..n] == X.p[..][..n];
  }

  /** The checks on the operands. */
  method Admitted(E: Mpi, N: Mpi) returns (ok: bool)
    requires E.Valid() && N.Valid()
    ensures ok <==>
              N.Int() > 0 && N.Int() % 2 == 1 && E.Int() >= 0 && Bits(E.Abs()) <= MAX_BITS && Bits(N.Abs()) <= MAX_BITS
  {
    hide Value, Bits;
    var c := N.CompareInt(0);
    if c <= 0 {
      return false;
    }
    ValueZero(N.p[..]);
    Parity(N.p[..]);
    if N.p[0] % 2 == 0 {
      return false;
    }
    c := E.CompareInt(0);
    if c < 0 {
      return false;
    }
    var eBits := BitLen(E.p);
    var nBits := BitLen(N.p);
    ok := eBits <= MAX_BITS && nBits <= MAX_BITS;
  }

  /** `mpi_exp_mod_optionally_safe` without a cached RR; `X` may be `A`, whose sign is then lost. */
  method Exponentiate(X: Mpi, A: Mpi, E: Mpi, isPublic: bool, N: Mpi, W: nat) returns (ok: bool)
    requires X.Valid() && A.Valid() && E.Valid() && N.Valid() && X.Apart(A)
    requires X != E && X != N && X.p != E.p && X.p != N.p
    modifies X, X.p
    ensures ok <==>
              N.Int() > 0 && N.Int() % 2 == 1 && E.Int() >= 0 && Bits(E.Abs()) <= MAX_BITS && Bits(N.Abs()) <= MAX_BITS
    ensures ok ==> X.Int() == Result(E.p.Length == 0, old(A.Abs()), old(A.s) == -1, E.Abs(), N.Abs(), X == A)
    ensures ok ==> (X.Int() == Pow(old(A.Int()), E.Abs()) % N.Abs()
              <==> Right(E.p.Length == 0, old(A.Abs()), old(A.s) == -1, E.Abs(), N.Abs(), X == A))
  {
    hide Value, Power, Pow2, Bits, Pow, Right;
    ok := Admitted(E, N);
    if !ok {
      return;
    }
    ghost var a, n := A.Abs(), N.Abs();
    ValueZero(E.p[..]);
    ResultExact(E.p.Length == 0, a, A.s == -1, E.Abs(), n, X == A);
    if E.p.Length == 0 {
      X.Set(1);
      return;
    }
    ValueZero(N.p[..]);
    var RR := MontR2(N);
    ReducedBase(X, A, N);
    PowReduced(a, E.Abs(), n);
    ReducedExp(X, E, isPublic, N, RR, W);
    Parity(E.p[..]);
    if A.s == -1 && E.p[0] % 2 != 0 {
      Compensate(X, N);
    }
  }

  /** `X := |A| mod N`, with at least as many limbs as `N`. */
  method ReducedBase(X: Mpi, A: Mpi, N: Mpi)
    requires X.Valid() && A.Valid() && N.s == 1 && N.Abs() > 0 && X.Apart(A) && X != N && X.p != N.p
    modifies X, X.p
    ensures X.s == 1 && X.Abs() == old(A.Abs()) % N.Abs() && X.p.Length >= N.p.Length
    ensures (X.p == old(X.p) || fresh(X.p)) && X.p != N.p
  {
    hide Value;
    X.Assign(A);
    X.s := 1;
    var c := X.Compare(N);
    if c >= 0 {
      var _ := Modulo(X, X, N);
    } else {
      DivUnique(old(A.Abs()), N.Abs(), 0, old(A.Abs()));
    }
    X.Grow(N.p.Length);
  }

  /** The correction for a negative base: `N - X`, which is `N` when `X` is 0. */
  method Compensate(X: Mpi, N: Mpi)
    requires X.s == 1 && N.s == 1 && X != N && X.p != N.p
    modifies X, X.p
    ensures X.Int() == N.Abs() - old(X.Abs())
  {
    hide Value;
    var c := X.CompareInt(0);
    X.s := if c != 0 then -1 else 1;
    X.AddSub(N, X, 1);
  }

  /** The core functions on the limbs of `X` below those of `N`. */
  method ReducedExp(X: Mpi, E: Mpi, isPublic: bool, N: Mpi, RR: array<limb>, W: nat)
    requires X.s == 1 && E.p.Length > 0 && N.s == 1 && N.Abs() % 2 == 1 && X.p.Length >= N.p.Length && X.Abs() < N.Abs()
    requires X.p != E.p && X.p != N.p && RR != X.p && RR.Length == N.p.Length
    requires SquaredRadix(Value(RR[..]), N.Abs(), Power(N.p.Length))
    modifies X.p
    ensures X.Abs() == Pow(old(X.Abs()), E.Abs()) % N.Abs()
  {
    hide Value, Power, Pow, SquaredRadix;
    ValueZero(N.p[..]);
    ValueBound(N.p[..]);
    HighZeros(X.p[..], N.p.Length);
    var x := LowLimbs(X, N.p.Length, N);
    ExpModReduced(x, N.p, E.p, isPublic, RR, W);
    CopyLow(X.p, x, x.Length);
    PaddedValue(X.p[..], x.Length);
    assert X.p[..][..x.Length] == x[..];
  }

  /** A base may be reduced first. */
  lemma {:induction false} PowReduced(a: int, e: nat, n: int)
    requires n > 0
    ensures Pow(a % n, e) % n == Pow(a, e) % n
  {
    if e > 0 {
      PowReduced(a, e - 1, n);
      DivUnique(a % n, n, 0, a % n);
      MulMod(a, Pow(a, e - 1), a % n, Pow(a % n, e - 1), n);
    }
  }

  lemma MulMod(x: int, y: int, x': int, y': int, n: int)
    requires n > 0 && x % n == x' % n && y % n == y' % n
    ensures x * y % n == x' * y' % n
  {
    hide Divides;
    DifferenceDivides(x, x', n);
    DifferenceDivides(y, y', n);
    Combination(n, 0 * n, y - y', x);
    Combination(n, x * (y - y'), x - x', y');
    assert x * (y - y') + y' * (x - x') == x * y - x' * y';
    SameRemainder(x * y, x' * y', n);
  }

  lemma DifferenceDivides(x: int, y: int, n: int)
    requires n > 0 && x % n == y % n
    ensures Divides(n, x - y) && Divides(n, 0)
  {
    var i, j := x / n, y / n;
    assert x == n * i + x % n && y == n * j + y % n && n * (i - j) == n * i - n * j;
    Factor(n, x - y, i - j);
    Factor(n, 0, 0);
  }

  lemma SameRemainder(x: int, y: int, n: int)
    requires Divides(n, x - y)
    ensures x % n == y % n
  {
    Quotient(n, x - y);
    RemainderCongruent(x, n, (x - y) / n, y);
  }
}
