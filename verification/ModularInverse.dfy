/** Products, greatest common divisors and modular inverses of signed numbers (bignum.c). */
module ModularInverse {
  import opened Arithmetic
  import opened Limbs
  import opened LimbOps
  import opened Divisibility
  import opened BinaryGcd
  import opened GcdModInv
  import opened Montgomery
  import opened ExpMod
  import opened MultiPrecision
  import opened Division

  // ---------------------------------------------------------------- products

  /** `core_mul`: the first `n + k` limbs of `X` become the product of `n` limbs of `A` and `k` limbs of `B`. */
  method CoreMul(X: array<limb>, A: array<limb>, n: nat, B: array<limb>, k: nat)
    requires n + k <= X.Length && n <= A.Length && k <= B.Length && X != A && X != B
    modifies X
    ensures Value(X[..n + k]) == Value(A[..n]) * Value(B[..k])
    ensures forall j :: n + k <= j < X.Length ==> X[j] == old(X[j])
  {
    hide Value, Power;
    for i := 0 to n + k
      invariant forall j :: 0 <= j < i ==> X[j] == 0
      invariant forall j :: n + k <= j < X.Length ==> X[j] == old(X[j])
    {
      X[i] := 0;
    }
    ValueZero(X[..n + 0]);
    ValueEmpty();
    assert B[..0] == [];
    for i := 0 to k
      invariant Value(X[..n + i]) == Value(A[..n]) * Value(B[..i])
      invariant forall j :: n + i <= j < n + k ==> X[j] == 0
      invariant forall j :: n + k <= j < X.Length ==> X[j] == old(X[j])
    {
      ghost var x := X[..];
      var c := Mla(X, i, n + 1, A, n, B[i]);
      TailKept(x, X[..], i + n + 1);
      RowParts(x, n, i);
      RowParts(X[..], n, i);
      assert B[..i + 1][..i] == B[..i];
      RowAdded(x[..n + i + 1], X[..n + i + 1], A[..n], B[..i + 1], i, c);
    }
  }

  lemma TailKept(x: seq<limb>, y: seq<limb>, k: nat)
    requires k <= |x| == |y| && y[k..] == x[k..]
    ensures forall j :: k <= j < |x| ==> y[j] == x[j]
  {
    forall j | k <= j < |x|
      ensures y[j] == x[j]
    {
      assert y[k..][j - k] == x[k..][j - k];
    }
  }

  /** The limbs of one row and those below it. */
  lemma RowParts(x: seq<limb>, n: nat, i: nat)
    requires n + i + 1 <= |x|
    ensures x[..n + i + 1][..n + i] == x[..n + i] && x[..n + i + 1][i..] == x[i..i + (n + 1)]
              && x[..n + i + 1][..i] == x[..i]
  {
  }

  /** Adding `a` times limb `i` of `b` at position `i` completes the product up to that limb, without a carry. */
  lemma RowAdded(x: seq<limb>, y: seq<limb>, a: seq<limb>, b: seq<limb>, i: nat, c: limb)
    requires |x| == |y| == |a| + i + 1 && |b| == i + 1
    requires x[|a| + i] == 0 && Value(x[..|a| + i]) == Value(a) * Value(b[..i])
    requires y[..i] == x[..i] && Value(y[i..]) + c * Power(|a| + 1) == Value(x[i..]) + b[i] * Value(a)
    ensures Value(y) == Value(a) * Value(b)
  {
    hide Value, Power;
    Split(x, i);
    Split(y, i);
    PaddedValue(x, |a| + i);
    ValueGrow(b, i);
    assert b[..i + 1] == b;
    RowAlgebra(Value(x[..i]), Value(y[i..]), Value(x[i..]), c, Power(i), Power(|a| + 1), b[i], Value(a));
    PowerSum(i, |a| + 1);
    ValueBound(a);
    ValueBound(b);
    PowerSum(|a|, i + 1);
    assert Value(a) * (Value(b[..i]) + b[i] * Power(i)) == Value(a) * Value(b[..i]) + Value(a) * (b[i] * Power(i));
    ProductBelow(Value(a), Value(b), Power(|a|), Power(i + 1));
    CarryIsZero(Value(y), c, Power(|a| + i + 1), Value(a) * Value(b));
  }

  lemma RowAlgebra(low: int, yh: int, xh: int, c: int, p: int, q: int, bi: int, va: int)
    requires yh + c * q == xh + bi * va
    ensures (low + p * yh) + c * (p * q) == (low + p * xh) + va * (bi * p)
  {
    assert p * (yh + c * q) == p * yh + c * (p * q);
    assert p * (xh + bi * va) == p * xh + va * (bi * p);
  }

  lemma ProductBelow(a: nat, b: nat, p: nat, q: nat)
    requires a < p && b < q
    ensures a * b < p * q
  {
    Scale(b, q - 1, a);
    Scale(a, p - 1, q);
    assert a * b == b * a && a * q == q * a && a * (q - 1) == (q - 1) * a;
  }

  /** `mbedtls_mpi_mul_mpi`; `X` may be `A` or `B`. */
  method Multiply(X: Mpi, A: Mpi, B: Mpi)
    requires X.Valid() && A.Valid() && B.Valid() && X.Apart(A) && X.Apart(B)
    modifies X, X.p
    ensures X.Valid() && X.Int() == old(A.Int()) * old(B.Int()) && (X.p == old(X.p) || fresh(X.p))
  {
    hide Value, Significant;
    var a := Operand(X, A);
    var b := Operand(X, B);
    MultiplyApart(X, a, b);
  }

  /** `A`, or a copy of it when it is `X`. */
  method Operand(X: Mpi, A: Mpi) returns (a: Mpi)
    requires A.Valid() && X.Apart(A)
    ensures a.Valid() && a != X && a.p != X.p && a.Int() == A.Int()
  {
    hide Value, Significant;
    a := A;
    if X == A {
      a := new Mpi();
      a.Assign(A);
    }
  }

  method MultiplyApart(X: Mpi, A: Mpi, B: Mpi)
    requires X.Valid() && A.Valid() && B.Valid() && X != A && X != B && X.p != A.p && X.p != B.p
    modifies X, X.p
    ensures X.Valid() && X.Int() == old(A.Int()) * old(B.Int()) && (X.p == old(X.p) || fresh(X.p))
  {
    hide Value, Significant, Signed;
    var i := A.SignificantLimbs();
    var j := B.SignificantLimbs();
    NoLimbs(A.p[..]);
    NoLimbs(B.p[..]);
    ghost var a, b := A.p[..i], B.p[..j];
    SignificantValue(A.p[..]);
    SignificantValue(B.p[..]);
    X.Grow(i + j);
    X.Set(0);
    assert Value(X.p[..]) == 0 by { SignOfZero(X.s, Value(X.p[..])); }
    ValueZero(X.p[..]);
    CoreMul(X.p, A.p, i, B.p, j);
    PaddedValue(X.p[..], i + j);
    assert X.p[..][..i + j] == X.p[..i + j];
    X.s := if i == 0 || j == 0 then 1 else A.s * B.s;
    ProductSign(A.s, Value(a), B.s, Value(b));
  }

  lemma SignificantValue(p: seq<limb>)
    ensures Value(p[..Significant(p)]) == Value(p)
  {
    PaddedValue(p, Significant(p));
  }

  lemma SignOfZero(s: int, v: nat)
    requires Signed(s, v) == 0
    ensures v == 0
  {
  }

  lemma ProductSign(s: int, v: nat, t: int, w: nat)
    requires (s == 1 || s == -1) && (t == 1 || t == -1)
    ensures Signed(s * t, v * w) == Signed(s, v) * Signed(t, w)
    ensures v == 0 || w == 0 ==> v * w == 0 && Signed(1, v * w) == Signed(s, v) * Signed(t, w)
  {
    assert (0 - v) * w == 0 - v * w && v * (0 - w) == 0 - v * w && (0 - v) * (0 - w) == v * w;
  }

  // ---------------------------------------------------------------- the lowest bit

  /** `z` zero bits lie below the lowest one bit of `v`. */
  predicate OddAfter(v: nat, z: nat)
  {
    v == Pow2(z) * (v / Pow2(z)) && v / Pow2(z) % 2 == 1
  }

  lemma OddPart(v: nat, z: nat, k: nat)
    requires v == Pow2(z) * k && k % 2 == 1
    ensures OddAfter(v, z)
  {
    DivUnique(v, Pow2(z), k, 0);
  }

  /** `mbedtls_mpi_uint_ctz`, without the compiler's builtin. */
  method CountTrailingZeros(x: limb) returns (count: nat)
    ensures if x == 0 then count == LIMB_BITS else count < LIMB_BITS && OddAfter(x, count)
  {
    hide Pow2;
    var done := false;
    count := 0;
    Pow2Limb();
    Pow2Start();
    for i := 0 to LIMB_BITS
      invariant if done then count < LIMB_BITS && OddAfter(x, count) else count == i && x == Pow2(i) * (x / Pow2(i))
    {
      if !done && x / Pow2(i) % 2 == 0 {
        NextZero(x, i);
      }
      done := done || x / Pow2(i) % 2 == 1;
      count := if done then count else i + 1;
    }
  }

  lemma NextZero(x: nat, i: nat)
    requires x == Pow2(i) * (x / Pow2(i)) && x / Pow2(i) % 2 == 0
    ensures x == Pow2(i + 1) * (x / Pow2(i + 1))
  {
    var h := x / Pow2(i) / 2;
    assert x == Pow2(i) * (2 * h) == Pow2(i + 1) * h;
    DivUnique(x, Pow2(i + 1), h, 0);
  }

  /** `mbedtls_mpi_lsb` */
  method LowestBit(X: Mpi) returns (z: nat)
    ensures if X.Abs() == 0 then z == 0 else OddAfter(X.Abs(), z)
  {
    hide Value, OddAfter;
    for i := 0 to X.p.Length
      invariant forall j :: 0 <= j < i ==> X.p[j] == 0
    {
      if X.p[i] != 0 {
        var count := CountTrailingZeros(X.p[i]);
        LowestLimb(X.p[..], i, count);
        return i * LIMB_BITS + count;
      }
    }
    ValueZero(X.p[..]);
    z := 0;
  }

  /** The lowest one bit of the lowest limb that is not zero. */
  lemma LowestLimb(x: seq<limb>, i: nat, t: nat)
    requires i < |x| && t < LIMB_BITS && OddAfter(x[i], t) && forall j :: 0 <= j < i ==> x[j] == 0
    ensures Value(x) > 0 && OddAfter(Value(x), i * LIMB_BITS + t)
  {
    hide Value, Power, Pow2, OddAfter;
    Split(x, i);
    ValueZero(x[..i]);
    ValueLow(x[i..]);
    var k := LimbOddPart(x[i], t, Value(x[i..][1..]));
    PowerPow2(i);
    Pow2Sum(LIMB_BITS * i, t);
    assert Power(i) * (Pow2(t) * k) == (Power(i) * Pow2(t)) * k;
    assert i * LIMB_BITS + t == LIMB_BITS * i + t;
    OddPart(Value(x), i * LIMB_BITS + t, k);
    Scale(1, k, Pow2(i * LIMB_BITS + t));
  }

  /** The limbs above do not change how many zero bits a limb ends with. */
  lemma LimbOddPart(x: limb, t: nat, high: nat) returns (k: nat)
    requires t < LIMB_BITS && OddAfter(x, t)
    ensures k % 2 == 1 && x + BASE * high == Pow2(t) * k
  {
    hide Pow2;
    var odd, h := x / Pow2(t), Pow2(LIMB_BITS - t - 1);
    Pow2Limb();
    Pow2Sum(t, LIMB_BITS - t);
    Pow2Step(LIMB_BITS - t - 1);
    k := odd + 2 * (h * high);
    LowestPart(Pow2(t), odd, h, high);
  }

  lemma LowestPart(q: int, odd: int, h: int, high: int)
    ensures q * odd + (q * (2 * h)) * high == q * (odd + 2 * (h * high))
  {
    assert (q * (2 * h)) * high == q * (2 * (h * high));
  }

  // ---------------------------------------------------------------- the greatest common divisor

  /** `mbedtls_mpi_get_bit` for the lowest bit. */
  method LowBit(X: Mpi) returns (b: bit)
    ensures b == X.Abs() % 2
  {
    hide Value;
    if X.p.Length == 0 {
      ValueZero(X.p[..]);
      return 0;
    }
    Parity(X.p[..]);
    b := X.p[0] % 2;
  }

  /** Makes `x` the value of `X`. */
  method StoreLow(X: Mpi, x: array<limb>)
    requires x.Length <= X.p.Length && x != X.p
    modifies X, X.p
    ensures X.p == old(X.p) && X.s == 1 && X.Abs() == Value(x[..])
  {
    hide Value;
    CopyLow(X.p, x, x.Length);
    Clear(X.p, x.Length);
    PaddedValue(X.p[..], x.Length);
    assert X.p[..][..x.Length] == x[..];
    X.s := 1;
  }

  /** What the checks of `mbedtls_mpi_gcd_modinv_odd` admit. */
  ghost predicate Usable(G: Mpi?, I: Mpi?, A: Mpi, N: Mpi)
    reads A, A.p, N, N.p
  {
    && 0 <= A.Int() <= N.Int() && N.Int() % 2 == 1 && A != N
    && (I != null ==> N.Int() != 1 && I != N && G != N)
  }

  /**
   * `mbedtls_mpi_gcd_modinv_odd`: `G` becomes the greatest common divisor `g` and `A * I` is `g` modulo `N`.
   * `G` or `I` may be `A`, and without `I`, `G` may be `N`.
   */
  method GcdAndInverse(G: Mpi?, I: Mpi?, A: Mpi, N: Mpi) returns (ok: bool, ghost g: nat)
    requires A.Valid() && N.Valid() && A.Apart(N)
    requires G != null ==> G.Valid() && G.Apart(A) && G.Apart(N)
    requires I != null ==> I.Valid() && I.Apart(A) && I.Apart(N)
    requires G != null && I != null ==> G != I && G.p != I.p
    modifies G, I, if G == null then {} else {G.p}, if I == null then {} else {I.p}
    ensures ok <==> old(Usable(G, I, A, N))
    ensures ok ==> IsGcd(g, old(A.Int()), old(N.Int()))
    ensures ok && G != null ==> G.Int() == g && G.s == 1
    ensures ok && I != null ==>
              I.Int() < N.Int() == old(N.Int()) && Multiple(g, old(A.Int()), I.Int(), N.Int()) && I.s == 1
    ensures G != null ==> G.Valid() && (G.p == old(G.p) || fresh(G.p))
    ensures I != null ==> I.Valid() && (I.p == old(I.p) || fresh(I.p))
    ensures G != null && I != null ==> G.p != I.p
    ensures !ok ==> (G != null ==> G.Int() == old(G.Int())) && (I != null ==> I.Int() == old(I.Int()))
  {
    hide Value, Power, IsGcd, Multiple;
    ok := Admit(G, I, A, N);
    if !ok {
      return false, 0;
    }
    if G != null {
      G.Grow(N.p.Length);
    }
    if I != null {
      I.Grow(N.p.Length);
    }
    var x, i := RunCore(A, N, I != null);
    g := Value(x[..]);
    if I != null {
      StoreLow(I, i);
    }
    if G != null {
      StoreLow(G, x);
    }
  }

  /** The core function on the limbs of `A` and `N`. */
  method RunCore(A: Mpi, N: Mpi, inverse: bool) returns (g: array<limb>, i: array?<limb>)
    requires A.p != N.p && A.Abs() <= N.Abs() && N.Abs() % 2 == 1 && (inverse ==> N.Abs() != 1)
    ensures fresh(g) && g.Length == N.p.Length && IsGcd(Value(g[..]), A.Abs(), N.Abs())
    ensures inverse <==> i != null
    ensures i != null ==> fresh(i) && i.Length == N.p.Length && i != g
    ensures i != null ==> Value(i[..]) < N.Abs() && Multiple(Value(g[..]), A.Abs(), Value(i[..]), N.Abs())
  {
    hide Value, Power, IsGcd, Multiple;
    ValueZero(N.p[..]);
    var x := A.p;
    if A.p.Length == 0 {
      x := new limb[1];
      x[0] := 0;
      ValueZero(A.p[..]);
      ValueZero(x[..]);
    }
    HighZeroOperand(x[..], N.p[..], Read(x, N.p));
    assert x[..][..Read(x, N.p)] == x[..Read(x, N.p)];
    g := new limb[N.p.Length];
    i := null;
    if inverse {
      i := new limb[N.p.Length];
    }
    GcdModInvOdd(g, i, x, N.p);
  }

  /** The limbs of an operand beyond those of the larger one are zero. */
  lemma HighZeroOperand(x: seq<limb>, y: seq<limb>, k: nat)
    requires Value(x) <= Value(y) && k == if |x| > |y| then |y| else |x|
    ensures Value(x[..k]) == Value(x)
  {
    hide Value, Power;
    ValueBound(y);
    if |x| > |y| {
      HighZeros(x, k);
    }
    PaddedValue(x, k);
  }

  method Admit(G: Mpi?, I: Mpi?, A: Mpi, N: Mpi) returns (ok: bool)
    requires A.Valid() && N.Valid()
    ensures ok <==> Usable(G, I, A, N)
  {
    hide Value;
    var c := A.CompareInt(0);
    if c < 0 {
      return false;
    }
    c := A.Compare(N);
    if c > 0 {
      return false;
    }
    var b := LowBit(N);
    if b != 1 {
      return false;
    }
    if I != null {
      c := N.CompareInt(1);
      if c == 0 {
        return false;
      }
    }
    ok := !(A == N || (I != null && (I == N || G == N)));
  }

  /** Doubling both numbers doubles the divisor. */
  lemma GcdDouble(g: nat, x: nat, y: nat)
    requires IsGcd(g, x, y)
    ensures IsGcd(2 * g, 2 * x, 2 * y)
  {
    forall d | Common(d, 2 * x, 2 * y) ensures Divides(d, 2 * g) {
      if d % 2 == 1 {
        HalfDivides(d, x);
        HalfDivides(d, y);
        Quotient(d, g);
        Factor(d, 2 * g, 2 * (g / d));
      } else {
        HalveDivisor(d / 2, x);
        HalveDivisor(d / 2, y);
        DoubleDivisor(d / 2, g);
      }
    }
    DoubleDivisor(g, x);
    DoubleDivisor(g, y);
  }

  lemma DoubleDivisor(d: int, x: int)
    requires Divides(d, x)
    ensures Divides(2 * d, 2 * x)
  {
    Factor(2 * d, 2 * x, x / d);
  }

  lemma HalveDivisor(d: int, x: int)
    requires Divides(2 * d, 2 * x)
    ensures Divides(d, x)
  {
    var k := 2 * x / (2 * d);
    assert 2 * x == (2 * d) * k == 2 * (d * k);
    Factor(d, x, k);
  }

  /** Doubling one of two numbers does not matter when the other is odd. */
  lemma GcdOdd(g: nat, x: nat, y: nat)
    requires IsGcd(g, x, y) && x % 2 == 1
    ensures IsGcd(g, x, 2 * y)
  {
    forall d | Common(d, x, 2 * y) ensures Divides(d, g) {
      OddDivisor(d, x);
      HalfDivides(d, y);
    }
    Factor(g, 2 * y, 2 * (y / g));
  }

  lemma GcdSwapped(g: int, x: int, y: int)
    requires IsGcd(g, x, y)
    ensures IsGcd(g, y, x)
  {
    forall d | Common(d, y, x) ensures Divides(d, g) {
      assert Common(d, x, y);
    }
  }

  /** The powers of two put aside come back as the smaller one. */
  lemma {:induction false} GcdScaled(g: nat, x: nat, y: nat, za: nat, zb: nat)
    requires IsGcd(g, x, y) && x % 2 == 1 && y % 2 == 1
    ensures IsGcd(g * Pow2(Min(za, zb)), x * Pow2(za), y * Pow2(zb))
  {
    hide IsGcd;
    if za > 0 && zb > 0 {
      GcdScaled(g, x, y, za - 1, zb - 1);
      GcdDouble(g * Pow2(Min(za - 1, zb - 1)), x * Pow2(za - 1), y * Pow2(zb - 1));
      Doubled(g, Min(za - 1, zb - 1));
      Doubled(x, za - 1);
      Doubled(y, zb - 1);
    } else if zb > 0 {
      GcdScaled(g, x, y, 0, zb - 1);
      GcdOdd(g, x, y * Pow2(zb - 1));
      Doubled(y, zb - 1);
    } else if za > 0 {
      GcdScaled(g, x, y, za - 1, 0);
      GcdSwapped(g, x * Pow2(za - 1), y);
      GcdOdd(g, y, x * Pow2(za - 1));
      GcdSwapped(g, y, 2 * (x * Pow2(za - 1)));
      Doubled(x, za - 1);
    }
  }

  lemma Doubled(x: int, z: nat)
    ensures 2 * (x * Pow2(z)) == x * Pow2(z + 1)
  {
  }

  /** A sign does not matter to the common divisors. */
  lemma GcdSigned(g: int, s: int, v: nat, t: int, w: nat)
    requires IsGcd(g, v, w)
    ensures IsGcd(g, Signed(s, v), Signed(t, w))
  {
    forall d ensures Common(d, Signed(s, v), Signed(t, w)) <==> Common(d, v, w) {
      SignDivides(d, v);
      SignDivides(d, w);
    }
  }

  lemma SignDivides(d: int, x: int)
    ensures Divides(d, 0 - x) <==> Divides(d, x)
  {
    if d > 0 {
      if Divides(d, x) {
        Factor(d, 0 - x, 0 - x / d);
      }
      if Divides(d, 0 - x) {
        Factor(d, x, 0 - (0 - x) / d);
      }
    }
  }

  lemma GcdWithZero(v: nat)
    requires v > 0
    ensures IsGcd(v, 0, v) && IsGcd(v, v, 0)
  {
    EndDivisors(v);
    GcdSwapped(v, 0, v);
  }

  /** `g` is what the library calls the greatest common divisor, which for two zeros is 0. */
  ghost predicate GcdOf(g: int, a: int, b: int)
  {
    if a == 0 && b == 0 then g == 0 else IsGcd(g, a, b)
  }

  /** `mbedtls_mpi_core_check_zero_ct` */
  method AnyBit(A: array<limb>) returns (nonzero: bool)
    ensures nonzero <==> Value(A[..]) != 0
  {
    hide Value;
    nonzero := false;
    for i := 0 to A.Length
      invariant nonzero <==> exists j :: 0 <= j < i && A[j] != 0
    {
      nonzero := nonzero || A[i] != 0;
    }
    ValueZero(A[..]);
  }

  /** A copy of the absolute value. */
  method AbsoluteCopy(A: Mpi) returns (T: Mpi)
    requires A.Valid()
    ensures fresh(T) && fresh(T.p) && T.s == 1 && T.Abs() == A.Abs()
  {
    hide Value, Significant;
    T := new Mpi();
    T.Assign(A);
    T.s := 1;
  }

  /** `mbedtls_mpi_gcd`; `G` may be `A` or `B`. */
  method Gcd(G: Mpi, A: Mpi, B: Mpi)
    requires G.Valid() && A.Valid() && B.Valid() && G.Apart(A) && G.Apart(B)
    modifies G, G.p
    ensures GcdOf(G.Int(), old(A.Int()), old(B.Int())) && G.s == 1 && (G.p == old(G.p) || fresh(G.p))
  {
    hide Value, Significant, IsGcd;
    ghost var a, b, sa, sb := A.Abs(), B.Abs(), A.s, B.s;
    var TA := AbsoluteCopy(A);
    var TB := AbsoluteCopy(B);
    TA.Grow(if TB.p.Length != 0 then TB.p.Length else 1);
    TB.Grow(TA.p.Length);
    var nonzero := AnyBit(TA.p);
    if !nonzero {
      if b > 0 {
        GcdWithZero(b);
        GcdSigned(b, sa, a, sb, b);
      }
      G.Assign(TB);
      return;
    }
    nonzero := AnyBit(TB.p);
    if !nonzero {
      GcdWithZero(a);
      GcdSigned(a, sa, a, sb, b);
      G.Assign(TA);
      return;
    }
    ghost var g := GcdNonzero(G, TA, TB);
    GcdSigned(g, sa, a, sb, b);
  }

  /** The rest of `mbedtls_mpi_gcd`, on two copies that it overwrites. */
  method GcdNonzero(G: Mpi, TA: Mpi, TB: Mpi) returns (ghost g: nat)
    requires G.Valid() && TA.s == 1 && TB.s == 1 && TA.p.Length == TB.p.Length && TA.Abs() > 0 && TB.Abs() > 0
    requires TA != TB && TA != G && TB != G && TA.p != TB.p && TA.p != G.p && TB.p != G.p
    modifies G, G.p, TA.p, TB.p
    ensures IsGcd(g, old(TA.Abs()), old(TB.Abs())) && G.Int() == g && G.s == 1 && (G.p == old(G.p) || fresh(G.p))
  {
    hide Value, Pow2, Bits, IsGcd, OddAfter;
    ghost var a, b := TA.Abs(), TB.Abs();
    var za := LowestBit(TA);
    var zb := LowestBit(TB);
    TA.ShiftR(za);
    TB.ShiftR(zb);
    PartsPutAside(a, za);
    PartsPutAside(b, zb);
    ghost var g0 := OddGcd(G, TA, TB);
    GcdScaled(g0, a / Pow2(za), b / Pow2(zb), za, zb);
    G.ShiftL(if za > zb then zb else za);
    g := g0 * Pow2(Min(za, zb));
  }

  lemma PartsPutAside(v: nat, z: nat)
    requires OddAfter(v, z)
    ensures v == v / Pow2(z) * Pow2(z) && v / Pow2(z) % 2 == 1
  {
    hide Pow2;
  }

  /** The greatest common divisor of two odd numbers, the smaller one first. */
  method OddGcd(G: Mpi, TA: Mpi, TB: Mpi) returns (ghost g: nat)
    requires G.Valid() && TA.s == 1 && TB.s == 1 && TA.p.Length == TB.p.Length && TA.Abs() % 2 == 1 && TB.Abs() % 2 == 1
    requires TA != TB && TA != G && TB != G && TA.p != TB.p && TA.p != G.p && TB.p != G.p
    modifies G, G.p, TA.p, TB.p
    ensures IsGcd(g, old(TA.Abs()), old(TB.Abs())) && G.Int() == g && G.s == 1 && (G.p == old(G.p) || fresh(G.p))
  {
    hide Value, IsGcd;
    ghost var x, y := TA.Abs(), TB.Abs();
    var swap := LessThan(TB.p, TA.p);
    CondSwap(TA.p, TB.p, swap);
    var ok;
    ok, g := GcdAndInverse(G, null, TA, TB);
    if swap {
      GcdSwapped(g, y, x);
    }
  }

  // ---------------------------------------------------------------- modular inverses

  ghost predicate Invertible(a: int, n: int)
  {
    exists x :: Inverts(x, a, n)
  }

  datatype Inversion = Inverted | NotAcceptable | BadInput

  /** `x` is the answer to `a^-1 mod n`; without an inverse it is still `x0`. */
  ghost predicate Settles(r: Inversion, x: int, x0: int, a: int, n: int)
  {
    match r
    case Inverted => 0 < x < n && Inverts(x, a, n)
    case NotAcceptable => x == x0 && n > 1 && !Invertible(a, n)
    case BadInput => x == x0 && n <= 1
  }

  /** A number and its remainder have the same inverses. */
  lemma InvertsReduced(x: int, a: int, n: int)
    requires n > 0
    ensures Inverts(x, a % n, n) <==> Inverts(x, a, n)
  {
    hide Divides;
    var k, t := a / n, a % n;
    assert a == n * k + t;
    Distributed(a, n, k, t, x);
    ShiftedDivides(n, 1 - t * x, 1 - a * x, k * x);
  }

  lemma ShiftedDivides(n: int, v: int, w: int, j: int)
    requires n > 0 && w == v + (0 - j) * n && v == w + j * n
    ensures Divides(n, v) <==> Divides(n, w)
  {
    hide Divides;
    DividesSelf(n);
    if Divides(n, v) {
      Combination(n, v, n, 0 - j);
    }
    if Divides(n, w) {
      Combination(n, w, n, j);
    }
  }

  lemma Distributed(a: int, n: int, k: int, t: int, x: int)
    requires a == n * k + t
    ensures 1 - a * x == (1 - t * x) + (0 - k * x) * n && 1 - t * x == (1 - a * x) + (k * x) * n
  {
    assert (n * k + t) * x == (n * k) * x + t * x && (n * k) * x == (k * x) * n && (0 - k * x) * n == 0 - (k * x) * n;
  }

  /** What a common divisor of the remainder and the modulus says about inverting the number. */
  lemma FoundInverse(g: int, a: int, x: nat, n: int)
    requires n > 1 && x < n && IsGcd(g, a % n, n) && Multiple(g, a % n, x, n)
    ensures if g == 1 then 0 < x && Inverts(x, a, n) else !Invertible(a, n)
  {
    hide Divides, Multiple;
    if g == 1 {
      InvertsReduced(x, a, n);
      if x == 0 {
        NoZeroInverse(a % n, n);
      }
    }
    forall y | Inverts(y, a, n) ensures g == 1 {
      InvertsReduced(y, a, n);
      InverseMeansCoprime(y, g, a % n, n);
    }
  }

  lemma NoZeroInverse(a: int, n: int)
    requires Inverts(0, a, n)
    ensures n == 1
  {
    assert 1 - a * 0 == 1;
    DividesOne(n);
  }

  /** `mbedtls_mpi_inv_mod_odd` */
  method InvModOdd(X: Mpi, A: Mpi, N: Mpi) returns (r: Inversion)
    requires X.Valid() && A.Valid() && N.Valid() && X.Apart(A) && X.Apart(N) && A.Apart(N)
    requires N.Int() > 1 && N.Int() % 2 == 1
    modifies X, X.p
    ensures X.Valid() && (X.p == old(X.p) || fresh(X.p))
    ensures Settles(r, X.Int(), old(X.Int()), old(A.Int()), old(N.Int()))
  {
    hide Value, Significant, IsGcd, Multiple, Inverts;
    ghost var a, n := A.Int(), N.Int();
    var T := new Mpi();
    var G := new Mpi();
    var ok := Modulo(T, A, N);
    ghost var g;
    ok, g := GcdAndInverse(G, T, T, N);
    FoundInverse(g, a, T.Int(), n);
    var c := G.CompareInt(1);
    if c != 0 {
      return NotAcceptable;
    }
    X.Assign(T);
    r := Inverted;
  }

  /** The two halves of a Bezout relation: from `n * i == 1 + k * a`, the inverse of `a` modulo `n`. */
  lemma OtherHalf(n: int, a: int, i: int, k: int)
    requires 1 < a < n && 0 < i < a && n * i - 1 == k * a
    ensures 0 < n - k < n && Inverts(n - k, a, n)
  {
    Scale(1, i, n);
    Scale(i + 1, a, n);
    Cancel(0, k, a);
    Cancel(k, n, a);
    assert a * (n - k) == a * n - k * a && n * (i - a) == n * i - n * a;
    Factor(n, 1 - a * (n - k), i - a);
  }

  /** The division in `mbedtls_mpi_inv_mod_even_in_range` is exact. */
  lemma ExactQuotient(n: int, a: int, i: int, q: int, r: int)
    requires a > 1 && Inverts(i, n, a) && Truncated(n * i - 1, a, q, r)
    ensures r == 0 && n * i - 1 == q * a
  {
    var k := (1 - n * i) / a;
    Quotient(a, 1 - n * i);
    assert n * i - 1 == (0 - k) * a + 0 by { assert (0 - k) * a == 0 - a * k; }
    TruncatedUnique(n * i - 1, a, q, r, 0 - k, 0);
  }

  /** `mbedtls_mpi_inv_mod_even_in_range`: the inverse modulo an even number from the one modulo `A`. */
  method InvModEvenInRange(X: Mpi, A: Mpi, N: Mpi) returns (r: Inversion)
    requires X.Valid() && A.Valid() && N.Valid() && X.Apart(A) && X.Apart(N) && A.Apart(N)
    requires 1 < A.Int() < N.Int() && A.Int() % 2 == 1
    modifies X, X.p
    ensures X.Valid() && (X.p == old(X.p) || fresh(X.p))
    ensures Settles(r, X.Int(), old(X.Int()), old(A.Int()), old(N.Int()))
  {
    hide Value, Significant, IsGcd, Multiple, Inverts;
    ghost var a, n := A.Int(), N.Int();
    var I, G, g := WrongHalf(A, N);
    ghost var i := I.Int();
    FoundInverse(g, n, i, a);
    var c := G.CompareInt(1);
    if c != 0 {
      NoOtherHalf(g, a, n);
      return NotAcceptable;
    }
    Cofactor(I, G, A, N);
    OtherHalf(n, a, i, G.Int());
    X.AddSub(N, G, -1);
    r := Inverted;
  }

  /** `N` inverted modulo `A`, as far as it can be. */
  method WrongHalf(A: Mpi, N: Mpi) returns (I: Mpi, G: Mpi, ghost g: nat)
    requires A.Valid() && N.Valid() && A.Apart(N) && 1 < A.Int() < N.Int() && A.Int() % 2 == 1
    ensures fresh(I) && fresh(I.p) && fresh(G) && fresh(G.p) && I != G && I.p != G.p && I.s == 1 && G.s == 1
    ensures I.Int() < A.Int() && G.Int() == g
    ensures IsGcd(g, N.Int() % A.Int(), A.Int()) && Multiple(g, N.Int() % A.Int(), I.Int(), A.Int())
  {
    hide Value, IsGcd, Multiple;
    I := new Mpi();
    G := new Mpi();
    var ok := Modulo(I, N, A);
    ok, g := GcdAndInverse(G, I, I, A);
  }

  /** `G := (N * I - 1) / A` */
  method Cofactor(I: Mpi, G: Mpi, A: Mpi, N: Mpi)
    requires I.Valid() && G.Valid() && A.Valid() && N.Valid() && I != G && I.p != G.p && A.Int() > 1
    requires I != A && I.p != A.p && I != N && I.p != N.p && G != A && G.p != A.p && G != N && G.p != N.p
    requires Inverts(I.Int(), N.Int(), A.Int())
    modifies I, I.p, G, G.p
    ensures G.Valid() && N.Int() * old(I.Int()) - 1 == G.Int() * A.Int() && (G.p == old(G.p) || fresh(G.p))
  {
    hide Value, Inverts, Truncated, Signed;
    ghost var i := I.Int();
    Multiply(I, I, N);
    Decrement(I);
    ghost var q, rest;
    var ok;
    ok, q, rest := Divide(G, null, I, A);
    ExactQuotient(N.Int(), A.Int(), i, q, rest);
  }

  /** `mbedtls_mpi_sub_int(X, X, 1)` */
  method Decrement(X: Mpi)
    requires X.Valid()
    modifies X, X.p
    ensures X.Valid() && X.Int() == old(X.Int()) - 1 && (X.p == old(X.p) || fresh(X.p))
  {
    hide Value;
    var one := new Mpi();
    one.Set(1);
    X.AddSub(X, one, -1);
  }

  lemma NoOtherHalf(g: int, a: int, n: int)
    requires a > 1 && IsGcd(g, n % a, a) && g != 1
    ensures !Invertible(a, n)
  {
    hide Divides, Inverts;
    assert Common(g, a, n) by {
      Combination(g, n % a, a, n / a);
      assert n == a * (n / a) + n % a == n % a + n / a * a;
    }
    forall x | Inverts(x, a, n) ensures g == 1 {
      InverseMeansCoprime(x, g, a, n);
    }
  }

  /** `mbedtls_mpi_inv_mod_even` */
  method InvModEven(X: Mpi, A: Mpi, N: Mpi) returns (r: Inversion)
    requires X.Valid() && A.Valid() && N.Valid() && X.Apart(A) && X.Apart(N) && A.Apart(N)
    requires N.Int() > 1 && N.Int() % 2 == 0 && A.Int() % 2 == 1
    modifies X, X.p
    ensures X.Valid() && (X.p == old(X.p) || fresh(X.p))
    ensures Settles(r, X.Int(), old(X.Int()), old(A.Int()), old(N.Int()))
  {
    hide Value, Significant, Inverts;
    ghost var a, n := A.Int(), N.Int();
    var AA := new Mpi();
    var ok := Modulo(AA, A, N);
    ReducedInverses(a, n);
    OddRemainder(a, n);
    var cmp := AA.CompareInt(1);
    if cmp < 0 {
      return NotAcceptable;
    }
    if cmp == 0 {
      X.Set(1);
      return Inverted;
    }
    r := InvModEvenInRange(X, AA, N);
    if r.Inverted? {
      InvertsReduced(X.Int(), a, n);
    }
  }

  /** The special cases of the reduced number. */
  lemma ReducedInverses(a: int, n: int)
    requires n > 1
    ensures a % n == 0 ==> !Invertible(a, n)
    ensures a % n == 1 ==> Inverts(1, a, n)
    ensures Invertible(a, n) <==> Invertible(a % n, n)
  {
    hide Inverts, Divides;
    forall x ensures Inverts(x, a % n, n) <==> Inverts(x, a, n) {
      InvertsReduced(x, a, n);
    }
    if a % n == 1 {
      OneInverts(n);
    }
    if a % n == 0 {
      DividesSelf(n);
      RemainderZero(a, n);
      forall x | Inverts(x, a, n) ensures false {
        InverseMeansCoprime(x, n, a, n);
      }
    }
  }

  lemma OneInverts(n: int)
    requires n > 0
    ensures Inverts(1, 1, n)
  {
    assert 1 - 1 * 1 == 0;
    Factor(n, 0, 0);
  }

  lemma RemainderZero(a: int, n: int)
    requires n > 0 && a % n == 0
    ensures Divides(n, a)
  {
  }

  lemma OddRemainder(a: int, n: int)
    requires n > 0 && n % 2 == 0 && a % 2 == 1
    ensures a % n % 2 == 1
  {
    assert a == n * (a / n) + a % n == 2 * (n / 2 * (a / n)) + a % n;
  }

  /** `mbedtls_mpi_inv_mod`; `X` may be `A` or `N`. */
  method InvMod(X: Mpi, A: Mpi, N: Mpi) returns (r: Inversion)
    requires X.Valid() && A.Valid() && N.Valid() && X.Apart(A) && X.Apart(N) && A.Apart(N)
    modifies X, X.p
    ensures X.Valid() && (X.p == old(X.p) || fresh(X.p))
    ensures Settles(r, X.Int(), old(X.Int()), old(A.Int()), old(N.Int()))
  {
    hide Value, Inverts, Divides;
    var c := N.CompareInt(1);
    if c <= 0 {
      return BadInput;
    }
    var b := LowBit(N);
    if b == 1 {
      r := InvModOdd(X, A, N);
      return;
    }
    b := LowBit(A);
    if b == 1 {
      r := InvModEven(X, A, N);
      return;
    }
    BothEven(A.Int(), N.Int());
    r := NotAcceptable;
  }

  lemma BothEven(a: int, n: int)
    requires a % 2 == 0 && n % 2 == 0
    ensures !Invertible(a, n)
  {
    forall x | Inverts(x, a, n) ensures false {
      InverseMeansCoprime(x, 2, a, n);
    }
  }
}
