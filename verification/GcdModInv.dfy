/** `mbedtls_mpi_core_gcd_modinv_odd`: constant-time GCD and modular inverse for an odd modulus. */
module GcdModInv {
  import opened Limbs
  import opened LimbOps
  import opened Divisibility
  import opened BinaryGcd

  /** The number of limbs of `A` that are read. */
  function Read(A: array<limb>, N: array<limb>): nat
  {
    if A.Length > N.Length then N.Length else A.Length
  }

  /** Chooses what is kept and what is halved among `low`, `high` and their difference `d`. */
  method Select(t1: array<limb>, t2: array<limb>, low: array<limb>, high: array<limb>, d: array<limb>, uOdd: bool,
                vOdd: bool)
    requires low.Length == high.Length == d.Length == t1.Length == t2.Length
    requires t1 != t2 && t1 != low && t1 != high && t1 != d && t2 != low && t2 != high && t2 != d
    modifies t1, t2
    ensures t1[..] == if uOdd && vOdd then low[..] else d[..]
    ensures t2[..] == if !uOdd then low[..] else if !vOdd then high[..] else d[..]
  {
    Copy(t1, d);
    CondAssign(t1, low, uOdd && vOdd);
    Copy(t2, low);
    CondAssign(t2, high, uOdd && !vOdd);
    CondAssign(t2, d, uOdd && vOdd);
  }

  /** The part of the loop body that works on `u` and `v`; the other arrays are scratch. */
  method UpdatePair(u: array<limb>, v: array<limb>, d: array<limb>, t1: array<limb>, t2: array<limb>)
    returns (uOdd: bool, vOdd: bool, swap: bool)
    requires 0 < u.Length == v.Length == d.Length == t1.Length == t2.Length
    requires u != v && u != d && u != t1 && u != t2 && v != d && v != t1 && v != t2 && d != t1 && d != t2 && t1 != t2
    requires Value(u[..]) <= Value(v[..]) && (Value(u[..]) % 2 == 1 || Value(v[..]) % 2 == 1)
    modifies u, v, d, t1, t2
    ensures Value(u[..]) == NextLow(old(Value(u[..])), old(Value(v[..])))
    ensures Value(v[..]) == NextHigh(old(Value(u[..])), old(Value(v[..])))
    ensures uOdd == (old(Value(u[..])) % 2 == 1) && vOdd == (old(Value(v[..])) % 2 == 1)
    ensures swap == (Shifted(old(Value(u[..])), old(Value(v[..]))) / 2 < Kept(old(Value(u[..])), old(Value(v[..]))))
  {
    hide Value, Power;
    ghost var u0, v0 := Value(u[..]), Value(v[..]);
    Parity(u[..]);
    Parity(v[..]);
    uOdd, vOdd := u[0] % 2 == 1, v[0] % 2 == 1;
    assert v[0..v.Length] == v[..] && u[..u.Length] == u[..];
    var c := Sub(d, v, 0, u, d.Length);
    assert d[..d.Length] == d[..];
    ValueBound(d[..]);
    ValueBound(v[..]);
    Borrowed(Value(d[..]), c, Power(d.Length), v0 - u0);
    Select(t1, t2, u, v, d, uOdd, vOdd);
    assert Value(t1[..]) == Kept(u0, v0) && Value(t2[..]) == Shifted(u0, v0);
    ShiftRight(t2, 1);
    assert Pow2(1) == 2;
    Copy(u, t1);
    Copy(v, t2);
    swap := LessThan(v, u);
    CondSwap(u, v, swap);
  }

  /** A difference that is not negative leaves no borrow. */
  lemma Borrowed(x: int, c: bit, p: int, d: int)
    requires x - c * p == d && 0 <= x < p && 0 <= d
    ensures c == 0 && x == d
  {
  }

  /** The part of the loop body that mirrors the step `(u0, v0)` on `r` and `q`, modulo `N`. */
  method MirrorPair(r: array<limb>, q: array<limb>, N: array<limb>, d: array<limb>, t1: array<limb>, t2: array<limb>,
                    uOdd: bool, vOdd: bool, swap: bool, ghost a: nat, ghost u0: nat, ghost v0: nat)
    requires 0 < r.Length == q.Length == N.Length == d.Length == t1.Length == t2.Length
    requires r != q && r != d && r != t1 && r != t2 && q != d && q != t1 && q != t2 && d != t1 && d != t2 && t1 != t2
    requires N != r && N != q && N != d && N != t1 && N != t2 && Value(N[..]) % 2 == 1
    requires u0 <= v0 && uOdd == (u0 % 2 == 1) && vOdd == (v0 % 2 == 1)
    requires swap == (Shifted(u0, v0) / 2 < Kept(u0, v0))
    requires Value(r[..]) < Value(N[..]) && Multiple(u0, a, Value(r[..]), Value(N[..]))
    requires Value(q[..]) < Value(N[..]) && Multiple(v0, a, Value(q[..]), Value(N[..]))
    requires uOdd || vOdd
    modifies r, q, d, t1, t2
    ensures Value(r[..]) < Value(N[..]) && Multiple(NextLow(u0, v0), a, Value(r[..]), Value(N[..]))
    ensures Value(q[..]) < Value(N[..]) && Multiple(NextHigh(u0, v0), a, Value(q[..]), Value(N[..]))
  {
    hide Value, Power, Multiple, Kept, Shifted, NextLow, NextHigh;
    ghost var n := Value(N[..]);
    Parity(N[..]);
    StepCases(u0, v0);
    MultipleSub(v0, u0, a, Value(q[..]), Value(r[..]), n);
    SubMod(d, q, r, N);
    Select(t1, t2, r, q, d, uOdd, vOdd);
    ghost var t := Value(t2[..]);
    ghost var h := Shifted(u0, v0) / 2;
    assert Multiple(2 * h, a, t, n) && Multiple(Kept(u0, v0), a, Value(t1[..]), n);
    Div2ModOdd(t2, N);
    MultipleHalf(h, a, t, Value(t2[..]), n);
    Copy(r, t1);
    Copy(q, t2);
    CondSwap(r, q, swap);
  }

  /** What a step keeps, halves and swaps, by parity. */
  lemma StepCases(u: nat, v: nat)
    requires u <= v && (u % 2 == 1 || v % 2 == 1)
    ensures Kept(u, v) == if u % 2 == 1 && v % 2 == 1 then u else v - u
    ensures Shifted(u, v) == (if u % 2 == 0 then u else if v % 2 == 0 then v else v - u) == 2 * (Shifted(u, v) / 2)
    ensures NextLow(u, v) == if Shifted(u, v) / 2 < Kept(u, v) then Shifted(u, v) / 2 else Kept(u, v)
    ensures NextHigh(u, v) == if Shifted(u, v) / 2 < Kept(u, v) then Kept(u, v) else Shifted(u, v) / 2
  {
  }

  /** What the loop keeps: the pair of the mathematical run, mirrored modulo `N` when the inverse is wanted. */
  ghost predicate Mirrored(u: seq<limb>, v: seq<limb>, r: seq<limb>, q: seq<limb>, a: nat, n: nat)
  {
    && Value(r) < n && Multiple(Value(u), a, Value(r), n)
    && Value(q) < n && Multiple(Value(v), a, Value(q), n)
  }

  /** `u := A`, extended with zero limbs. */
  method Load(u: array<limb>, A: array<limb>, k: nat)
    requires k <= A.Length && k <= u.Length && u != A
    modifies u
    ensures Value(u[..]) == Value(A[..k]) && Value(u[..]) < Power(k)
  {
    hide Value, Power;
    CopyLow(u, A, k);
    Clear(u, k);
    PaddedValue(u[..], k);
    ValueBound(A[..k]);
    assert u[..k] == A[..k];
  }

  /** `v := N; q := 0; r := 1` */
  method Start(v: array<limb>, q: array?<limb>, r: array?<limb>, N: array<limb>)
    requires 0 < N.Length == v.Length && (q != null ==> q.Length == N.Length && q != N && q != v && v != N)
    requires (r == null <==> q == null) && (r != null ==> r.Length == N.Length && r != N && r != v && r != q)
    modifies v, q, r
    ensures v[..] == old(N[..])
    ensures q != null ==> Value(q[..]) == 0 && Value(r[..]) == 1
  {
    hide Value, Power;
    if v != N {
      Copy(v, N);
    }
    if q != null {
      Clear(q, 0);
      ValueZero(q[..]);
      Clear(r, 0);
      ValueZero(r[1..]);
      r[0] := 1;
      ValueLow(r[..]);
      assert r[..][1..] == r[1..];
      ValueZero(r[1..]);
    }
  }

  /** The iterations of the loop are enough for every input. */
  lemma EnoughIterations(a: nat, n: nat, aLimbs: nat, nLimbs: nat)
    requires a < Power(aLimbs) && n < Power(nLimbs)
    ensures Bits(a) + Bits(n) <= (aLimbs + nLimbs) * LIMB_BITS
  {
    PowerPow2(aLimbs);
    PowerPow2(nLimbs);
    BitsBound(a, LIMB_BITS * aLimbs);
    BitsBound(n, LIMB_BITS * nLimbs);
  }

  /**
   * `G` becomes the greatest common divisor of `A` and the odd `N`. When `I` is given, `A * I` is `G`
   * modulo `N`, so `I` is the inverse of `A` when the divisor is 1. `G` or `I` may be `A`, and without
   * `I`, `G` may be `N`.
   */
  method GcdModInvOdd(G: array<limb>, I: array?<limb>, A: array<limb>, N: array<limb>)
    requires 0 < N.Length == G.Length && A != N
    requires I != null ==> I.Length == N.Length && I != N && G != N && I != G
    requires Value(N[..]) % 2 == 1 && Value(A[..Read(A, N)]) <= Value(N[..])
    requires I != null ==> Value(N[..]) > 1
    modifies G, I
    ensures IsGcd(Value(G[..]), old(Value(A[..Read(A, N)])), old(Value(N[..])))
    ensures I != null ==> Value(I[..]) < Value(N[..]) && N[..] == old(N[..])
    ensures I != null ==> Multiple(Value(G[..]), old(Value(A[..Read(A, N)])), Value(I[..]), Value(N[..]))
  {
    hide Value, Power, Steps, IsGcd, Multiple, NextLow, NextHigh, Bits;
    var aLimbs := Read(A, N);
    ghost var a, n := Value(A[..aLimbs]), Value(N[..]);
    ValueBound(A[..aLimbs]);
    ValueBound(N[..]);
    var u, d, t1, t2 := new limb[N.Length], new limb[N.Length], new limb[N.Length], new limb[N.Length];
    var r: array?<limb> := null;
    if I != null {
      r := new limb[N.Length];
    }
    Load(u, A, aLimbs);
    Start(G, I, r, N);
    StepsStart(a, n);
    if I != null {
      MultipleStart(a, n);
    }
    var iterations := (aLimbs + N.Length) * LIMB_BITS;
    for i := 0 to iterations
      invariant Pair(Value(u[..]), Value(G[..])) == Steps(a, n, i)
      invariant I != null ==> Mirrored(u[..], G[..], r[..], I[..], a, n) && N[..] == old(N[..])
    {
      ghost var u0, v0 := Value(u[..]), Value(G[..]);
      StepsStayOdd(a, n, i);
      var uOdd, vOdd, swap := UpdatePair(u, G, d, t1, t2);
      StepsNext(a, n, i);
      if I != null {
        MirrorPair(r, I, N, d, t1, t2, uOdd, vOdd, swap, a, u0, v0);
      }
    }
    EnoughIterations(a, n, aLimbs, N.Length);
    StepsReachGcd(a, n, iterations);
  }

  lemma StepsStart(a: nat, n: nat)
    requires a <= n
    ensures Steps(a, n, 0) == Pair(a, n)
  {
  }

  lemma StepsNext(a: nat, n: nat, k: nat)
    requires a <= n
    ensures Steps(a, n, k + 1)
              == Pair(NextLow(Steps(a, n, k).low, Steps(a, n, k).high),
                  NextHigh(Steps(a, n, k).low, Steps(a, n, k).high))
  {
    hide NextLow, NextHigh;
  }

  lemma MultipleStart(a: nat, n: nat)
    requires n > 0
    ensures Multiple(a, a, 1, n) && Multiple(n, a, 0, n)
  {
    DividesSelf(n);
  }
}
