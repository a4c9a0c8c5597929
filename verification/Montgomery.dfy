/** Montgomery multiplication on limb arrays (bignum_core.c). */
module Montgomery {
  import opened Arithmetic
  import opened Limbs
  import opened LimbOps
  import opened Divisibility

  // ---------------------------------------------------------------- the multiplier

  /** One Newton step, with unsigned wrap-around at `m`. */
  function NewtonNext(n: int, x: int, m: int): (y: int)
    requires m > 0
    ensures 0 <= y < m
  {
    x * ((2 - n * x % m) % m) % m
  }

  /** A Newton step, carried out modulo a multiple `m` of `k * k`, doubles the number of correct bits. */
  lemma Newton(n: int, x: int, m: int, k: int, c: int)
    requires m > 0 && k > 0 && Divides(k, 1 - n * x) && m == (k * k) * c
    ensures k * k > 0 && Divides(k * k, 1 - n * NewtonNext(n, x, m))
  {
    hide Divides;
    var z := n * x % m;
    var w := (2 - z) % m;
    var k1, k2, k3 := n * x / m, (2 - z) / m, x * w / m;
    var e, v := n * (x * k1 - x * k2 - k3), 1 - n * x;
    NewtonReduced(n, x, m, k1, k2, k3, z, w, NewtonNext(n, x, m));
    SquareDivides(k, v);
    TimesFactored(m, k * k, c, e);
    Factor(k * k, m * e, c * e);
    Combination(k * k, v * v, m * e, -1);
  }

  lemma TimesFactored(m: int, p: int, c: int, e: int)
    requires m == p * c
    ensures m * e == p * (c * e)
  {
  }

  lemma SquareDivides(k: int, v: int)
    requires Divides(k, v)
    ensures k * k > 0 && Divides(k * k, v * v)
  {
    var j := v / k;
    assert v == k * j && v * v == (k * k) * (j * j);
    Scale(1, k, k);
    Factor(k * k, v * v, j * j);
  }

  lemma NewtonReduced(n: int, x: int, m: int, k1: int, k2: int, k3: int, z: int, w: int, x': int)
    requires n * x == m * k1 + z && 2 - z == m * k2 + w && x * w == m * k3 + x'
    ensures 1 - n * x' == (1 - n * x) * (1 - n * x) - m * (n * (x * k1 - x * k2 - k3))
  {
    var e, d := x * k1 - x * k2 - k3, k1 - k2;
    assert w == 2 - n * x + m * d by { Spread(m, k1, k2); }
    assert x * w == x * (2 - n * x) + m * (x * d) by { Nested(x, m, d, 2 - n * x); }
    assert x' == x * (2 - n * x) + m * e by { Spread(x, k1, k2); Spread(m, x * d, k3); }
    Nested(n, m, e, x * (2 - n * x));
    Squared(n, x);
  }

  lemma Spread(m: int, a: int, b: int)
    ensures m * (a - b) == m * a - m * b
  {
  }

  lemma Nested(x: int, m: int, d: int, y: int)
    ensures x * (y + m * d) == x * y + m * (x * d)
  {
    assert x * (m * d) == m * (x * d);
  }

  lemma Squared(n: int, x: int)
    ensures (1 - n * x) * (1 - n * x) == 1 - n * (x * (2 - n * x))
  {
    assert n * (x * (2 - n * x)) == (n * x) * (2 - n * x);
  }

  /** `((x + 2) & 4) << 1` */
  function Nudge(x: int): (e: int)
    ensures e == 0 || e == 8
  {
    if (x + 2) % 8 >= 4 then 8 else 0
  }

  /** The starting value is right modulo 16. */
  lemma FirstGuess(n: nat)
    requires n % 2 == 1
    ensures Divides(16, 1 - n * (n + Nudge(n)))
  {
    hide Divides, Nudge;
    var h, r, e := n / 16, n % 16, Nudge(n);
    assert n == 16 * h + r;
    NudgePeriodic(h, r);
    SmallGuess(r);
    var g := 16 * (h * h) + 2 * (h * r) + h * e;
    Factor(16, 16 * g, g);
    GuessExpand(n, h, r, e);
    Combination(16, 1 - r * (r + e), 16 * g, -1);
  }

  lemma NudgePeriodic(h: int, r: int)
    ensures Nudge(16 * h + r) == Nudge(r)
  {
    DivUnique(16 * h + r + 2, 8, 2 * h + (r + 2) / 8, (r + 2) % 8);
  }

  lemma SmallGuess(r: nat)
    requires r < 16 && r % 2 == 1
    ensures Divides(16, 1 - r * (r + Nudge(r)))
  {
    assert r in {1, 3, 5, 7, 9, 11, 13, 15};
  }

  lemma GuessExpand(n: int, h: int, r: int, e: int)
    requires n == 16 * h + r
    ensures n * (n + e) == r * (r + e) + 16 * (16 * (h * h) + 2 * (h * r) + h * e)
  {
    assert n * n == 256 * (h * h) + 32 * (h * r) + r * r;
    assert n * e == 16 * (h * e) + r * e;
  }

  lemma Pow2Four()
    ensures Pow2(4) == 16
  {
  }

  /** `x += ((N[0] + 2) & 4) << 1`, from `x = N[0]` */
  function Guess(n: nat, m: nat): (x: nat)
    requires m > 0
    ensures x < m
  {
    (n + Nudge((n + 2) % m - 2)) % m
  }

  /** Unsigned wrap-around does not spoil the starting value. */
  lemma GuessWraps(n: nat, m: nat, c: nat)
    requires m == 16 * c && n < m && Divides(16, 1 - n * (n + Nudge(n)))
    ensures Divides(16, 1 - n * Guess(n, m))
  {
    hide Divides, Nudge;
    WrappedNudge(n, m, c);
    var y := n + Nudge(n);
    var k := y / m;
    assert y == m * k + y % m;
    WrapExpand(n, y, y % m, k, c);
    Factor(16, 16 * (c * n * k), c * n * k);
    Combination(16, 1 - n * y, 16 * (c * n * k), 1);
  }

  lemma WrapExpand(n: int, y: int, y': int, k: int, c: int)
    requires y == 16 * c * k + y'
    ensures 1 - n * y' == 1 - n * y + 16 * (c * n * k)
  {
    assert n * (16 * c * k) == 16 * (c * n * k);
  }

  lemma WrappedNudge(n: nat, m: nat, c: nat)
    requires m == 16 * c && n < m
    ensures Nudge((n + 2) % m - 2) == Nudge(n)
  {
    hide Nudge;
    if n + 2 < m {
      DivUnique(n + 2, m, 0, n + 2);
    } else {
      DivUnique(n + 2, m, 1, n + 2 - m);
      NudgePeriodic(c, n - m);
    }
  }

  /** `~x + 1` */
  function Negative(x: nat, m: nat): (y: nat)
    requires x < m
    ensures y < m
  {
    (m - 1 - x + 1) % m
  }

  lemma Negated(n: nat, x: nat, m: nat)
    requires x < m && Divides(m, 1 - n * x)
    ensures Divides(m, Negative(x, m) * n + 1)
  {
    hide Divides;
    if x == 0 {
      DivUnique(m, m, 1, 0);
    } else {
      DivUnique(m - x, m, 0, m - x);
      DividesSelf(m);
      Combination(m, 1 - n * x, m, n);
      assert (m - x) * n == n * m - n * x;
    }
  }

  /** `montmul_init`, for limbs of 32 or 64 bits: minus the inverse of the odd limb `n0`. */
  method MontMulInit(n0: nat, bits: nat) returns (mm: nat)
    requires (bits == 32 || bits == 64) && n0 < Pow2(bits) && n0 % 2 == 1
    ensures mm < Pow2(bits) && Divides(Pow2(bits), mm * n0 + 1)
  {
    hide Divides, Pow2, Guess, NewtonNext, Negative;
    var m := Pow2(bits);
    var x := Guess(n0, m);
    FirstGuess(n0);
    Pow2Four();
    Pow2Sum(4, bits - 4);
    GuessWraps(n0, m, Pow2(bits - 4));
    var i, k := bits, 4;
    while i >= 8
      invariant (k == 4 && i == bits) || (k == 8 && 2 * i == bits) || (k == 16 && 4 * i == bits)
             || (k == 32 && 8 * i == bits) || (k == 64 && 16 * i == bits)
      invariant i >= 4
      invariant 0 <= x < m && Divides(Pow2(k), 1 - n0 * x)
    {
      Pow2Sum(k, k);
      Pow2Sum(2 * k, bits - 2 * k);
      Newton(n0, x, m, Pow2(k), Pow2(bits - 2 * k));
      x := NewtonNext(n0, x, m);
      i, k := i / 2, 2 * k;
    }
    Negated(n0, x, m);
    mm := Negative(x, m);
  }

  // ---------------------------------------------------------------- multiply and add

  /**
   * `core_mla`: `d += s * b`, for `sLen` limbs of `s` and `dLen` limbs of `d` from `off` on; every limb
   * takes `(c, d) = s * b + d + c`. `d` may be `s`.
   */
  method Mla(d: array<limb>, off: nat, dLen: nat, s: array<limb>, sLen: nat, b: limb) returns (c: limb)
    requires off + dLen <= d.Length && sLen <= dLen && sLen <= s.Length && (d == s ==> off == 0)
    modifies d
    ensures Value(d[off..off + dLen]) + c * Power(dLen) == old(Value(d[off..off + dLen])) + b * old(Value(s[..sLen]))
    ensures d[..off] == old(d[..off]) && d[off + dLen..] == old(d[off + dLen..])
  {
    hide Value, Power;
    ghost var e, t := d[off..off + dLen], Padded(s[..sLen], dLen);
    PaddedValue(t, sLen);
    c := MlaProducts(d, off, dLen, s, sLen, b, e, t);
    c := MlaCarry(d, off, dLen, sLen, b, c, e, t);
    assert d[off..off + dLen][..dLen] == d[off..off + dLen] && e[..dLen] == e && t[..dLen] == t;
  }

  /** The limbs of `d` below `i` hold `e + b * t`, with a carry out of them; those above still hold `e`. */
  predicate Accumulated(d: seq<limb>, i: nat, c: limb, e: seq<limb>, t: seq<limb>, b: limb)
    requires i <= |d| == |e| == |t|
  {
    Value(d[..i]) + c * Power(i) == Value(e[..i]) + b * Value(t[..i]) && d[i..] == e[i..]
  }

  lemma AccumulateLimb(x: seq<limb>, y: seq<limb>, i: nat, c: limb, c': limb, e: seq<limb>, t: seq<limb>, b: limb)
    requires i < |x| == |y| == |e| == |t| && Accumulated(x, i, c, e, t, b)
    requires y == x[i := y[i]] && y[i] + c' * BASE == e[i] as int + b * t[i] + c
    ensures Accumulated(y, i + 1, c', e, t, b)
  {
    hide Value, Power;
    assert y[..i] == x[..i];
    SumStep(y, e, t, b, i, c, c');
    assert y[i + 1..] == x[i..][1..] && e[i + 1..] == e[i..][1..];
  }

  /** The loop of `core_mla` over the limbs of `s`. */
  method MlaProducts(d: array<limb>, off: nat, dLen: nat, s: array<limb>, sLen: nat, b: limb, ghost e: seq<limb>,
                     ghost t: seq<limb>)
    returns (c: limb)
    requires off + dLen <= d.Length && sLen <= dLen && sLen <= s.Length && (d == s ==> off == 0)
    requires e == d[off..off + dLen] && t == Padded(s[..sLen], dLen)
    modifies d
    ensures Accumulated(d[off..off + dLen], sLen, c, e, t, b)
    ensures d[..off] == old(d[..off]) && d[off + dLen..] == old(d[off + dLen..])
  {
    hide Value, Power, Accumulated;
    c := 0;
    AccumulateStart(e, t, b);
    for i := 0 to sLen
      invariant d[..off] == old(d[..off]) && d[off + dLen..] == old(d[off + dLen..])
      invariant forall j :: i <= j < dLen ==> d[off + j] == e[j]
      invariant forall j :: i <= j < sLen ==> s[j] == t[j]
      invariant Accumulated(d[off..off + dLen], i, c, e, t, b)
    {
      ghost var x := d[off..off + dLen];
      var z, c' := MulAddLimb(s[i], b, d[off + i], c);
      d[off + i] := z;
      AccumulateLimb(x, d[off..off + dLen], i, c, c', e, t, b);
      c := c';
    }
  }

  lemma AccumulateStart(e: seq<limb>, t: seq<limb>, b: limb)
    requires |e| == |t|
    ensures Accumulated(e, 0, 0, e, t, b)
  {
    ValueEmpty();
  }

  /** The loop of `core_mla` that carries on beyond the limbs of `s`. */
  method MlaCarry(d: array<limb>, off: nat, dLen: nat, sLen: nat, b: limb, carry: limb, ghost e: seq<limb>,
                  ghost t: seq<limb>)
    returns (c: limb)
    requires off + dLen <= d.Length && sLen <= dLen == |e| == |t| && forall j :: sLen <= j < dLen ==> t[j] == 0
    requires Accumulated(d[off..off + dLen], sLen, carry, e, t, b)
    modifies d
    ensures Accumulated(d[off..off + dLen], dLen, c, e, t, b)
    ensures d[..off] == old(d[..off]) && d[off + dLen..] == old(d[off + dLen..])
  {
    hide Value, Power;
    c := carry;
    for i := sLen to dLen
      invariant d[..off] == old(d[..off]) && d[off + dLen..] == old(d[off + dLen..])
      invariant Accumulated(d[off..off + dLen], i, c, e, t, b)
    {
      ghost var x := d[off..off + dLen];
      assert x[i] == x[i..][0] == e[i];
      var z, c' := AddCarryLimb(d[off + i], c);
      d[off + i] := z;
      AccumulateLimb(x, d[off..off + dLen], i, c, c', e, t, b);
      c := c';
    }
  }

  /** One step of `core_mla`: `(c', z) = s * b + d + c`; a product with two more limbs added fits two limbs. */
  method MulAddLimb(s: limb, b: limb, d: limb, c: limb) returns (z: limb, c': limb)
    ensures z + c' * BASE == s * b + d + c
  {
    ProductBound(s, b);
    var v: int := s * b + d + c;
    z, c' := v % BASE, v / BASE;
  }

  lemma ProductBound(s: int, b: int)
    requires 0 <= s < BASE && 0 <= b < BASE
    ensures 0 <= s * b <= (BASE - 1) * (BASE - 1)
  {
    Scale(s, BASE - 1, b);
    Scale(0, s, b);
  }

  /** One step of the carry at the end of `core_mla`. */
  method AddCarryLimb(d: limb, c: limb) returns (z: limb, c': limb)
    ensures z + c' * BASE == d as int + c
  {
    z := Wrap(d as int + c);
    c' := Below(z, c);
  }

  // ---------------------------------------------------------------- Montgomery multiplication

  /** `(T[0] + u0 * B[0]) * mm`, which makes the lowest limb of the sum vanish. */
  function Cancelling(t0: limb, u0: limb, b0: limb, mm: limb): limb
  {
    Wrap((t0 + u0 * b0) * mm)
  }

  lemma LowLimbCancels(t0: limb, u0: limb, b0: limb, mm: limb, n0: limb)
    requires Divides(BASE, mm * n0 + 1)
    ensures Divides(BASE, t0 + u0 * b0 + Cancelling(t0, u0, b0, mm) * n0)
  {
    hide Divides;
    var w: int := t0 + u0 * b0;
    var u1, k := Cancelling(t0, u0, b0, mm), w * mm / BASE;
    assert w * mm == BASE * k + u1;
    DividesSelf(BASE);
    Combination(BASE, 0 * BASE, mm * n0 + 1, w);
    Combination(BASE, w * (mm * n0 + 1), BASE, 0 - k * n0);
    assert w * (mm * n0 + 1) == (w * mm) * n0 + w;
    assert (BASE * k + u1) * n0 == BASE * (k * n0) + u1 * n0;
  }

  /** The sum of one iteration is too small to carry out of the `n + 2` limbs it is added in. */
  lemma NoCarry(t: nat, u0: limb, b: nat, u1: limb, m: nat, n: nat)
    requires b <= m < Power(n) && t < b + m
    ensures t + u0 * b + u1 * m < BASE * (b + m) <= Power(n + 2)
    ensures 0 <= u0 * b && 0 <= u1 * m
  {
    hide Power;
    Scale(u0, BASE - 1, b);
    Scale(u1, BASE - 1, m);
    assert Power(n + 1) == BASE * Power(n) && Power(n + 2) == BASE * Power(n + 1) by { PowerStep(n); PowerStep(n + 1); }
  }

  lemma PowerStep(n: nat)
    ensures Power(n + 1) == BASE * Power(n)
  {
  }

  /** A sum below the limit has no carry. */
  lemma CarryIsZero(v: nat, c: nat, p: nat, s: int)
    requires v + c * p == s < p
    ensures c == 0 && v == s
  {
    Cancel(c, 1, p);
  }

  /** One iteration of `montmul`: adds multiples of `B` and `N` and drops the lowest limb. */
  method MontStep(T: array<limb>, i: nat, B: array<limb>, N: array<limb>, u0: limb, mm: limb) returns (u1: limb)
    requires 0 < B.Length <= N.Length && i < N.Length && T.Length == 2 * N.Length + 1 && T != B && T != N
    requires Value(B[..]) <= Value(N[..]) && Divides(BASE, mm * N[0] + 1)
    requires Value(T[i..i + N.Length + 1]) < Value(B[..]) + Value(N[..])
    requires forall j :: i + N.Length + 1 <= j < T.Length ==> T[j] == 0
    modifies T
    ensures BASE * Value(T[i + 1..i + N.Length + 2])
         == old(Value(T[i..i + N.Length + 1])) + u0 * Value(B[..]) + u1 * Value(N[..])
    ensures forall j :: i + N.Length + 2 <= j < T.Length ==> T[j] == 0
  {
    hide Value, Power, Divides, Cancelling;
    var n := N.Length;
    u1 := Cancelling(T[i], u0, B[0], mm);
    ghost var w := T[i..i + n + 2];
    PaddedValue(w, n + 1);
    assert w[..n + 1] == T[i..i + n + 1];
    Vanishes(w, B[..], N[..], u0, mm);
    Accumulate(T, i, B, N, u0, u1);
    DropLow(T[i..i + n + 2]);
    assert T[i..i + n + 2][1..] == T[i + 1..i + n + 2];
  }

  /** `T += u0 * B + u1 * N` without a carry. */
  method Accumulate(T: array<limb>, i: nat, B: array<limb>, N: array<limb>, u0: limb, u1: limb)
    requires B.Length <= N.Length && i < N.Length && T.Length == 2 * N.Length + 1 && T != B && T != N
    requires Value(B[..]) <= Value(N[..]) && Value(T[i..i + N.Length + 2]) < Value(B[..]) + Value(N[..])
    modifies T
    ensures Value(T[i..i + N.Length + 2])
         == old(Value(T[i..i + N.Length + 2])) + u0 * Value(B[..]) + u1 * Value(N[..])
    ensures T[i + N.Length + 2..] == old(T[i + N.Length + 2..])
  {
    hide Value, Power;
    var n := N.Length;
    ghost var t, b, m := Value(T[i..i + n + 2]), Value(B[..]), Value(N[..]);
    ValueBound(N[..]);
    NoCarry(t, u0, b, u1, m, n);
    assert B[..B.Length] == B[..] && N[..n] == N[..];
    var c := Mla(T, i, n + 2, B, B.Length, u0);
    CarryIsZero(Value(T[i..i + n + 2]), c, Power(n + 2), t + u0 * b);
    c := Mla(T, i, n + 2, N, n, u1);
    CarryIsZero(Value(T[i..i + n + 2]), c, Power(n + 2), t + u0 * b + u1 * m);
  }

  lemma Affine(u: int, low: int, high: int)
    ensures u * (low + BASE * high) == u * low + (u * high) * BASE
  {
  }

  /** Whether a limb divides a combination depends on the lowest limbs only. */
  lemma LowLimbs(t: seq<limb>, b: seq<limb>, n: seq<limb>, u0: limb, u1: limb)
    requires t != [] && b != [] && n != [] && Divides(BASE, t[0] + u0 * b[0] + u1 * n[0])
    ensures Divides(BASE, Value(t) + u0 * Value(b) + u1 * Value(n))
  {
    hide Value, Divides;
    ValueLow(t);
    ValueLow(b);
    ValueLow(n);
    LowParts(t[0], Value(t[1..]), Value(t), b[0], Value(b[1..]), Value(b), n[0], Value(n[1..]), Value(n), u0, u1);
  }

  lemma LowParts(t0: int, x: int, t: int, b0: int, y: int, b: int, n0: int, z: int, n: int, u0: int, u1: int)
    requires t == t0 + BASE * x && b == b0 + BASE * y && n == n0 + BASE * z
    requires Divides(BASE, t0 + u0 * b0 + u1 * n0)
    ensures Divides(BASE, t + u0 * b + u1 * n)
  {
    hide Divides;
    Affine(u0, b0, y);
    Affine(u1, n0, z);
    var k := x + u0 * y + u1 * z;
    Factor(BASE, BASE * k, k);
    Combination(BASE, t0 + u0 * b0 + u1 * n0, BASE * k, 1);
  }

  /** The multiple of `n` is chosen so that the sum is a multiple of the base. */
  lemma Vanishes(t: seq<limb>, b: seq<limb>, n: seq<limb>, u0: limb, mm: limb)
    requires t != [] && b != [] && n != [] && Divides(BASE, mm * n[0] + 1)
    ensures Divides(BASE, Value(t) + u0 * Value(b) + Cancelling(t[0], u0, b[0], mm) * Value(n))
  {
    hide Value, Divides, Cancelling;
    LowLimbCancels(t[0], u0, b[0], mm, n[0]);
    LowLimbs(t, b, n, u0, Cancelling(t[0], u0, b[0], mm));
  }

  /** A multiple of the base has a zero limb that can be dropped. */
  lemma DropLow(s: seq<limb>)
    requires s != [] && Divides(BASE, Value(s))
    ensures BASE * Value(s[1..]) == Value(s)
  {
    ValueLow(s);
    DivUnique(Value(s), BASE, Value(s[1..]), s[0]);
  }

  /** `t` times `p` is `va * b` modulo `m`, and small. */
  predicate Partial(t: int, va: int, b: int, m: int, p: int)
  {
    0 <= t < b + m && Divides(m, t * p - va * b)
  }

  /** What one iteration does to the partial product `va * b`, up to multiples of `m`. */
  lemma MontAdvance(t: nat, t': nat, va: int, u0: limb, b: nat, u1: limb, m: nat, p: nat, n: nat)
    requires BASE * t' == t + u0 * b + u1 * m && b <= m < Power(n) && Partial(t, va, b, m, p)
    ensures Partial(t', va + u0 * p, b, m, BASE * p)
  {
    hide Power, Divides;
    NoCarry(t, u0, b, u1, m, n);
    MontExpand(t, t', va, u0, b, u1, m, p);
    DividesSelf(m);
    Combination(m, t * p - va * b, m, u1 * p);
  }

  lemma MontExpand(t: int, t': int, va: int, u0: int, b: int, u1: int, m: int, p: int)
    requires BASE * t' == t + u0 * b + u1 * m
    ensures t' * (BASE * p) - (va + u0 * p) * b == (t * p - va * b) + (u1 * p) * m
  {
    assert t' * (BASE * p) == (BASE * t') * p;
    assert (t + u0 * b + u1 * m) * p == t * p + (u0 * b) * p + (u1 * m) * p;
    assert (u0 * b) * p == (u0 * p) * b && (u1 * m) * p == (u1 * p) * m;
    assert (va + u0 * p) * b == va * b + (u0 * p) * b;
  }

  /** Carry 1 with borrow 0 cannot happen, and the two tell which of the two numbers is the result. */
  lemma CarryAndBorrow(t: nat, low: nat, carry: nat, x: nat, borrow: bit, m: nat, r: nat)
    requires t == low + carry * r && t < 2 * m && low < r && m < r
    requires x - borrow * r == low - m && x < r
    ensures carry <= 1 && !(carry == 1 && borrow == 0)
    ensures (if carry == borrow then x else low) == if t < m then t else t - m
  {
    Cancel(carry, 2, r);
  }

  /** The end of `montmul`: one subtraction, undone when carry and borrow differ. */
  method Reduce(X: array<limb>, T: array<limb>, N: array<limb>)
    requires X.Length == N.Length > 0 && T.Length == 2 * N.Length + 1 && X != T && X != N && T != N
    requires Value(T[N.Length..]) < 2 * Value(N[..])
    modifies X
    ensures Value(X[..]) == if Value(T[N.Length..]) < Value(N[..]) then Value(T[N.Length..])
              else Value(T[N.Length..]) - Value(N[..])
  {
    hide Value, Power;
    var n := N.Length;
    ghost var t, low := T[n..], T[n..2 * n];
    ValueGrow(t, n);
    assert t[..n + 1] == t && t[..n] == low;
    ValueBound(low);
    ValueBound(N[..]);
    var carry := T[2 * n];
    assert N[..n] == N[..] && T[n..n + n] == low;
    var borrow := Sub(X, T, n, N, n);
    assert X[..n] == X[..];
    ValueBound(X[..]);
    CarryAndBorrow(Value(t), Value(low), carry, Value(X[..]), borrow, Value(N[..]), Power(n));
    if carry != borrow {
      for i := 0 to n
        invariant X[..i] == low[..i]
      {
        X[i] := T[n + i];
      }
      assert X[..] == low;
    }
  }

  /**
   * `core_montmul`: `X` becomes the number below `N` that, times the radix `Power(N.Length)`, is the
   * product of `A` and `B` modulo `N`. `X` may be `A` or `B`; `B` may have fewer limbs.
   */
  method MontMul(X: array<limb>, A: array<limb>, B: array<limb>, N: array<limb>, mm: limb, T: array<limb>)
    requires X.Length == A.Length == N.Length > 0 && 0 < B.Length <= N.Length && T.Length == 2 * N.Length + 1
    requires T != X && T != A && T != B && T != N && X != N
    requires Value(B[..]) <= Value(N[..]) && Value(N[..]) > 0 && Divides(BASE, mm * N[0] + 1)
    modifies X, T
    ensures Value(X[..]) < Value(N[..])
    ensures Divides(Value(N[..]), Value(X[..]) * Power(N.Length) - old(Value(A[..])) * old(Value(B[..])))
  {
    hide Value, Power, Divides;
    ghost var a: int, b: int, m: int, r: int := Value(A[..]), Value(B[..]), Value(N[..]), Power(N.Length);
    MontLoop(A, B, N, mm, T);
    ghost var t: int := Value(T[N.Length..]);
    Reduce(X, T, N);
    SubtractModulus(t, a * b, m, r);
  }

  lemma SubtractModulus(t: int, ab: int, m: int, r: int)
    requires m > 0 && Divides(m, t * r - ab)
    ensures Divides(m, (t - m) * r - ab)
  {
    hide Divides;
    DividesSelf(m);
    Combination(m, t * r - ab, m, 0 - r);
    assert (t - m) * r == t * r - r * m;
  }

  /** The loop of `montmul`. */
  method MontLoop(A: array<limb>, B: array<limb>, N: array<limb>, mm: limb, T: array<limb>)
    requires A.Length == N.Length > 0 && 0 < B.Length <= N.Length && T.Length == 2 * N.Length + 1
    requires T != A && T != B && T != N && Value(B[..]) <= Value(N[..]) && Value(N[..]) > 0
               && Divides(BASE, mm * N[0] + 1)
    modifies T
    ensures Value(T[N.Length..]) < Value(B[..]) + Value(N[..])
    ensures Divides(Value(N[..]), Value(T[N.Length..]) * Power(N.Length) - Value(A[..]) * Value(B[..]))
  {
    hide Value, Power, Divides;
    var n := N.Length;
    ghost var a, b, m := A[..], Value(B[..]), Value(N[..]);
    for j := 0 to T.Length
      invariant forall k :: 0 <= k < j ==> T[k] == 0
    {
      T[j] := 0;
    }
    MontBegin(T[0..n + 1], a, m, b);
    ValueBound(N[..]);
    for i := 0 to n
      invariant forall j :: i + n + 1 <= j < T.Length ==> T[j] == 0
      invariant Partial(Value(T[i..i + n + 1]), Value(a[..i]), b, m, Power(i))
    {
      ghost var t := Value(T[i..i + n + 1]);
      var u1 := MontStep(T, i, B, N, A[i], mm);
      MontAdvance(t, Value(T[i + 1..i + n + 2]), Value(a[..i]), a[i], b, u1, m, Power(i), n);
      PowerStep(i);
      ValueGrow(a, i);
    }
    assert T[n..n + n + 1] == T[n..] && a[..n] == a;
  }

  lemma MontBegin(t: seq<limb>, a: seq<limb>, m: int, b: nat)
    requires m > 0 && forall j :: 0 <= j < |t| ==> t[j] == 0
    ensures Partial(Value(t), Value(a[..0]), b, m, Power(0))
  {
    ValueZero(t);
    ValueEmpty();
    Factor(m, 0, 0);
  }
}
