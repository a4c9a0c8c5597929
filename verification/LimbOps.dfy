/** In-place operations on limb arrays (bignum_core.c); unsigned limb arithmetic wraps. */
module LimbOps {
  import opened Arithmetic
  import opened Limbs

  /** A bit of carry or borrow. */
  type bit = x: int | 0 <= x <= 1

  function Wrap(x: int): limb
  {
    x % BASE
  }

  function Below(x: int, y: int): bit
  {
    if x < y then 1 else 0
  }

  // ---------------------------------------------------------------- addition and subtraction

  /** One limb of `x == low + high`, with `c` carried in and `c'` carried out (negative for a borrow). */
  lemma CarryStep(x: seq<limb>, i: nat, c: int, c': int, limbs: int, low: int)
    requires i < |x| && Value(x[..i]) + c * Power(i) == low
    requires x[i] + c' * BASE == limbs + c
    ensures Value(x[..i + 1]) + c' * Power(i + 1) == low + limbs * Power(i)
  {
    hide Value;
    ValueGrow(x, i);
    var p := Power(i);
    assert (x[i] + c' * BASE) * p == x[i] * p + c' * (BASE * p);
    assert (limbs + c) * p == limbs * p + c * p;
  }

  /** One limb of `x == a + k * b`. */
  lemma SumStep(x: seq<limb>, a: seq<limb>, b: seq<limb>, k: int, i: nat, c: int, c': int)
    requires i < |x| == |a| == |b|
    requires Value(x[..i]) + c * Power(i) == Value(a[..i]) + k * Value(b[..i])
    requires x[i] + c' * BASE == a[i] as int + k * b[i] + c
    ensures Value(x[..i + 1]) + c' * Power(i + 1) == Value(a[..i + 1]) + k * Value(b[..i + 1])
  {
    hide Value, Power;
    ValueGrow(a, i);
    ValueGrow(b, i);
    CarryStep(x, i, c, c', a[i] as int + k * b[i], Value(a[..i]) + k * Value(b[..i]));
    Combine(a[i], b[i], k, Power(i), Value(b[..i]));
  }

  lemma Combine(a: int, b: int, k: int, p: int, v: int)
    ensures (a + k * b) * p + k * v == a * p + k * (v + b * p)
  {
    assert (a + k * b) * p == a * p + (k * b) * p;
    assert (k * b) * p == k * (b * p);
    assert k * (v + b * p) == k * v + k * (b * p);
  }

  /** The body of the loop of `core_add` for one limb. */
  method AddLimb(a: limb, b: limb, c: bit) returns (t: limb, c': bit)
    ensures t + c' * BASE == a as int + b as int + c
  {
    var s: int := Wrap(c + a);
    var z: int := Below(s, a);
    t := Wrap(s + b);
    c' := z + Below(t, b);
  }

  /** The body of the loop of `core_sub` for one limb. */
  method SubLimb(a: limb, b: limb, c: bit) returns (t: limb, c': bit)
    ensures t - c' * BASE == a as int - b as int - c
  {
    var z: int := Below(a, c);
    var s: int := Wrap(a as int - c);
    c' := Below(s, b) + z;
    t := Wrap(s - b);
  }

  /** `core_add` on the lowest `n` limbs; the result may overwrite either operand. */
  method Add(X: array<limb>, A: array<limb>, B: array<limb>, n: nat) returns (c: bit)
    requires n <= X.Length && n <= A.Length && n <= B.Length
    modifies X
    ensures Value(X[..n]) + c * Power(n) == old(Value(A[..n])) + old(Value(B[..n]))
    ensures X[n..] == old(X[n..])
  {
    hide Value, Power;
    ghost var a, b := A[..n], B[..n];
    c := 0;
    ValueEmpty();
    for i := 0 to n
      invariant forall j :: i <= j < n ==> A[j] == a[j] && B[j] == b[j]
      invariant Value(X[..n][..i]) + c * Power(i) == Value(a[..i]) + Value(b[..i])
      invariant X[n..] == old(X[n..])
    {
      var t, z := AddLimb(A[i], B[i], c);
      ghost var x := X[..n];
      X[i] := t;
      assert X[..n][..i] == x[..i];
      SumStep(X[..n], a, b, 1, i, c, z);
      c := z;
    }
    assert X[..n][..n] == X[..n] && a[..n] == a && b[..n] == b;
  }

  /** `core_add_if` */
  method AddIf(X: array<limb>, A: array<limb>, cond: bool) returns (c: bit)
    requires X.Length == A.Length && X != A
    modifies X
    ensures Value(X[..]) + c * Power(X.Length) == old(Value(X[..])) + (if cond then Value(A[..]) else 0)
  {
    hide Value, Power;
    ghost var b := X[..];
    c := 0;
    ValueEmpty();
    for i := 0 to X.Length
      invariant forall j :: i <= j < X.Length ==> X[j] == b[j]
      invariant Value(X[..i]) + c * Power(i) == Value(b[..i]) + (if cond then Value(A[..][..i]) else 0)
    {
      var add := if cond then A[i] else 0;
      var t, z := AddLimb(X[i], add, c);
      ghost var x := X[..i];
      X[i] := t;
      assert X[..][..i] == x && X[..][..i + 1] == X[..i + 1];
      SumStep(X[..], b, A[..], if cond then 1 else 0, i, c, z);
      c := z;
    }
    assert X[..X.Length] == X[..] && b[..X.Length] == b && A[..A.Length] == A[..];
  }

  /** `core_sub` on `n` limbs, those of `A` from `ao` on; the result may overwrite either operand. */
  method Sub(X: array<limb>, A: array<limb>, ao: nat, B: array<limb>, n: nat) returns (c: bit)
    requires n <= X.Length && ao + n <= A.Length && n <= B.Length && (X == A ==> ao == 0)
    modifies X
    ensures Value(X[..n]) - c * Power(n) == old(Value(A[ao..ao + n])) - old(Value(B[..n]))
    ensures X[n..] == old(X[n..])
  {
    hide Value, Power;
    ghost var a, b := A[ao..ao + n], B[..n];
    c := 0;
    ValueEmpty();
    for i := 0 to n
      invariant forall j :: i <= j < n ==> A[ao + j] == a[j] && B[j] == b[j]
      invariant Value(X[..n][..i]) - c * Power(i) == Value(a[..i]) - Value(b[..i])
      invariant X[n..] == old(X[n..])
    {
      var t, z := SubLimb(A[ao + i], B[i], c);
      ghost var x := X[..n];
      X[i] := t;
      assert X[..n][..i] == x[..i];
      SumStep(X[..n], a, b, -1, i, 0 - c as int, 0 - z as int);
      c := z;
    }
    assert X[..n][..n] == X[..n] && a[..n] == a && b[..n] == b;
  }

  // ---------------------------------------------------------------- comparison and selection

  /** `core_lt_ct`: reads every limb, and decides by the highest that differs. */
  method LessThan(A: array<limb>, B: array<limb>) returns (lt: bool)
    requires A.Length == B.Length
    ensures lt <==> Value(A[..]) < Value(B[..])
  {
    hide Value;
    var done := false;
    lt := false;
    var i := A.Length;
    while i > 0
      invariant 0 <= i <= A.Length
      invariant !done ==> !lt && A[i..] == B[i..]
      invariant done ==> (if lt then Value(A[..]) < Value(B[..]) else Value(B[..]) < Value(A[..]))
    {
      var cond := B[i - 1] < A[i - 1];
      if cond && !done {
        ValueCompare(B[..], A[..], i - 1);
      }
      done := done || cond;
      cond := A[i - 1] < B[i - 1];
      if cond && !done {
        ValueCompare(A[..], B[..], i - 1);
      }
      lt := lt || (cond && !done);
      done := done || cond;
      i := i - 1;
    }
    assert A[0..] == A[..] && B[0..] == B[..];
  }

  /** `core_cond_assign` */
  method CondAssign(X: array<limb>, A: array<limb>, assign: bool)
    requires X.Length == A.Length
    modifies X
    ensures X[..] == if assign then old(A[..]) else old(X[..])
  {
    if X == A {
      return;
    }
    for i := 0 to X.Length
      invariant X[..i] == if assign then A[..i] else old(X[..i])
      invariant X[i..] == old(X[i..])
    {
      X[i] := if assign then A[i] else X[i];
    }
  }

  /** `core_cond_swap` */
  method CondSwap(X: array<limb>, Y: array<limb>, swap: bool)
    requires X.Length == Y.Length
    modifies X, Y
    ensures X[..] == (if swap then old(Y[..]) else old(X[..])) && Y[..] == (if swap then old(X[..]) else old(Y[..]))
  {
    if X == Y {
      return;
    }
    for i := 0 to X.Length
      invariant X[..i] == (if swap then old(Y[..i]) else old(X[..i]))
                  && Y[..i] == (if swap then old(X[..i]) else old(Y[..i]))
      invariant forall j :: i <= j < X.Length ==> X[j] == old(X[j]) && Y[j] == old(Y[j])
    {
      var tmp := X[i];
      X[i] := if swap then Y[i] else X[i];
      Y[i] := if swap then tmp else Y[i];
    }
  }

  method Copy(X: array<limb>, A: array<limb>)
    requires X.Length == A.Length
    modifies X
    ensures X[..] == old(A[..])
  {
    for i := 0 to X.Length
      invariant X[..i] == old(A[..i]) && A[i..] == old(A[i..])
    {
      X[i] := A[i];
    }
  }

  /** `memset(X + k, 0, ...)` to the end. */
  method Clear(X: array<limb>, k: nat)
    requires k <= X.Length
    modifies X
    ensures X[..k] == old(X[..k]) && forall j :: k <= j < X.Length ==> X[j] == 0
  {
    for i := k to X.Length
      invariant X[..k] == old(X[..k])
      invariant forall j :: k <= j < i ==> X[j] == 0
    {
      X[i] := 0;
    }
  }

  /** `memcpy(X, A, k * ciL)` between separate regions. */
  method CopyLow(X: array<limb>, A: array<limb>, k: nat)
    requires k <= X.Length && k <= A.Length && X != A
    modifies X
    ensures X[..k] == A[..k] && forall j :: k <= j < X.Length ==> X[j] == old(X[j])
  {
    for i := 0 to k
      invariant X[..i] == A[..i]
      invariant forall j :: k <= j < X.Length ==> X[j] == old(X[j])
    {
      X[i] := A[i];
    }
  }

  // ---------------------------------------------------------------- shifts

  /** `x >> v1`, where `p` is two to the `v1`. */
  function ShiftedDown(x: limb, p: nat): (y: limb)
    requires p > 0
    ensures y == x / p
  {
    ShiftedDownFits(x, p);
    x / p
  }

  lemma ShiftedDownFits(x: limb, p: nat)
    requires p > 0
    ensures 0 <= x / p < BASE
  {
    assert x == p * (x / p) + x % p;
    Scale(1, p, x / p);
  }

  /** `x << (biL - v1)`, where `q` is two to the `biL - v1`. */
  function ShiftedUp(x: limb, q: nat): limb
  {
    Wrap(x * q)
  }

  /** One limb of a right shift by less than a limb: `p` is the divisor, `q` its complement. */
  lemma ShiftStep(x: seq<limb>, y: seq<limb>, i: nat, r0: int, rem: int, p: int, q: int)
    requires i < |x| == |y| && p > 0 && p * q == BASE && r0 == rem * q
    requires y[i] == ShiftedDown(x[i], p) + r0 && Value(x[i + 1..]) == p * Value(y[i + 1..]) + rem
    ensures Value(x[i..]) == p * Value(y[i..]) + x[i] % p
  {
    hide Value;
    assert x[i..][1..] == x[i + 1..] && y[i..][1..] == y[i + 1..];
    ValueLow(x[i..]);
    ValueLow(y[i..]);
    var u, high: int := x[i], Value(y[i + 1..]);
    assert u == p * (u / p) + u % p;
    Spread(p, q, u / p, rem, high);
  }

  lemma Spread(p: int, q: int, h: int, rem: int, high: int)
    requires p * q == BASE
    ensures p * (h + rem * q + BASE * high) == p * h + BASE * rem + BASE * (p * high)
  {
    assert p * (h + rem * q + BASE * high) == p * h + p * (rem * q) + p * (BASE * high);
    assert p * (rem * q) == (p * q) * rem;
    assert p * (BASE * high) == BASE * (p * high);
  }

  /** The second loop of `core_shift_r`, by `bits` bits within limbs. */
  method ShiftRightBits(X: array<limb>, bits: nat)
    requires bits < LIMB_BITS
    modifies X
    ensures Value(X[..]) == old(Value(X[..])) / Pow2(bits)
  {
    hide Value, Pow2, ShiftedDown, ShiftedUp;
    ghost var x := X[..];
    var p, q := Pow2(bits), Pow2(LIMB_BITS - bits);
    Pow2Sum(bits, LIMB_BITS - bits);
    Pow2Limb();
    ValueEmpty();
    var r0 := 0;
    ghost var rem := 0;
    var i := X.Length;
    assert x[i..] == [] && X[i..] == [];
    while i > 0
      invariant 0 <= i <= X.Length && X[..i] == x[..i]
      invariant r0 == rem * q && 0 <= rem < p
      invariant Value(x[i..]) == p * Value(X[i..]) + rem
    {
      i := i - 1;
      ghost var high := X[i + 1..];
      var r1 := ShiftedUp(X[i], q);
      RemainderShift(X[i], rem, p, q);
      X[i] := ShiftedDown(X[i], p) + r0;
      assert X[..][i + 1..] == high && X[..][i..] == X[i..];
      ShiftStep(x, X[..], i, r0, rem, p, q);
      r0, rem := r1, x[i] % p;
    }
    assert x[0..] == x && X[0..] == X[..];
    DivUnique(Value(x), p, Value(X[..]), rem);
  }

  /** The bits shifted out of a limb, moved to its top. */
  lemma RemainderShift(x: limb, rem: nat, p: nat, q: nat)
    requires p * q == BASE && rem < p
    ensures ShiftedUp(x, q) == x % p * q
    ensures 0 <= ShiftedDown(x, p) + rem * q < BASE
  {
    var h, r := x / p, x % p;
    assert x == p * h + r;
    calc {
      x * q;
      (p * h + r) * q;
      (p * h) * q + r * q;
      { Associate(p, h, q); }
      BASE * h + r * q;
    }
    Scale(r + 1, p, q);
    DivUnique(x * q, BASE, h, r * q);
    Cancel(h, q, p);
    Scale(rem + 1, p, q);
  }

  lemma Associate(p: int, h: int, q: int)
    ensures (p * h) * q == (p * q) * h
  {
  }

  /** The first loop of `core_shift_r`, by whole limbs. */
  method ShiftRightLimbs(X: array<limb>, v0: nat)
    requires v0 <= X.Length
    modifies X
    ensures Value(X[..]) == old(Value(X[..])) / Power(v0)
  {
    hide Value, Power;
    ghost var x := X[..];
    for i := 0 to X.Length - v0
      invariant forall j :: 0 <= j < i ==> X[j] == x[j + v0]
      invariant forall j :: i <= j < X.Length ==> X[j] == x[j]
    {
      X[i] := X[i + v0];
    }
    for i := X.Length - v0 to X.Length
      invariant forall j :: 0 <= j < X.Length - v0 ==> X[j] == x[j + v0]
      invariant forall j :: X.Length - v0 <= j < i ==> X[j] == 0
    {
      X[i] := 0;
    }
    DroppedLimbs(x, X[..], v0);
  }

  /** Dropping the lowest limbs divides by their weight. */
  lemma DroppedLimbs(x: seq<limb>, y: seq<limb>, v0: nat)
    requires v0 <= |x| == |y|
    requires forall j :: 0 <= j < |x| - v0 ==> y[j] == x[j + v0]
    requires forall j :: |x| - v0 <= j < |x| ==> y[j] == 0
    ensures Value(y) == Value(x) / Power(v0)
  {
    hide Value, Power;
    var n := |x| - v0;
    Split(x, v0);
    ValueBound(x[..v0]);
    PaddedValue(y, n);
    assert y[..n] == x[v0..];
    DivUnique(Value(x), Power(v0), Value(x[v0..]), Value(x[..v0]));
  }

  lemma DivDiv(v: nat, p: nat, q: nat)
    requires p > 0 && q > 0
    ensures p * q > 0 && v / p / q == v / (p * q)
  {
    Scale(1, p, q);
    var h := v / p;
    assert v == p * h + v % p && h == q * (h / q) + h % q;
    var w := h / q;
    assert p * (q * w + h % q) == (p * q) * w + p * (h % q) by {
      assert p * (q * w) == (p * q) * w;
    }
    Scale(h % q + 1, q, p);
    DivUnique(v, p * q, w, p * (h % q) + v % p);
  }

  /** `core_shift_r` */
  method ShiftRight(X: array<limb>, count: nat)
    modifies X
    ensures Value(X[..]) == old(Value(X[..])) / Pow2(count)
  {
    hide Value, Power, Pow2;
    var v0, v1 := count / LIMB_BITS, count % LIMB_BITS;
    ghost var v := Value(X[..]);
    ValueBound(X[..]);
    PowerPow2(v0);
    Pow2Sum(LIMB_BITS * v0, v1);
    DivDiv(v, Power(v0), Pow2(v1));
    if v0 > X.Length || (v0 == X.Length && v1 > 0) {
      PowerPow2(X.Length);
      Pow2Monotone(LIMB_BITS * X.Length, count);
      for i := 0 to X.Length
        invariant forall j :: 0 <= j < i ==> X[j] == 0
      {
        X[i] := 0;
      }
      ValueZero(X[..]);
      DivUnique(v, Pow2(count), 0, v);
      return;
    }
    ShiftRightLimbs(X, v0);
    ShiftRightBits(X, v1);
  }

  /** The first loop of `core_shift_l`: whole limbs; what leaves at the top is lost. */
  method ShiftLeftLimbs(X: array<limb>, v0: nat)
    modifies X
    ensures Value(X[..]) == old(Value(X[..])) * Power(v0) % Power(X.Length)
    ensures forall j :: 0 <= j < v0 && j < X.Length ==> X[j] == 0
  {
    hide Value, Power;
    ghost var x := X[..];
    var n, i := X.Length, X.Length;
    while i > v0
      invariant 0 <= i <= n && (i < v0 ==> i == n)
      invariant forall j :: 0 <= j < i ==> X[j] == x[j]
      invariant forall j :: i <= j < n ==> X[j] == x[j - v0]
    {
      X[i - 1] := X[i - v0 - 1];
      i := i - 1;
    }
    while i > 0
      invariant 0 <= i <= v0 && i <= n
      invariant forall j :: v0 <= j < n ==> X[j] == x[j - v0]
      invariant forall j :: i <= j < v0 && j < n ==> X[j] == 0
    {
      X[i - 1] := 0;
      i := i - 1;
    }
    ShiftedUpValue(x, X[..], v0);
  }

  /** Moving limbs up multiplies, modulo the weight of the first limb that does not exist. */
  lemma ShiftedUpValue(x: seq<limb>, y: seq<limb>, v0: nat)
    requires |x| == |y|
    requires forall j :: 0 <= j < |y| ==> y[j] == if j < v0 then 0 else x[j - v0]
    ensures Value(y) == Value(x) * Power(v0) % Power(|x|)
  {
    hide Value, Power;
    var n := |x|;
    if v0 >= n {
      ValueZero(y);
      PowerSum(n, v0 - n);
      Exact(Value(x), Power(n), Power(v0 - n), Value(x) * Power(v0));
    } else {
      var k := n - v0;
      ZerosBelow(y, x[..k], v0);
      assert x == x[..k] + x[k..];
      ValueConcat(x[..k], x[k..]);
      PowerSum(k, v0);
      ValueBound(x[..k]);
      Overflowed(Value(x), Value(x[..k]), Value(x[k..]), Power(k), Power(v0), Power(n));
    }
  }

  lemma ZerosBelow(y: seq<limb>, t: seq<limb>, v0: nat)
    requires |y| == v0 + |t| && forall j :: 0 <= j < |y| ==> y[j] == if j < v0 then 0 else t[j - v0]
    ensures Value(y) == Power(v0) * Value(t)
  {
    hide Value, Power;
    assert y == y[..v0] + t;
    ValueConcat(y[..v0], t);
    ValueZero(y[..v0]);
  }

  lemma Exact(x: nat, p: nat, q: nat, v: int)
    requires p > 0 && v == x * (p * q)
    ensures v % p == 0
  {
    assert v == p * (x * q);
    DivUnique(v, p, x * q, 0);
  }

  lemma Overflowed(x: nat, low: nat, high: nat, p: nat, q: nat, m: nat)
    requires q > 0 && x == low + p * high && low < p && m == p * q && m > 0
    ensures x * q % m == q * low
  {
    Scale(low + 1, p, q);
    assert x * q == (p * q) * high + low * q;
    DivUnique(x * q, m, high, low * q);
  }

  /** `x << v1`, where `p` is two to the `v1`; the bits that fall out are `ShiftedDown(x, q)`. */
  lemma ShiftUpParts(x: limb, r0: nat, p: nat, q: nat)
    requires p * q == BASE && r0 < p
    ensures ShiftedUp(x, p) + r0 < BASE && ShiftedDown(x, q) < p
    ensures ShiftedUp(x, p) + r0 + ShiftedDown(x, q) * BASE == p * x + r0
  {
    RemainderShift(x, 0, q, p);
    var h, r := x / q, x % q;
    assert x == q * h + r;
    assert p * x == (p * q) * h + p * r;
    Scale(r + 1, q, p);
    Cancel(h, p, q);
  }

  /** The second loop of `core_shift_l`, by `bits` bits within limbs; the limbs below `v0` are zero. */
  method ShiftLeftBits(X: array<limb>, v0: nat, bits: nat)
    requires bits < LIMB_BITS && forall j :: 0 <= j < v0 && j < X.Length ==> X[j] == 0
    modifies X
    ensures Value(X[..]) == old(Value(X[..])) * Pow2(bits) % Power(X.Length)
  {
    hide Value, Power, Pow2, ShiftedUp, ShiftedDown;
    ghost var x := X[..];
    var p, q := Pow2(bits), Pow2(LIMB_BITS - bits);
    Pow2Sum(bits, LIMB_BITS - bits);
    Pow2Limb();
    var i, r0 := v0, 0;
    if v0 > X.Length {
      ValueZero(x);
      return;
    }
    ValueZero(x[..v0]);
    while i < X.Length
      invariant v0 <= i <= X.Length && 0 <= r0 < p
      invariant forall j :: i <= j < X.Length ==> X[j] == x[j]
      invariant Value(X[..i]) + r0 * Power(i) == p * Value(x[..i])
    {
      var r1 := ShiftedDown(X[i], q);
      ShiftUpParts(X[i], r0, p, q);
      X[i] := ShiftedUp(X[i], p) + r0;
      assert X[..][..i] == X[..i] && X[..][..i + 1] == X[..i + 1];
      ShiftUpStep(x, X[..], i, r0, r1, p);
      r0, i := r1, i + 1;
    }
    assert X[..X.Length] == X[..] && x[..X.Length] == x;
    ValueBound(X[..]);
    TopLost(Value(x), p, r0, Value(X[..]), Power(X.Length));
  }

  /** What is carried out of the top is lost. */
  lemma TopLost(x: nat, p: nat, r0: nat, v: nat, w: nat)
    requires v + r0 * w == p * x && v < w
    ensures x * p % w == v
  {
    DivUnique(x * p, w, r0, v);
  }

  /** One limb of `y == p * x`, with `r0` carried in and `r1` carried out. */
  lemma ShiftUpStep(x: seq<limb>, y: seq<limb>, i: nat, r0: int, r1: int, p: int)
    requires i < |x| == |y| && Value(y[..i]) + r0 * Power(i) == p * Value(x[..i])
    requires y[i] + r1 * BASE == p * x[i] + r0
    ensures Value(y[..i + 1]) + r1 * Power(i + 1) == p * Value(x[..i + 1])
  {
    hide Value, Power;
    CarryStep(y, i, r0, r1, p * x[i], p * Value(x[..i]));
    ValueGrow(x, i);
    Spread2(p, Value(x[..i]), x[i], Power(i));
  }

  lemma Spread2(p: int, v: int, x: int, w: int)
    ensures p * v + p * x * w == p * (v + x * w)
  {
    assert p * (v + x * w) == p * v + p * (x * w);
  }

  lemma ModTimes(v: nat, p: nat, m: nat)
    requires m > 0
    ensures v % m * p % m == v * p % m
  {
    var k, r := v / m, v % m;
    var h := r * p / m;
    assert v == m * k + r && r * p == m * h + r * p % m;
    assert v * p == m * (k * p) + r * p;
    assert m * (k * p + h) == m * (k * p) + m * h;
    DivUnique(v * p, m, k * p + h, r * p % m);
  }

  /** `core_shift_l` */
  method ShiftLeft(X: array<limb>, count: nat)
    modifies X
    ensures Value(X[..]) == old(Value(X[..])) * Pow2(count) % Power(X.Length)
  {
    hide Value, Power, Pow2;
    var v0, v1 := count / LIMB_BITS, count % LIMB_BITS;
    ghost var v := Value(X[..]);
    PowerPow2(v0);
    Pow2Sum(LIMB_BITS * v0, v1);
    ModTimes(v * Power(v0), Pow2(v1), Power(X.Length));
    assert v * Power(v0) * Pow2(v1) == v * (Power(v0) * Pow2(v1));
    ShiftLeftLimbs(X, v0);
    ShiftLeftBits(X, v0, v1);
  }

  // ---------------------------------------------------------------- modular helpers

  /** `mpi_core_sub_mod` */
  method SubMod(X: array<limb>, A: array<limb>, B: array<limb>, N: array<limb>)
    requires X.Length == A.Length == B.Length == N.Length && X != N
    requires Value(A[..]) < Value(N[..]) && Value(B[..]) < Value(N[..])
    modifies X
    ensures Value(X[..]) == old(Value(A[..]) - Value(B[..])) % Value(N[..])
  {
    hide Value, Power;
    ghost var a: int, b: int, n: int := Value(A[..]), Value(B[..]), Value(N[..]);
    assert A[0..X.Length] == A[..] && B[..X.Length] == B[..];
    var c := Sub(X, A, 0, B, X.Length);
    assert X[..X.Length] == X[..];
    ValueBound(X[..]);
    ValueBound(N[..]);
    var _ := AddIf(X, N, c == 1);
    ValueBound(X[..]);
    if a >= b {
      DivUnique(a - b, n, 0, a - b);
    } else {
      DivUnique(a - b, n, -1, a - b + n);
    }
  }

  const HALF := 0x8000_0000

  /** Setting the free top bit. */
  lemma SetTopBit(x: seq<limb>, c: bit)
    requires x != [] && 2 * Value(x) < Power(|x|)
    ensures x[|x| - 1] < HALF
    ensures 2 * Value(x[|x| - 1 := x[|x| - 1] + c * HALF]) == 2 * Value(x) + c * Power(|x|)
  {
    hide Value;
    var n := |x| - 1;
    ValueGrow(x, n);
    assert x[..n + 1] == x;
    var p, t := Power(n), x[n] as int;
    Cancel(t, HALF, p);
    var y := x[n := x[n] + c * HALF];
    ValueGrow(y, n);
    assert y[..n + 1] == y && y[..n] == x[..n];
    assert (t + c * HALF) * p == t * p + c * HALF * p;
  }

  lemma EvenPower(n: nat)
    requires n > 0
    ensures Power(n) % 2 == 0
  {
    assert Power(n) == 2 * (HALF * Power(n - 1));
  }

  /** `core_div2_mod_odd` */
  method Div2ModOdd(X: array<limb>, N: array<limb>)
    requires X.Length == N.Length > 0 && X != N
    requires Value(X[..]) < Value(N[..]) && N[0] % 2 == 1
    modifies X
    ensures Value(X[..]) < Value(N[..])
    ensures 2 * Value(X[..]) == old(Value(X[..])) + (if old(X[0]) % 2 == 1 then Value(N[..]) else 0)
  {
    hide Value, Power;
    ghost var x, n := Value(X[..]), Value(N[..]);
    Parity(X[..]);
    Parity(N[..]);
    EvenPower(X.Length);
    var odd := X[0] % 2 == 1;
    var c := AddIf(X, N, odd);
    ghost var s := Value(X[..]);
    ValueBound(X[..]);
    ShiftRight(X, 1);
    assert Pow2(1) == 2;
    assert s % 2 == 0;
    SetTopBit(X[..], c);
    ghost var y := X[..];
    X[X.Length - 1] := X[X.Length - 1] + c * HALF;
    assert X[..] == y[|y| - 1 := y[|y| - 1] + c * HALF];
  }
}
