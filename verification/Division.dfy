/** Long division of multi-precision integers (bignum.c). */
module Division {
  import opened Arithmetic
  import opened Limbs
  import opened LimbOps
  import opened Montgomery
  import opened ExpMod
  import opened MultiPrecision

  /** `mbedtls_int_div_int` with a double-width type: the quotient of two limbs by one, saturated. */
  method DivideWord(u1: limb, u0: limb, d: limb) returns (q: limb)
    ensures q == if d == 0 || u1 >= d then BASE - 1 else (u1 * BASE + u0) / d
  {
    if d == 0 || u1 >= d {
      return BASE - 1;
    }
    WordQuotientFits(u1, u0, d);
    var quotient := (u1 * BASE + u0) / d;
    if quotient > BASE - 1 {
      quotient := BASE - 1;
    }
    q := quotient;
  }

  lemma WordQuotientFits(u1: int, u0: int, d: int)
    requires 0 <= u1 < d && 0 <= u0 < BASE
    ensures 0 <= (u1 * BASE + u0) / d < BASE
  {
    var v := u1 * BASE + u0;
    var q := v / d;
    assert v == q * d + v % d;
    Scale(u1 + 1, d, BASE);
    Cancel(q, BASE, d);
  }

  // ---------------------------------------------------------------- estimating a digit

  /** The leading limbs `w` of `x` and `v` of `y`, cut off at weight `s`. */
  predicate Leading(w: int, x: int, s: int)
  {
    w * s <= x < (w + 1) * s
  }

  /** A true digit passes every test on leading limbs. */
  lemma DigitPasses(x: int, y: int, w: int, v: int, s: int, q: nat)
    requires s > 0 && Leading(w, x, s) && Leading(v, y, s) && q * y <= x
    ensures q * v <= w
  {
    Scale(v * s, y, q);
    assert q * (v * s) == (q * v) * s;
    Cancel(q * v, w + 1, s);
  }

  /** A digit that passes the three-limb test is at most one too large. */
  lemma DigitClose(x: int, y: int, w: int, v: int, s: int, q: nat)
    requires s > 0 && Leading(w, x, s) && Leading(v, y, s) && q * v <= w && q <= v
    requires 0 <= x && 0 < y
    ensures (q - 1) * y < x
  {
    if q > 0 {
      DigitSums(y, v, s, q);
      Scale(y + 1, v * s + s, q);
      Scale(q * v, w, s);
      Scale(q, v, s);
    }
  }

  lemma DigitSums(y: int, v: int, s: int, q: int)
    ensures (v + 1) * s == v * s + s && (q - 1) * y == y * q - y
    ensures (y + 1) * q == y * q + q && (v * s + s) * q == (q * v) * s + q * s
  {
    assert (v * s) * q == (q * v) * s;
  }

  // ---------------------------------------------------------------- limbs as leading parts

  /** The limbs from `k` on lead a number. */
  lemma LeadingLimbs(x: seq<limb>, k: nat)
    requires k <= |x|
    ensures Leading(Value(x[k..]), Value(x), Power(k))
  {
    hide Value, Power;
    Split(x, k);
    ValueBound(x[..k]);
    assert (Value(x[k..]) + 1) * Power(k) == Value(x[k..]) * Power(k) + Power(k);
  }

  /** `T2`: the three limbs of `x` below and at `i`, with zeros below limb 0. */
  function Three(x: seq<limb>, i: nat): nat
    requires 0 < i < |x|
  {
    (if i < 2 then 0 else x[i - 2]) + BASE * x[i - 1] + BASE * BASE * x[i]
  }

  /** The two leading limbs of the divisor, with a zero below limb 0. */
  function Two(y: seq<limb>, t: nat): nat
    requires t < |y|
  {
    (if t < 1 then 0 else y[t - 1]) + BASE * y[t]
  }

  /** Scaled by one limb, the three limbs lead `x` at weight `i - 1`. */
  lemma ThreeLead(x: seq<limb>, i: nat)
    requires 0 < i < |x| && forall j :: i < j < |x| ==> x[j] == 0
    ensures Leading(Three(x, i), BASE * Value(x), Power(i - 1))
  {
    hide Value;
    var z := [0] + x;
    ValueLow(z);
    assert z[1..] == x;
    PaddedValue(z, i + 2);
    var u := z[..i + 2];
    LeadingLimbs(u, i - 1);
    var top := u[i - 1..];
    ThreeLimbs(top);
    assert top[0] == (if i < 2 then 0 else x[i - 2]) && top[1] == x[i - 1] && top[2] == x[i];
  }

  lemma ThreeLimbs(s: seq<limb>)
    requires |s| == 3
    ensures Value(s) == s[0] + BASE * s[1] + BASE * BASE * s[2]
  {
    hide Value, Power;
    ValueLow(s);
    TwoLimbs(s[1..]);
  }

  lemma TwoLimbs(s: seq<limb>)
    requires |s| == 2
    ensures Value(s) == s[0] + BASE * s[1]
  {
    hide Value, Power;
    ValueLow(s);
    ValueLow(s[1..]);
    assert s[1..][1..] == [];
    ValueEmpty();
  }

  lemma TwoLead(y: seq<limb>, t: nat)
    requires t < |y| && forall j :: t < j < |y| ==> y[j] == 0
    ensures Leading(Two(y, t), BASE * Value(y), Power(t))
  {
    hide Value;
    var z := [0] + y;
    ValueLow(z);
    assert z[1..] == y;
    PaddedValue(z, t + 2);
    var u := z[..t + 2];
    LeadingLimbs(u, t);
    TwoLimbs(u[t..]);
    assert u[t..][0] == (if t < 1 then 0 else y[t - 1]) && u[t..][1] == y[t];
  }

  lemma LeadingScaled(w: int, x: int, s: int, p: nat)
    requires Leading(w, x, s) && p > 0
    ensures Leading(w, x * p, s * p)
  {
    Scale(w * s, x, p);
    Scale(x + 1, (w + 1) * s, p);
    assert w * (s * p) == (w * s) * p && (w + 1) * (s * p) == ((w + 1) * s) * p;
    assert (x + 1) * p == x * p + p;
  }

  // ---------------------------------------------------------------- one digit of the quotient

  /** What the division keeps: a divisor of `t + 1` limbs, and a remainder below it `i - t` limbs up. */
  ghost predicate Aligned(X: Mpi, Y: Mpi, i: nat, t: nat)
    reads X, X.p, Y, Y.p
  {
    && t < i < X.p.Length && t < Y.p.Length && X.s == 1 && Y.s == 1
    && Positions(X.p[..], Y.p[..], i, t)
    && X.Abs() < Y.Abs() * Power(i - t)
  }

  predicate Positions(x: seq<limb>, y: seq<limb>, i: nat, t: nat)
    requires t < i < |x| && t < |y|
  {
    && (forall j :: i < j < |x| ==> x[j] == 0)
    && (forall j :: t < j < |y| ==> y[j] == 0)
    && y[t] >= 1
  }

  /** The value of digit `i - t - 1` of the quotient. */
  predicate IsDigit(q: int, x: int, y: int, i: nat, t: nat)
    requires t < i
  {
    q * (y * Power(i - t - 1)) <= x < (q + 1) * (y * Power(i - t - 1))
  }

  /** The quotient of the leading limbs is not below the digit. */
  lemma FirstEstimateHigh(x: seq<limb>, y: seq<limb>, i: nat, t: nat, q: nat)
    requires t < i < |x| && t < |y| && Positions(x, y, i, t) && IsDigit(q, Value(x), Value(y), i, t)
    ensures q * y[t] <= x[i] * BASE + x[i - 1]
  {
    hide Value, Power;
    PaddedValue(x, i + 1);
    PaddedValue(y, t + 1);
    var u, v := x[..i + 1], y[..t + 1];
    LeadingLimbs(u, i - 1);
    LeadingLimbs(v, t);
    TwoLimbs(u[i - 1..]);
    OneLimb(v[t..]);
    PowerSum(t, i - t - 1);
    LeadingScaled(y[t], Value(y), Power(t), Power(i - t - 1));
    DigitPasses(Value(x), Value(y) * Power(i - t - 1), x[i] * BASE + x[i - 1], y[t], Power(i - 1), q);
  }

  lemma OneLimb(s: seq<limb>)
    requires |s| == 1
    ensures Value(s) == s[0]
  {
    hide Value, Power;
    ValueLow(s);
    assert s[1..] == [];
    ValueEmpty();
  }

  /** The limbs that the three-limb test compares lead the remainder and the divisor, at the same weight. */
  lemma TestLeads(x: seq<limb>, y: seq<limb>, i: nat, t: nat)
    requires t < i < |x| && t < |y| && Positions(x, y, i, t)
    ensures Leading(Three(x, i), BASE * Value(x), Power(i - 1))
    ensures Leading(Two(y, t), BASE * (Value(y) * Power(i - t - 1)), Power(i - 1))
  {
    hide Value, Power, Two, Three, Leading;
    ThreeLead(x, i);
    TwoLead(y, t);
    PowerSum(t, i - t - 1);
    LeadingScaled(Two(y, t), BASE * Value(y), Power(t), Power(i - t - 1));
    assert BASE * Value(y) * Power(i - t - 1) == BASE * (Value(y) * Power(i - t - 1));
  }

  lemma TestExact(x: nat, d: nat, w: int, v: int, s: nat, digit: nat, q: nat)
    requires d > 0 && s > 0 && Leading(w, BASE * x, s) && Leading(v, BASE * d, s) && q <= v
    requires digit * d <= x < (digit + 1) * d
    ensures digit * v <= w
    ensures q * v <= w ==> q <= digit + 1
  {
    hide Leading;
    assert digit * (BASE * d) == BASE * (digit * d);
    DigitPasses(BASE * x, BASE * d, w, v, s, digit);
    if q * v <= w {
      DigitClose(BASE * x, BASE * d, w, v, s, q);
      assert (q - 1) * (BASE * d) == BASE * ((q - 1) * d);
      Cancel(q - 1, digit + 1, d);
    }
  }

  /** The digit passes the three-limb test, and what passes it is at most one too large. */
  lemma ThreeLimbTest(x: seq<limb>, y: seq<limb>, i: nat, t: nat, digit: nat, q: limb)
    requires t < i < |x| && t < |y| && Positions(x, y, i, t) && IsDigit(digit, Value(x), Value(y), i, t)
    ensures digit * Two(y, t) <= Three(x, i)
    ensures q * Two(y, t) <= Three(x, i) ==> q <= digit + 1
  {
    hide Value, Power, Three, Leading;
    var d := Value(y) * Power(i - t - 1);
    TestLeads(x, y, i, t);
    assert (digit + 1) * d == digit * d + d;
    TestExact(Value(x), d, Three(x, i), Two(y, t), Power(i - 1), digit, q);
  }

  /** The first estimate: from two limbs of the remainder and one of the divisor, saturated. */
  method FirstEstimate(X: Mpi, Y: Mpi, i: nat, t: nat, ghost digit: nat) returns (q: limb)
    requires Aligned(X, Y, i, t) && IsDigit(digit, X.Abs(), Y.Abs(), i, t) && digit < BASE
    ensures digit <= q
  {
    hide Value, Power, IsDigit;
    FirstEstimateHigh(X.p[..], Y.p[..], i, t, digit);
    if X.p[i] >= Y.p[t] {
      q := BASE - 1;
    } else {
      q := DivideWord(X.p[i], X.p[i - 1], Y.p[t]);
      QuotientAtLeast(X.p[i] * BASE + X.p[i - 1], Y.p[t], digit);
    }
  }

  lemma QuotientAtLeast(v: nat, d: nat, q: nat)
    requires d > 0 && q * d <= v
    ensures q <= v / d
  {
    assert v == d * (v / d) + v % d && (v / d + 1) * d == d * (v / d) + d;
    Cancel(q, v / d + 1, d);
  }

  /** `T1` becomes the two leading limbs of the divisor times `q`. */
  method TestProduct(T1: Mpi, Y: Mpi, t: nat, q: limb)
    requires T1.Valid() && T1.p.Length >= 2 && t < Y.p.Length && T1 != Y && T1.p != Y.p
    modifies T1, T1.p
    ensures T1.Valid() && T1.p.Length >= 2 && (T1.p == old(T1.p) || fresh(T1.p))
    ensures T1.Int() == q * Two(Y.p[..], t)
  {
    hide Value, Power, Two;
    SetTwo(T1, Y, t);
    T1.MulInt(T1, q);
  }

  method SetTwo(T1: Mpi, Y: Mpi, t: nat)
    requires T1.Valid() && T1.p.Length >= 2 && t < Y.p.Length && T1 != Y && T1.p != Y.p
    modifies T1, T1.p
    ensures T1.Valid() && T1.p.Length >= 2 && (T1.p == old(T1.p) || fresh(T1.p))
    ensures T1.Int() == Two(Y.p[..], t)
  {
    hide Value, Power;
    T1.Set(0);
    ValueZero(T1.p[..]);
    T1.p[0], T1.p[1] := if t < 1 then 0 else Y.p[t - 1], Y.p[t];
    PaddedValue(T1.p[..], 2);
    TwoLimbs(T1.p[..][..2]);
  }

  /** Estimates a digit of the quotient; `T1` and `T2` are scratch. The result is the digit or one more. */
  method EstimateDigit(X: Mpi, Y: Mpi, T1: Mpi, T2: Mpi, i: nat, t: nat, ghost digit: nat) returns (q: limb)
    requires Aligned(X, Y, i, t) && IsDigit(digit, X.Abs(), Y.Abs(), i, t) && digit < BASE
    requires T1.Valid() && T1.p.Length >= 2 && T2.s == 1 && T2.p.Length == 3
    requires T1 != X && T1 != Y && T1 != T2 && T2 != X && T2 != Y
    requires T1.p != X.p && T1.p != Y.p && T1.p != T2.p && T2.p != X.p && T2.p != Y.p
    modifies T1, T1.p, T2.p
    ensures digit <= q <= digit + 1
    ensures T1.Valid() && T1.p.Length >= 2 && (T1.p == old(T1.p) || fresh(T1.p))
  {
    hide Value, Power, IsDigit, Positions, Two, Three;
    ghost var x, y := X.p[..], Y.p[..];
    q := FirstEstimate(X, Y, i, t, digit);
    SetThree(T2, X, i);
    while true
      invariant digit <= q
      invariant T1.Valid() && T1.p.Length >= 2 && (T1.p == old(T1.p) || fresh(T1.p))
      invariant T2.Int() == Three(x, i)
      decreases q
    {
      TestProduct(T1, Y, t, q);
      ThreeLimbTest(x, y, i, t, digit, q);
      var cmp := T1.Compare(T2);
      if cmp <= 0 {
        break;
      }
      q := q - 1;
    }
  }

  method SetThree(T2: Mpi, X: Mpi, i: nat)
    requires T2.s == 1 && T2.p.Length == 3 && 0 < i < X.p.Length && T2.p != X.p
    modifies T2.p
    ensures T2.Int() == Three(X.p[..], i)
  {
    hide Value;
    T2.p[0], T2.p[1], T2.p[2] := if i < 2 then 0 else X.p[i - 2], X.p[i - 1], X.p[i];
    ThreeLimbs(T2.p[..]);
  }

  /** Moves a number up by `k` limbs. */
  method ShiftUp(T1: Mpi, k: nat)
    requires T1.Valid()
    modifies T1`p, T1.p
    ensures T1.Valid() && (T1.p == old(T1.p) || fresh(T1.p)) && T1.p.Length >= old(T1.p.Length)
    ensures T1.Int() == old(T1.Int()) * Power(k)
  {
    hide Value, Power;
    T1.ShiftL(LIMB_BITS * k);
    PowerPow2(k);
    assert (0 - old(T1.Abs())) * Power(k) == 0 - old(T1.Abs()) * Power(k);
  }

  ghost predicate Distinct(X: Mpi, Y: Mpi, T1: Mpi)
    reads X, Y, T1
  {
    X != Y && X != T1 && Y != T1 && X.p != Y.p && X.p != T1.p && Y.p != T1.p
  }

  /** `X -= Y * q` moved up by `k` limbs; `T1` is scratch. */
  method SubtractMultiple(X: Mpi, Y: Mpi, T1: Mpi, q: limb, k: nat)
    requires X.s == 1 && Y.s == 1 && T1.Valid() && Distinct(X, Y, T1)
    modifies X, X.p, T1, T1.p
    ensures X.Valid() && T1.Valid() && Distinct(X, Y, T1)
    ensures X.Int() == old(X.Abs()) - q * (Y.Abs() * Power(k)) && (X.Int() >= 0 ==> X.s == 1)
    ensures (X.p == old(X.p) || fresh(X.p)) && X.p.Length >= old(X.p.Length)
    ensures (T1.p == old(T1.p) || fresh(T1.p)) && T1.p.Length >= old(T1.p.Length)
  {
    hide Value, Power;
    T1.MulInt(Y, q);
    ShiftUp(T1, k);
    assert Y.Abs() * q * Power(k) == q * (Y.Abs() * Power(k));
    X.AddSub(X, T1, -1);
  }

  /** Undoes one subtraction. */
  method AddBack(X: Mpi, Y: Mpi, T1: Mpi, k: nat)
    requires X.Valid() && X.Int() < 0 && Y.s == 1 && T1.Valid() && Distinct(X, Y, T1)
    modifies X, X.p, T1, T1.p
    ensures X.Valid() && T1.Valid() && Distinct(X, Y, T1)
    ensures X.Int() == old(X.Int()) + Y.Abs() * Power(k) && (X.Int() >= 0 ==> X.s == 1)
    ensures (X.p == old(X.p) || fresh(X.p)) && X.p.Length >= old(X.p.Length)
    ensures (T1.p == old(T1.p) || fresh(T1.p)) && T1.p.Length >= old(T1.p.Length)
  {
    hide Value, Power;
    T1.Assign(Y);
    ShiftUp(T1, k);
    X.AddSub(X, T1, 1);
  }

  /** Takes `q` times the divisor off the remainder, and puts one back if that was too much. */
  method SubtractDigit(X: Mpi, Y: Mpi, T1: Mpi, q: limb, k: nat, ghost digit: nat) returns (z: limb)
    requires X.s == 1 && Y.s == 1 && T1.Valid() && digit <= q <= digit + 1 && Distinct(X, Y, T1)
    requires digit * (Y.Abs() * Power(k)) <= X.Abs() < (digit + 1) * (Y.Abs() * Power(k))
    modifies X, X.p, T1, T1.p
    ensures z == digit && X.s == 1 && X.Abs() == old(X.Abs()) - digit * (Y.Abs() * Power(k))
    ensures (X.p == old(X.p) || fresh(X.p)) && X.p.Length >= old(X.p.Length)
    ensures T1.Valid() && (T1.p == old(T1.p) || fresh(T1.p)) && T1.p.Length >= old(T1.p.Length) && Distinct(X, Y, T1)
  {
    hide Value, Power;
    ghost var d := Y.Abs() * Power(k);
    assert (digit + 1) * d == digit * d + d;
    SubtractMultiple(X, Y, T1, q, k);
    z := q;
    var cmp := X.CompareInt(0);
    if cmp < 0 {
      AddBack(X, Y, T1, k);
      z := z - 1;
    }
  }

  // ---------------------------------------------------------------- the whole quotient

  /** The digit at hand, which fits a limb. */
  lemma DigitExists(x: nat, y: nat, i: nat, t: nat) returns (digit: nat)
    requires t < i && y > 0 && x < y * Power(i - t)
    ensures IsDigit(digit, x, y, i, t) && digit < BASE
  {
    hide Power;
    var d := y * Power(i - t - 1);
    Scale(1, y, Power(i - t - 1));
    PowerStep(i - t - 1);
    assert y * (BASE * Power(i - t - 1)) == BASE * d;
    digit := x / d;
    assert x == d * digit + x % d && (digit + 1) * d == d * digit + d;
    Cancel(digit, BASE, d);
  }

  /** A remainder below the moved-up divisor has no limbs above position `i`. */
  lemma Align(x: seq<limb>, y: seq<limb>, i: nat, t: nat)
    requires t < i < |x| && t < |y| && Value(x) < Value(y) * Power(i - t)
    requires y[t] >= 1 && forall j :: t < j < |y| ==> y[j] == 0
    ensures Positions(x, y, i, t) && Value(y) > 0
  {
    hide Value, Power;
    PaddedValue(y, t + 1);
    ValueBound(y[..t + 1]);
    ValueZero(y);
    Scale(Value(y), Power(t + 1), Power(i - t));
    PowerSum(t + 1, i - t);
    HighZeros(x, i + 1);
  }

  /** The state of the digit loop: what has been divided off, and a remainder for the digits below `i - t`. */
  ghost predicate Dividing(X: Mpi, Y: Mpi, Z: Mpi, T1: Mpi, i: nat, t: nat, total: nat)
    reads X, X.p, Y, Y.p, Z, Z.p, T1, T1.p
  {
    && X.s == 1 && Y.s == 1 && T1.Valid() && T1.p.Length >= 2 && t < Y.p.Length && t <= i < X.p.Length
    && Distinct(X, Y, T1) && Z != X && Z != Y && Z != T1 && Z.p != X.p && Z.p != Y.p && Z.p != T1.p
    && Y.p[t] >= 1 && (forall j :: t < j < Y.p.Length ==> Y.p[j] == 0)
    && X.Abs() < Y.Abs() * Power(i - t)
    && i - t <= Z.p.Length && (forall j :: 0 <= j < i - t ==> Z.p[j] == 0)
    && total == Z.Abs() * Y.Abs() + X.Abs()
  }

  /** One turn of the digit loop. */
  method DivideDigit(X: Mpi, Y: Mpi, Z: Mpi, T1: Mpi, T2: Mpi, i: nat, t: nat, ghost total: nat)
    requires t < i && Dividing(X, Y, Z, T1, i, t, total) && T2.s == 1 && T2.p.Length == 3
    requires T2 != X && T2 != Y && T2 != Z && T2 != T1 && T2.p != X.p && T2.p != Y.p && T2.p != Z.p && T2.p != T1.p
    modifies X, X.p, Z.p, T1, T1.p, T2.p
    ensures Dividing(X, Y, Z, T1, i - 1, t, total)
    ensures (X.p == old(X.p) || fresh(X.p)) && (T1.p == old(T1.p) || fresh(T1.p))
  {
    hide Value, Power, IsDigit, Positions;
    Align(X.p[..], Y.p[..], i, t);
    ghost var digit := DigitExists(X.Abs(), Y.Abs(), i, t);
    ghost var z0, y, w := Z.p[..], Y.Abs(), Power(i - t - 1);
    var q := EstimateDigit(X, Y, T1, T2, i, t, digit);
    OpenDigit(digit, X.Abs(), y, i, t);
    var z := SubtractDigit(X, Y, T1, q, i - t - 1, digit);
    Z.p[i - t - 1] := z;
    assert Z.p[..] == z0[i - t - 1 := z];
    WriteLimb(z0, i - t - 1, z);
    DigitMoved(Value(z0), z, w, y);
  }

  lemma OpenDigit(q: int, x: int, y: int, i: nat, t: nat)
    requires t < i && IsDigit(q, x, y, i, t)
    ensures q * (y * Power(i - t - 1)) <= x < (q + 1) * (y * Power(i - t - 1))
    ensures (q + 1) * (y * Power(i - t - 1)) == q * (y * Power(i - t - 1)) + y * Power(i - t - 1)
  {
  }

  lemma DigitMoved(zv: int, z: int, w: int, y: int)
    ensures (zv + (z - 0) * w) * y == zv * y + z * (y * w)
  {
    assert (zv + z * w) * y == zv * y + (z * w) * y;
    assert (z * w) * y == z * (y * w);
  }

  /** The digit loop. */
  method DivideDigits(X: Mpi, Y: Mpi, Z: Mpi, T1: Mpi, n: nat, t: nat, ghost total: nat)
    requires Dividing(X, Y, Z, T1, n, t, total)
    modifies X, X.p, Z.p, T1, T1.p
    ensures X.s == 1 && X.Abs() < Y.Abs() && total == Z.Abs() * Y.Abs() + X.Abs()
    ensures (X.p == old(X.p) || fresh(X.p)) && X.p.Length > 0
  {
    hide Value, Power;
    var T2 := new Mpi();
    T2.Grow(3);
    var i := n;
    while i > t
      invariant t <= i <= n && Dividing(X, Y, Z, T1, i, t, total)
      invariant fresh(T2) && fresh(T2.p) && T2.s == 1 && T2.p.Length == 3
      invariant T2.p != X.p && T2.p != T1.p
      invariant (X.p == old(X.p) || fresh(X.p)) && (T1.p == old(T1.p) || fresh(T1.p))
    {
      DivideDigit(X, Y, Z, T1, T2, i, t, total);
      i := i - 1;
    }
    ValueEmpty();
  }

  // ---------------------------------------------------------------- normalization

  /** The number of limbs that `bits` bits need. */
  function LimbsFor(bits: nat): nat
  {
    (bits + LIMB_BITS - 1) / LIMB_BITS
  }

  /** The significant limbs are those that the significant bits need. */
  lemma SignificantBits(x: seq<limb>)
    ensures Significant(x) == LimbsFor(Bits(Value(x)))
  {
    hide Value, Power, Pow2, Bits, Significant;
    var k := Significant(x);
    PaddedValue(x, k);
    ValueBound(x[..k]);
    PowerPow2(k);
    BitsBound(Value(x), LIMB_BITS * k);
    if k > 0 {
      ValueGrow(x, k - 1);
      Scale(1, x[k - 1], Power(k - 1));
      PowerPow2(k - 1);
      BitsBound(Value(x), LIMB_BITS * (k - 1));
    }
  }

  /** By how much the divisor is shifted: its highest bit becomes the second highest of its limb. */
  function Normalizer(bits: nat): (k: nat)
    ensures k < LIMB_BITS
  {
    if bits % LIMB_BITS < LIMB_BITS - 1 then LIMB_BITS - 1 - bits % LIMB_BITS else 0
  }

  /** A normalized number fills its limbs but for one bit. */
  lemma Normalized(y: seq<limb>, bits: nat)
    requires Bits(Value(y)) == bits + Normalizer(bits) && |y| == LimbsFor(bits + Normalizer(bits))
    ensures |y| > 0 && 0x4000_0000 * Power(|y| - 1) <= Value(y) && y[|y| - 1] >= 1
  {
    hide Value, Power, Pow2, Bits, Significant;
    var t := |y| - 1;
    assert bits + Normalizer(bits) == LIMB_BITS * t + 31;
    BitsBound(Value(y), LIMB_BITS * t + 30);
    Pow2Sum(LIMB_BITS * t, 30);
    PowerPow2(t);
    assert Pow2(30) == 0x4000_0000 by { Pow2Thirty(); }
    ValueGrow(y, t);
    ValueBound(y[..t]);
    assert y[..t + 1] == y;
    assert (y[t] as int + 1) * Power(t) == y[t] as int * Power(t) + Power(t);
    Cancel(0x4000_0000, y[t] as int + 1, Power(t));
  }

  lemma Pow2Thirty()
    ensures Pow2(30) == 0x4000_0000
  {
    Pow2Limb();
    Pow2Step(31);
    Pow2Step(30);
  }

  lemma {:induction false} BitsShifted(v: nat, k: nat)
    requires v > 0
    ensures Bits(v * Pow2(k)) == Bits(v) + k
  {
    BitsScaled(v, 0, k);
  }

  /** `X := |A| << k`, where `X` starts empty. */
  method Normalize(X: Mpi, A: Mpi, k: nat)
    requires X.Valid() && X.p.Length == 0 && A.Valid() && X != A && X.p != A.p && A.Abs() > 0
    modifies X, X.p
    ensures X.s == 1 && X.Abs() == A.Abs() * Pow2(k) && fresh(X.p)
    ensures X.p.Length == LimbsFor(Bits(A.Abs()) + k)
  {
    hide Value, Power, Pow2, Bits, Significant;
    NoLimbs(A.p[..]);
    SignificantBits(A.p[..]);
    X.Assign(A);
    X.s := 1;
    if k > 0 {
      X.ShiftL(k);
    } else {
      Pow2Start();
    }
  }

  /** The leading digit by repeated subtraction: fewer than four times for a normalized divisor. */
  method LeadingDigit(X: Mpi, Y: Mpi, Z: Mpi, n: nat, t: nat)
    requires X.s == 1 && Y.s == 1 && t <= n && X.p.Length == n + 1 && n - t < Z.p.Length
    requires X != Y && X != Z && Y != Z && X.p != Y.p && X.p != Z.p && Y.p != Z.p
    requires 0x4000_0000 * Power(n) <= Y.Abs() && forall j :: 0 <= j < Z.p.Length ==> Z.p[j] == 0
    modifies X, X.p, Z.p
    ensures X.s == 1 && X.Abs() < Y.Abs() && (X.p == old(X.p) || fresh(X.p)) && X.p.Length >= n + 1
    ensures old(X.Abs()) == Z.p[n - t] * Y.Abs() + X.Abs() && Z.Abs() == Z.p[n - t] * Power(n - t)
    ensures forall j :: 0 <= j < Z.p.Length && j != n - t ==> Z.p[j] == 0
  {
    hide Value, Power;
    ghost var x, y, z0 := X.Abs(), Y.Abs(), Z.p[..];
    ghost var zs: limb := 0;
    ValueBound(X.p[..]);
    PowerStep(n);
    ValueZero(z0);
    var c := X.Compare(Y);
    while c >= 0
      invariant c == Order(X.Int(), Y.Abs())
      invariant X.s == 1 && (X.p == old(X.p) || fresh(X.p)) && X.p.Length >= n + 1
      invariant Z.p[..] == z0[n - t := zs] && 0 <= zs < 4 && x == zs * y + X.Abs()
      decreases X.Abs()
    {
      FewSubtractions(x, y, zs, X.Abs(), Power(n));
      Z.p[n - t] := Z.p[n - t] + 1;
      zs := zs + 1;
      X.AddSub(X, Y, -1);
      c := X.Compare(Y);
    }
    WriteLimb(z0, n - t, zs);
  }

  lemma FewSubtractions(x: nat, y: nat, z: nat, r: nat, p: nat)
    requires x < BASE * p && 0x4000_0000 * p <= y && x == z * y + r && r >= y && p > 0
    ensures z + 1 < 4 && (z + 1) * y == z * y + y && y > 0
  {
    Cancel(z + 1, 4, y);
  }

  /** The exact quotient and remainder: the remainder is zero or has the sign of the dividend. */
  predicate Truncated(a: int, b: int, q: int, r: int)
  {
    a == q * b + r && Magnitude(r) < Magnitude(b) && (r > 0 ==> a > 0) && (r < 0 ==> a < 0)
  }

  function Magnitude(x: int): int
  {
    if x < 0 then 0 - x else x
  }

  /** Quotient and remainder are determined by that. */
  lemma TruncatedUnique(a: int, b: int, q: int, r: int, q': int, r': int)
    requires Truncated(a, b, q, r) && Truncated(a, b, q', r')
    ensures q == q' && r == r'
  {
    hide Magnitude;
    RemainderGap(a, b, r, r');
    assert (q - q') * b == q * b - q' * b;
    if q != q' {
      NonzeroMultiple(q - q', b);
    }
  }

  lemma RemainderGap(a: int, b: int, r: int, r': int)
    requires Magnitude(r) < Magnitude(b) && Magnitude(r') < Magnitude(b)
    requires (r > 0 ==> a > 0) && (r < 0 ==> a < 0) && (r' > 0 ==> a > 0) && (r' < 0 ==> a < 0)
    ensures Magnitude(r' - r) < Magnitude(b)
  {
  }

  lemma NonzeroMultiple(d: int, b: int)
    requires d != 0
    ensures Magnitude(d * b) >= Magnitude(b)
  {
    Scale(1, Magnitude(d), Magnitude(b));
    assert (0 - d) * b == 0 - d * b && d * (0 - b) == 0 - d * b && (0 - d) * (0 - b) == d * b;
  }

  /** Undoing the common shift. */
  lemma Unshifted(a: nat, b: nat, p: nat, z: nat, x: nat)
    requires p > 0 && a * p == z * (b * p) + x && x < b * p
    ensures a == z * b + x / p && x / p < b
  {
    var r := a - z * b;
    assert z * (b * p) == (z * b) * p && (a - z * b) * p == a * p - (z * b) * p;
    DivUnique(x, p, r, 0);
    Cancel(r, b, p);
  }

  /** From magnitudes to signed results. */
  lemma SignedDivision(a: nat, b: nat, z: nat, r: nat, sa: int, sb: int)
    requires a == z * b + r && r < b && (sa == 1 || sa == -1) && (sb == 1 || sb == -1)
    ensures Truncated(Signed(sa, a), Signed(sb, b), Signed(sa * sb, z), Signed(sa, r))
  {
    Scale(0, z, b);
    assert (0 - z) * b == 0 - z * b && z * (0 - b) == 0 - z * b && (0 - z) * (0 - b) == z * b;
  }

  /** The division of the magnitudes, both shifted by `k` bits: `Z` is the quotient and `X` the remainder. */
  method DivideAbs(A: Mpi, B: Mpi) returns (X: Mpi, Z: Mpi, k: nat)
    requires A.Valid() && B.Valid() && A.Abs() >= B.Abs() > 0
    ensures fresh(X) && fresh(X.p) && fresh(Z) && fresh(Z.p) && X != Z && X.p != Z.p && X.s == 1 && Z.s == 1
    ensures X.p.Length > 0 && Z.p.Length > 0
    ensures A.Abs() * Pow2(k) == Z.Abs() * (B.Abs() * Pow2(k)) + X.Abs() && X.Abs() < B.Abs() * Pow2(k)
  {
    hide Value, Power, Pow2, Bits, Significant, LimbsFor, Normalizer;
    var T1, Y;
    Z, T1 := Workspace(A.p.Length + 2);
    X, Y, k := Operands(A, B);
    DivideNormalized(X, Y, Z, T1, X.p.Length - 1, Y.p.Length - 1);
  }

  /** The quotient, set to zero, and the number that holds the products. */
  method Workspace(n: nat) returns (Z: Mpi, T1: Mpi)
    requires n >= 2
    ensures fresh(Z) && fresh(Z.p) && fresh(T1) && fresh(T1.p) && Z != T1 && Z.p != T1.p
    ensures Z.s == 1 && Z.Abs() == 0 && Z.p.Length >= n && T1.Valid() && T1.p.Length >= n
  {
    hide Value;
    Z := new Mpi();
    T1 := new Mpi();
    Z.Grow(n);
    Z.Set(0);
    T1.Grow(n);
  }

  /** The copies that the division works on, shifted so that the divisor is normalized. */
  method Operands(A: Mpi, B: Mpi) returns (X: Mpi, Y: Mpi, k: nat)
    requires A.Valid() && B.Valid() && A.Abs() >= B.Abs() > 0
    ensures fresh(X) && fresh(X.p) && fresh(Y) && fresh(Y.p) && X != Y && X.p != Y.p && X.s == 1 && Y.s == 1
    ensures X.Abs() == A.Abs() * Pow2(k) && Y.Abs() == B.Abs() * Pow2(k)
    ensures 0 < Y.p.Length <= X.p.Length <= A.p.Length + 1
    ensures 0x4000_0000 * Power(Y.p.Length - 1) <= Y.Abs() && Y.p[Y.p.Length - 1] >= 1
  {
    hide Value, Power, Pow2, Bits, Significant, LimbsFor, Normalizer;
    X := new Mpi();
    Y := new Mpi();
    var bits := BitLen(B.p);
    k := Normalizer(bits);
    Normalize(X, A, k);
    Normalize(Y, B, k);
    LimbCounts(A.p[..], B.p[..], k);
    BitsShifted(B.Abs(), k);
    Normalized(Y.p[..], bits);
  }

  /** Where the positions of the division lie. */
  lemma LimbCounts(a: seq<limb>, b: seq<limb>, k: nat)
    requires Value(a) >= Value(b) && k < LIMB_BITS
    ensures LimbsFor(Bits(Value(b)) + k) <= LimbsFor(Bits(Value(a)) + k) <= |a| + 1
  {
    hide Value, Bits, Significant;
    BitsMonotone(Value(b), Value(a));
    SignificantBits(a);
  }

  /** The loops of the division, for a normalized divisor. */
  method DivideNormalized(X: Mpi, Y: Mpi, Z: Mpi, T1: Mpi, n: nat, t: nat)
    requires X.s == 1 && Y.s == 1 && Z.s == 1 && T1.Valid() && T1.p.Length >= 2
    requires t <= n && X.p.Length == n + 1 && Y.p.Length == t + 1 && n - t < Z.p.Length && Z.Abs() == 0
    requires Distinct(X, Y, T1) && Z != X && Z != Y && Z != T1 && Z.p != X.p && Z.p != Y.p && Z.p != T1.p
    requires 0x4000_0000 * Power(t) <= Y.Abs() && Y.p[t] >= 1
    modifies X, X.p, Y`p, Y.p, Z.p, T1, T1.p
    ensures X.s == 1 && X.Abs() < old(Y.Abs()) && old(X.Abs()) == Z.Abs() * old(Y.Abs()) + X.Abs()
    ensures (X.p == old(X.p) || fresh(X.p)) && X.p.Length > 0 && Z.s == 1
  {
    hide Value, Power;
    ghost var total := X.Abs();
    DivideLeading(X, Y, Z, T1, n, t);
    DivideDigits(X, Y, Z, T1, n, t, total);
  }

  /** The leading digit, for which the divisor is moved up and down again. */
  method DivideLeading(X: Mpi, Y: Mpi, Z: Mpi, T1: Mpi, n: nat, t: nat)
    requires X.s == 1 && Y.s == 1 && T1.Valid() && T1.p.Length >= 2
    requires t <= n && X.p.Length == n + 1 && Y.p.Length == t + 1 && n - t < Z.p.Length && Z.Abs() == 0
    requires Distinct(X, Y, T1) && Z != X && Z != Y && Z != T1 && Z.p != X.p && Z.p != Y.p && Z.p != T1.p
    requires 0x4000_0000 * Power(t) <= Y.Abs() && Y.p[t] >= 1
    modifies X, X.p, Y`p, Y.p, Z.p
    ensures Dividing(X, Y, Z, T1, n, t, old(X.Abs())) && Y.Abs() == old(Y.Abs())
    ensures (X.p == old(X.p) || fresh(X.p)) && (Y.p == old(Y.p) || fresh(Y.p))
  {
    hide Value, Power;
    ghost var y, w := Y.Abs(), Power(n - t);
    ghost var y0 := Y.p[..];
    ValueZero(Z.p[..]);
    PowerSum(t, n - t);
    ShiftUp(Y, n - t);
    Scale(0x4000_0000 * Power(t), y, w);
    Regroup(0x4000_0000, Power(t), w);
    LeadingDigit(X, Y, Z, n, t);
    Regroup(Z.p[n - t], w, y);
    MoveDown(Y, n - t, y0);
  }

  /** Moves the divisor back down by `k` limbs. */
  method MoveDown(Y: Mpi, k: nat, ghost y0: seq<limb>)
    requires Y.Valid() && 0 < |y0| <= Y.p.Length && y0[|y0| - 1] >= 1 && Y.Abs() == Value(y0) * Power(k)
    modifies Y.p
    ensures Y.Abs() == Value(y0)
    ensures Y.p[|y0| - 1] >= 1 && forall j :: |y0| <= j < Y.p.Length ==> Y.p[j] == 0
  {
    hide Value, Power;
    PowerPow2(k);
    Y.ShiftR(LIMB_BITS * k);
    DivUnique(Value(y0) * Power(k), Power(k), Value(y0), 0);
    Restored(Y.p[..], y0);
  }

  lemma Regroup(x: int, y: int, z: int)
    ensures x * y * z == x * (y * z) && x * (z * y) == x * y * z
  {
  }

  /** The divisor is back in its limbs. */
  lemma Restored(y: seq<limb>, y0: seq<limb>)
    requires |y| >= |y0| > 0 && Value(y) == Value(y0) && y0[|y0| - 1] >= 1
    ensures y[|y0| - 1] >= 1 && forall j :: |y0| <= j < |y| ==> y[j] == 0
  {
    hide Value, Power;
    ValueBound(y0);
    HighZeros(y, |y0|);
    PaddedValue(y, |y0|);
    ValueInjective(y[..|y0|], y0);
  }

  /** A sign that is read after the quotient may have overwritten its number. */
  function SignRead(s: int, overwritten: bool): int
  {
    if overwritten then 1 else s
  }

  /** What the code returns for the quotient `q`; `qa` and `qb` say whether it overwrites an operand. */
  function QuotientGiven(q: int, sa: int, sb: int, qa: bool, qb: bool): int
  {
    Signed(SignRead(sa, qa) * SignRead(sb, qb), Magnitude(q))
  }

  /** What it returns for the remainder `r`; `small` says that the dividend is smaller than the divisor. */
  function RemainderGiven(r: int, small: bool, sa: int, sb: int, qa: bool, qb: bool): int
  {
    if !qa then r else if small then 0 else Signed(SignRead(sb, qb), Magnitude(r))
  }

  /** Exactly when the quotient is right. */
  lemma QuotientExact(a: nat, b: nat, sa: int, sb: int, q: int, r: int, qa: bool, qb: bool)
    requires (sa == 1 || sa == -1) && (sb == 1 || sb == -1) && (qa && qb ==> sa == sb)
    requires Truncated(Signed(sa, a), Signed(sb, b), q, r)
    ensures QuotientGiven(q, sa, sb, qa, qb) == q <==> a < b || (qa && qb) || ((qa ==> sa == 1) && (qb ==> sb == 1))
  {
    NonzeroDivisor(Signed(sa, a), sb, b, q, r);
    hide Truncated;
    MagnitudesDivide(a, b, sa, sb, q, r);
  }

  /** Exactly when the remainder is right. */
  lemma RemainderExact(a: nat, b: nat, sa: int, sb: int, q: int, r: int, qa: bool, qb: bool)
    requires (sa == 1 || sa == -1) && (sb == 1 || sb == -1) && (qa && qb ==> sa == sb)
    requires Truncated(Signed(sa, a), Signed(sb, b), q, r)
    ensures RemainderGiven(r, a < b, sa, sb, qa, qb) == r <==> !qa || r == 0 || (a >= b && SignRead(sb, qb) == sa)
  {
    NonzeroDivisor(Signed(sa, a), sb, b, q, r);
    hide Truncated;
    MagnitudesDivide(a, b, sa, sb, q, r);
  }

  /** Dividing -7 by 3 into -7 itself gives quotient 2 and remainder 1, instead of -2 and -1. */
  lemma AliasedDivisionWrong()
    ensures Truncated(-7, 3, -2, -1)
    ensures QuotientGiven(-2, -1, 1, true, false) == 2 && RemainderGiven(-1, false, -1, 1, true, false) == 1
  {
  }

  /** Truncated division is the division of the magnitudes, with the signs put on. */
  lemma MagnitudesDivide(a: nat, b: nat, sa: int, sb: int, q: int, r: int)
    requires (sa == 1 || sa == -1) && (sb == 1 || sb == -1) && b > 0 && Truncated(Signed(sa, a), Signed(sb, b), q, r)
    ensures q == Signed(sa * sb, a / b) && r == Signed(sa, a % b) && (a / b == 0 <==> a < b)
  {
    hide Truncated, Signed, Magnitude;
    QuotientSize(a, b);
    SignedDivision(a, b, a / b, a % b, sa, sb);
    TruncatedUnique(Signed(sa, a), Signed(sb, b), q, r, Signed(sa * sb, a / b), Signed(sa, a % b));
  }

  lemma NonzeroDivisor(a: int, sb: int, b: nat, q: int, r: int)
    requires Truncated(a, Signed(sb, b), q, r)
    ensures b > 0
  {
  }

  lemma QuotientSize(a: nat, b: nat)
    requires b > 0
    ensures a == a / b * b + a % b && (a / b == 0 <==> a < b)
  {
    if a < b {
      DivUnique(a, b, 0, a);
    }
  }

  /**
   * `mbedtls_mpi_div_mpi`. The remainder may overwrite an operand; a quotient that does so can change a
   * sign before it is read.
   */
  method Divide(Q: Mpi?, R: Mpi?, A: Mpi, B: Mpi) returns (ok: bool, ghost q: int, ghost r: int)
    requires A.Valid() && B.Valid() && A.Apart(B)
    requires Q != null ==> Q.Valid() && Q.Apart(A) && Q.Apart(B)
    requires R != null ==> R.Valid() && R.Apart(A) && R.Apart(B)
    requires Q != null && R != null ==> Q != R && Q.p != R.p
    modifies Q, R, if Q == null then {} else {Q.p}, if R == null then {} else {R.p}
    ensures ok <==> old(B.Int()) != 0
    ensures ok ==> Truncated(old(A.Int()), old(B.Int()), q, r)
    ensures ok && Q != null ==> Q.Int() == QuotientGiven(q, old(A.s), old(B.s), Q == A, Q == B)
    ensures ok && R != null ==>
              R.Int() == RemainderGiven(r, old(A.Abs()) < old(B.Abs()), old(A.s), old(B.s), Q == A, Q == B)
    ensures ok && Q != null && (Q == A ==> old(A.s) == 1) && (Q == B ==> old(B.s) == 1) ==> Q.Int() == q
    ensures Q != null ==> Q.Valid() && (Q.p == old(Q.p) || fresh(Q.p))
    ensures ok && Q != null && old(A.s) == 1 && old(B.s) == 1 ==> Q.s == 1
    ensures R != null ==> R.Valid() && (R.p == old(R.p) || fresh(R.p))
    ensures R != null && Q != A && old(A.s) == 1 && old(R.s) == 1 ==> R.s == 1
  {
    hide Value, Pow2, Truncated;
    ghost var a, b := A.Int(), B.Int();
    ok, q, r := true, 0, a;
    var zero := B.CompareInt(0);
    if zero == 0 {
      return false, 0, 0;
    }
    var cmp := A.CompareAbs(B);
    if cmp < 0 {
      if Q != null {
        Q.Set(0);
      }
      if R != null {
        R.Assign(A);
      }
      SmallDividend(a, b);
      return;
    }
    q, r := DivideLarge(Q, R, A, B);
  }

  /** The division when the dividend is not smaller. */
  method DivideLarge(Q: Mpi?, R: Mpi?, A: Mpi, B: Mpi) returns (ghost q: int, ghost r: int)
    requires A.Valid() && B.Valid() && A.Abs() >= B.Abs() > 0
    requires Q != null ==> Q.Valid() && Q.Apart(A) && Q.Apart(B)
    requires R != null ==> R.Valid() && R.Apart(A) && R.Apart(B)
    requires Q != null && R != null ==> Q != R && Q.p != R.p
    modifies Q, R, if Q == null then {} else {Q.p}, if R == null then {} else {R.p}
    ensures Truncated(old(A.Int()), old(B.Int()), q, r)
    ensures Q != null ==> Q.Int() == QuotientGiven(q, old(A.s), old(B.s), Q == A, Q == B)
    ensures Q != null && (Q == A ==> old(A.s) == 1) && (Q == B ==> old(B.s) == 1) ==> Q.Int() == q
    ensures Q != null ==> Q.Valid() && (Q.p == old(Q.p) || fresh(Q.p)) && (old(A.s) == 1 && old(B.s) == 1 ==> Q.s == 1)
    ensures R != null ==> R.Int() == RemainderGiven(r, false, old(A.s), old(B.s), Q == A, Q == B)
    ensures R != null ==> R.Valid() && (R.p == old(R.p) || fresh(R.p)) && (Q != A && old(A.s) == 1 ==> R.s == 1)
  {
    hide Value, Pow2, Truncated, Signed, Magnitude;
    ghost var sa, sb := A.s, B.s;
    var X, Z, k := DivideAbs(A, B);
    ghost var z, x := Z.Abs(), X.Abs() / Pow2(k);
    Unshifted(A.Abs(), B.Abs(), Pow2(k), z, X.Abs());
    SignedDivision(A.Abs(), B.Abs(), z, x, sa, sb);
    q, r := Signed(sa * sb, z), Signed(sa, x);
    SignedMagnitude(sa * sb, z);
    SignedMagnitude(sa, x);
    if Q != null {
      StoreQuotient(Q, Z, A, B);
    }
    if R != null {
      X.ShiftR(k);
      SetRemainder(R, X, A.s);
    }
  }

  method StoreQuotient(Q: Mpi, Z: Mpi, A: Mpi, B: Mpi)
    requires Q.Valid() && A.Valid() && B.Valid() && Z.s == 1 && Z.p.Length > 0 && Q != Z && Q.p != Z.p
    modifies Q, Q.p
    ensures Q.Valid() && Q.s == SignRead(old(A.s), Q == A) * SignRead(old(B.s), Q == B)
    ensures Q.Abs() == Z.Abs() == old(Z.Abs()) && (Q.p == old(Q.p) || fresh(Q.p))
  {
    hide Value;
    Q.Assign(Z);
    Q.s := A.s * B.s;
  }

  lemma SignedMagnitude(s: int, v: nat)
    ensures Magnitude(Signed(s, v)) == v
  {
  }

  method SetRemainder(R: Mpi, X: Mpi, sign: int)
    requires R.Valid() && X.Valid() && X.p.Length > 0 && R != X && R.p != X.p && (sign == 1 || sign == -1)
    modifies R, R.p, X`s
    ensures R.Valid() && R.Int() == Signed(sign, old(X.Abs())) && (R.p == old(R.p) || fresh(R.p))
              && (sign == 1 ==> R.s == 1)
  {
    hide Value;
    X.s := sign;
    R.Assign(X);
    var zero := R.CompareInt(0);
    if zero == 0 {
      R.s := 1;
    }
  }

  lemma SmallDividend(a: int, b: int)
    requires Magnitude(a) < Magnitude(b)
    ensures Truncated(a, b, 0, a)
  {
  }

  /** The first loop of `mbedtls_mpi_mod_mpi`. */
  method RaiseRemainder(R: Mpi, B: Mpi)
    requires R.Valid() && B.Valid() && R != B && R.p != B.p && B.Int() > 0
    modifies R, R.p
    ensures R.Valid() && (R.p == old(R.p) || fresh(R.p)) && R.p != B.p
    ensures R.Int() >= 0 && R.Int() % B.Int() == old(R.Int()) % B.Int()
    ensures old(R.Int()) >= 0 ==> R.s == old(R.s)
  {
    hide Value;
    ghost var b, r := B.Int(), R.Int();
    var c := R.CompareInt(0);
    while c < 0
      invariant c == Order(R.Int(), 0) && B.Int() == b && R.Valid() && R.p != B.p && (R.p == old(R.p) || fresh(R.p))
      invariant R.Int() % b == r % b && (r >= 0 ==> R.Int() >= 0 && R.s == old(R.s))
      decreases if c < 0 then 0 - R.Int() else 0
    {
      RemainderCongruent(R.Int() + b, b, 1, R.Int());
      R.AddSub(R, B, 1);
      c := R.CompareInt(0);
    }
  }

  /** Its second loop. */
  method LowerRemainder(R: Mpi, B: Mpi)
    requires R.Valid() && B.Valid() && R != B && R.p != B.p && B.Int() > 0 && R.Int() >= 0
    modifies R, R.p
    ensures R.Valid() && (R.p == old(R.p) || fresh(R.p)) && R.p != B.p
    ensures 0 <= R.Int() < B.Int() && R.Int() % B.Int() == old(R.Int()) % B.Int()
    ensures old(R.s) == 1 ==> R.s == 1
  {
    hide Value;
    ghost var b, r := B.Int(), R.Int();
    var c := R.Compare(B);
    while c >= 0
      invariant c == Order(R.Int(), b) && B.Int() == b && R.Valid() && R.p != B.p && (R.p == old(R.p) || fresh(R.p))
      invariant R.Int() >= 0 && R.Int() % b == r % b && (old(R.s) == 1 ==> R.s == 1)
      decreases R.Int()
    {
      RemainderCongruent(R.Int(), b, 1, R.Int() - b);
      R.AddSub(R, B, -1);
      c := R.Compare(B);
    }
  }

  /**
   * `mbedtls_mpi_mod_mpi`: the remainder that is not negative. With `R` in the place of a positive `B` the
   * call never returns, since the loops then add `R` to itself or take it from itself.
   */
  method Modulo(R: Mpi, A: Mpi, B: Mpi) returns (ok: bool)
    requires R.Valid() && A.Valid() && B.Valid() && A.Apart(B) && R.Apart(A) && R.Apart(B)
    requires R == B ==> B.Int() <= 0
    modifies R, R.p
    ensures R.Valid() && (R.p == old(R.p) || fresh(R.p)) && (R != B ==> R.p != B.p)
    ensures ok <==> old(B.Int()) > 0
    ensures ok ==> R.Int() == old(A.Int()) % old(B.Int())
    ensures old(A.s) == 1 && old(R.s) == 1 ==> R.s == 1
  {
    hide Value;
    ghost var a, b := A.Int(), B.Int();
    var c := B.CompareInt(0);
    if c < 0 {
      return false;
    }
    ghost var q, r;
    ok, q, r := Divide(null, R, A, B);
    if !ok {
      return;
    }
    RemainderCongruent(a, b, q, r);
    RaiseRemainder(R, B);
    LowerRemainder(R, B);
    DivUnique(R.Int(), b, 0, R.Int());
  }

  lemma RemainderCongruent(a: int, b: int, q: int, r: int)
    requires b > 0 && a == q * b + r
    ensures a % b == r % b
  {
    assert r == b * (r / b) + r % b && b * (q + r / b) == q * b + b * (r / b);
    DivUnique(a, b, q + r / b, r % b);
  }
}
