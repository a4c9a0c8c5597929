/** Multi-precision integers: sign and growing limb array (bignum.c). */
module MultiPrecision {
  import opened Arithmetic
  import opened Limbs
  import opened LimbOps
  import opened Montgomery
  import opened ExpMod

  function Signed(s: int, v: nat): int
  {
    if s < 0 then 0 - v else v
  }

  /** The number of limbs up to the highest that is not zero. */
  function Significant(p: seq<limb>): (k: nat)
    ensures k <= |p| && (forall j :: k <= j < |p| ==> p[j] == 0) && (k > 0 ==> p[k - 1] != 0)
  {
    if p == [] then 0 else if p[|p| - 1] != 0 then |p| else Significant(p[..|p| - 1])
  }

  lemma {:induction false} SignificantUnique(p: seq<limb>, k: nat)
    requires k <= |p| && (forall j :: k <= j < |p| ==> p[j] == 0) && (k > 0 ==> p[k - 1] != 0)
    ensures Significant(p) == k
  {
    if k < |p| {
      SignificantUnique(p[..|p| - 1], k);
    }
  }

  /** `mbedtls_mpi`; `n` is the length of `p`, and a null `p` is an array without limbs. */
  class Mpi {
    var s: int
    var p: array<limb>

    ghost predicate Valid()
      reads this
    {
      s == 1 || s == -1
    }

    ghost function Abs(): nat
      reads this, p
    {
      Value(p[..])
    }

    ghost function Int(): int
      reads this, p
    {
      Signed(s, Abs())
    }

    /** Two operands are one object or share no limbs. */
    ghost predicate Apart(other: Mpi)
      reads this, other
    {
      this == other || p != other.p
    }

    /** `mbedtls_mpi_init` */
    constructor ()
      ensures Valid() && s == 1 && p.Length == 0 && fresh(p)
    {
      s, p := 1, new limb[0];
    }

    method SignificantLimbs() returns (i: nat)
      ensures i == Significant(p[..])
    {
      i := p.Length;
      while i > 0
        invariant 0 <= i <= p.Length && forall j :: i <= j < p.Length ==> p[j] == 0
      {
        if p[i - 1] != 0 {
          break;
        }
        i := i - 1;
      }
      SignificantUnique(p[..], i);
    }

    /** `mbedtls_mpi_grow` */
    method Grow(n: nat)
      modifies this`p
      ensures p[..] == Padded(old(p[..]), Max(old(p.Length), n)) && Abs() == old(Abs())
      ensures p == old(p) || fresh(p)
    {
      hide Value;
      if p.Length < n {
        var q := new limb[n];
        CopyLow(q, p, p.Length);
        Clear(q, p.Length);
        PaddedValue(q[..], p.Length);
        assert q[..][..p.Length] == p[..];
        p := q;
      }
    }

    /** `mbedtls_mpi_copy`; `this` does not shrink. */
    method Assign(Y: Mpi)
      requires Y.Valid() && Valid() && Apart(Y)
      modifies this, p
      ensures Valid() && Int() == old(Y.Int()) && (p == old(p) || fresh(p))
      ensures Abs() == old(Y.Abs()) && (s == old(Y.s) || (old(Y.p.Length) == 0 && (s == 1 || s == old(s))))
      ensures p.Length == if this == Y || Y.p.Length == 0 then old(p.Length)
                else Max(old(p.Length), Max(1, Significant(Y.p[..])))
      ensures Y.p == old(Y.p) && Y.p[..] == old(Y.p[..])
    {
      hide Value;
      if this == Y {
        return;
      }
      if Y.p.Length == 0 {
        ValueZero(Y.p[..]);
        if p.Length != 0 {
          s := 1;
          Clear(p, 0);
        }
        ValueZero(p[..]);
        return;
      }
      var i := Y.SignificantLimbs();
      if i == 0 {
        i := 1;
      }
      s := Y.s;
      if p.Length < i {
        Grow(i);
      } else {
        Clear(p, i);
      }
      CopyLow(p, Y.p, i);
      PaddedValue(p[..], i);
      PaddedValue(Y.p[..], i);
      assert p[..][..i] == Y.p[..][..i];
    }

    /** `mbedtls_mpi_lset` */
    method Set(z: int)
      requires -0x8000_0000 <= z < 0x8000_0000
      modifies this, p
      ensures Int() == z && s == (if z < 0 then -1 else 1)
      ensures (p == old(p) || fresh(p)) && p.Length == Max(old(p.Length), 1)
    {
      hide Value;
      Grow(1);
      Clear(p, 0);
      p[0] := if z < 0 then 0 - z else z;
      s := if z < 0 then -1 else 1;
      PaddedValue(p[..], 1);
      ValueEmpty();
      ValueGrow(p[..], 0);
      assert p[..][..0] == [];
    }

    /** `mbedtls_mpi_shift_l` */
    method ShiftL(count: nat)
      requires Valid()
      modifies this`p, p
      ensures Valid() && Abs() == old(Abs()) * Pow2(count) && (p == old(p) || fresh(p))
      ensures p.Length == Max(old(p.Length), (Bits(old(Abs())) + count + LIMB_BITS - 1) / LIMB_BITS)
    {
      hide Value, Power, Pow2, Bits;
      var bits := BitLen(p);
      bits := bits + count;
      ghost var v, n := Value(p[..]), p.Length;
      if p.Length * LIMB_BITS < bits {
        Grow(bits / LIMB_BITS + (if bits % LIMB_BITS != 0 then 1 else 0));
        PaddedValue(p[..], n);
      }
      ShiftLeft(p, count);
      RoomForShift(v, count, p.Length);
    }

    /** `mbedtls_mpi_shift_r` */
    method ShiftR(count: nat)
      requires Valid()
      modifies p
      ensures Valid() && Abs() == old(Abs()) / Pow2(count)
    {
      if p.Length != 0 {
        ShiftRight(p, count);
      } else {
        DivUnique(0, Pow2(count), 0, 0);
      }
    }

    // -------------------------------------------------------------- comparison

    /** `mbedtls_mpi_cmp_abs` */
    method CompareAbs(Y: Mpi) returns (c: int)
      ensures c == Order(Abs(), Y.Abs())
    {
      hide Value;
      var i := SignificantLimbs();
      var j := Y.SignificantLimbs();
      if i > j {
        MoreLimbs(p[..], Y.p[..]);
        return 1;
      }
      if j > i {
        MoreLimbs(Y.p[..], p[..]);
        return -1;
      }
      c := CompareLimbs(Y, i);
    }

    /** The loop that ends both comparisons. */
    method CompareLimbs(Y: Mpi, k: nat) returns (c: int)
      requires k == Significant(p[..]) == Significant(Y.p[..])
      ensures c == Order(Abs(), Y.Abs())
    {
      hide Value;
      PaddedValue(p[..], k);
      PaddedValue(Y.p[..], k);
      ghost var x, y := p[..][..k], Y.p[..][..k];
      var i := k;
      while i > 0
        invariant 0 <= i <= k && x[i..] == y[i..]
      {
        if p[i - 1] > Y.p[i - 1] {
          ValueCompare(y, x, i - 1);
          return 1;
        }
        if p[i - 1] < Y.p[i - 1] {
          ValueCompare(x, y, i - 1);
          return -1;
        }
        i := i - 1;
      }
      assert x[0..] == x && y[0..] == y;
      c := 0;
    }

    /** `mbedtls_mpi_cmp_mpi` */
    method Compare(Y: Mpi) returns (c: int)
      requires Valid() && Y.Valid()
      ensures c == Order(Int(), Y.Int())
    {
      hide Value, Significant;
      var i := SignificantLimbs();
      var j := Y.SignificantLimbs();
      NoLimbs(p[..]);
      NoLimbs(Y.p[..]);
      if i == 0 && j == 0 {
        return 0;
      }
      if i > j {
        MoreLimbs(p[..], Y.p[..]);
        return s;
      }
      if j > i {
        MoreLimbs(Y.p[..], p[..]);
        return 0 - Y.s;
      }
      if s > 0 && Y.s < 0 {
        return 1;
      }
      if Y.s > 0 && s < 0 {
        return -1;
      }
      c := CompareLimbs(Y, i);
      c := if s < 0 then 0 - c else c;
    }

    /** `mbedtls_mpi_cmp_int` */
    method CompareInt(z: int) returns (c: int)
      requires Valid() && -0x8000_0000 <= z < 0x8000_0000
      ensures c == Order(Int(), z)
    {
      var Y := new Mpi();
      Y.Set(z);
      c := Compare(Y);
    }

    // -------------------------------------------------------------- addition and subtraction

    /** `mbedtls_mpi_add_abs`; `this` may be `A` or `B`. */
    method AddAbs(A: Mpi, B: Mpi)
      requires Valid() && A.Valid() && B.Valid() && Apart(A) && Apart(B)
      modifies this, p
      ensures s == 1 && Abs() == old(A.Abs()) + old(B.Abs())
      ensures p.Length >= old(p.Length) && (p == old(p) || fresh(p))
    {
      hide Value, Power, Significant;
      ghost var total := A.Abs() + B.Abs();
      var a, b := A, B;
      if this == b {
        a, b := this, a;
      }
      if this != a {
        Assign(a);
      }
      s := 1;
      var j := b.SignificantLimbs();
      NoLimbs(b.p[..]);
      if j == 0 {
        return;
      }
      PaddedValue(b.p[..], j);
      assert b.p[..][..j] == b.p[..j];
      AddLimbs(b, j, total);
    }

    /** The middle of `mbedtls_mpi_add_abs`, adding the lowest `j` limbs of `B`. */
    method AddLimbs(B: Mpi, j: nat, ghost total: nat)
      requires Apart(B) && j <= B.p.Length && Abs() + Value(B.p[..j]) == total
      modifies this`p, p
      ensures Abs() == total && p.Length >= old(p.Length) && (p == old(p) || fresh(p))
    {
      hide Value, Power;
      ghost var x, y := p[..], B.p[..j];
      Grow(j);
      PaddedValue(p[..], |x|);
      assert B == this ==> p[..j] == y;
      Split(p[..], j);
      var c := Add(p, p, B.p, j);
      Split(p[..], j);
      PropagateCarry(j, c, total);
    }

    /** The end of `mbedtls_mpi_add_abs`, adding a carry at limb `k`. */
    method PropagateCarry(k: nat, carry: bit, ghost total: nat)
      requires k <= p.Length && Abs() + carry * Power(k) == total
      modifies this`p, p
      ensures Abs() == total && p.Length >= old(p.Length) && (p == old(p) || fresh(p))
    {
      hide Value, Power;
      var j: nat, c: bit := k, carry;
      while c != 0
        invariant j <= p.Length && Abs() + c * Power(j) == total
        invariant p.Length >= old(p.Length) && (p == old(p) || fresh(p))
        decreases if c != 0 then p.Length - j + 1 else 0
      {
        if j >= p.Length {
          ghost var x := p[..];
          Grow(j + 1);
          PaddedValue(p[..], |x|);
        }
        ghost var x := p[..];
        var t: limb := Wrap(p[j] as int + c);
        p[j] := t;
        assert p[..] == x[j := t];
        CarryInto(x, j, c, t);
        c := Below(t, c);
        j := j + 1;
      }
    }

    /** `mbedtls_mpi_sub_abs`; `this` may be `A` or `B`. Without `ok`, `this` holds garbage. */
    method SubAbs(A: Mpi, B: Mpi) returns (ok: bool)
      requires Valid() && A.Valid() && B.Valid() && Apart(A) && Apart(B)
      modifies this, p
      ensures ok <==> old(A.Abs()) >= old(B.Abs())
      ensures ok ==> s == 1 && Abs() == old(A.Abs()) - old(B.Abs())
      ensures Valid() && p.Length >= old(p.Length) && (p == old(p) || fresh(p))
    {
      hide Value, Power, Significant;
      ghost var a, b := A.p[..], B.p[..];
      var n := B.SignificantLimbs();
      if n > A.p.Length {
        TooShort(a, b);
        return false;
      }
      PaddedValue(b, n);
      Grow(A.p.Length);
      HighLimbs(A, n);
      ghost var full := Padded(a, p.Length);
      PaddedValue(full, |a|);
      assert B.p[..n] == b[..n] && A.p[..n] == full[..n];
      var carry := SubLimbs(A, B, n, full);
      ghost var diff: int := Value(a) - Value(b);
      if carry != 0 {
        carry := SubInt(p, n, carry, diff);
        ValueBound(p[..]);
        if carry != 0 {
          return false;
        }
      }
      s := 1;
      ok := true;
    }

    /** The limbs of `B` are taken from those of `A`; above them `this` already holds those of `full`. */
    method SubLimbs(A: Mpi, B: Mpi, n: nat, ghost full: seq<limb>) returns (carry: bit)
      requires Apart(A) && Apart(B) && n <= A.p.Length && n <= B.p.Length && n <= p.Length == |full|
      requires A.p[..n] == full[..n] && forall j :: n <= j < p.Length ==> p[j] == full[j]
      modifies p
      ensures Value(p[..]) - carry * Power(n) == Value(full) - old(Value(B.p[..n]))
    {
      hide Value, Power;
      Split(full, n);
      assert A.p[0..0 + n] == full[..n];
      carry := Sub(p, A.p, 0, B.p, n);
      Split(p[..], n);
      assert p[..][n..] == full[n..] && p[..][..n] == p[..n];
    }

    /** Makes the limbs of `this` from `n` on those of `A`, without touching the lower ones. */
    method HighLimbs(A: Mpi, n: nat)
      requires A.p.Length <= p.Length && n <= A.p.Length && Apart(A)
      modifies p
      ensures forall j :: 0 <= j < n ==> p[j] == old(p[j])
      ensures forall j :: n <= j < p.Length ==> p[j] == if j < A.p.Length then old(A.p[j]) else 0
    {
      if A.p.Length > n && A != this {
        for i := n to A.p.Length
          invariant forall j :: 0 <= j < n ==> p[j] == old(p[j])
          invariant forall j :: n <= j < i ==> p[j] == A.p[j]
        {
          p[i] := A.p[i];
        }
      }
      if p.Length > A.p.Length {
        ghost var x := p[..A.p.Length];
        Clear(p, A.p.Length);
        assert forall j :: 0 <= j < A.p.Length ==> p[j] == x[j];
      }
    }

    /** `add_sub_mpi`: `A + flip * B`; `this` may be `A` or `B`. */
    method AddSub(A: Mpi, B: Mpi, flip: int)
      requires Valid() && A.Valid() && B.Valid() && Apart(A) && Apart(B) && (flip == 1 || flip == -1)
      modifies this, p
      ensures Valid() && Int() == old(A.Int()) + (if flip == 1 then old(B.Int()) else 0 - old(B.Int()))
      ensures Int() >= 0 && (old(A.s) == 1 || old(A.Int()) < 0) ==> s == 1
      ensures p.Length >= old(p.Length) && (p == old(p) || fresh(p))
    {
      hide Value, Significant;
      var sign := A.s;
      if A.s * B.s * flip < 0 {
        var cmp := A.CompareAbs(B);
        if cmp >= 0 {
          var _ := SubAbs(A, B);
          s := if cmp == 0 then 1 else sign;
        } else {
          var _ := SubAbs(B, A);
          s := 0 - sign;
        }
      } else {
        AddAbs(A, B);
        s := sign;
      }
    }

    /** `mbedtls_mpi_mul_int`; `this` may be `A`. */
    method MulInt(A: Mpi, b: limb)
      requires Valid() && A.Valid() && Apart(A)
      modifies this, p
      ensures Valid() && Int() == old(A.Int()) * b && (old(A.s) == 1 ==> s == 1)
      ensures p.Length >= old(p.Length) && (p == old(p) || fresh(p))
    {
      hide Value, Power, Significant;
      var n := A.SignificantLimbs();
      NoLimbs(A.p[..]);
      if b == 0 || n == 0 {
        Set(0);
        return;
      }
      ghost var x := A.p[..];
      Grow(n + 1);
      if A == this {
        PaddedValue(p[..], |x|);
      }
      PaddedValue(x, n);
      assert A.p[..n] == x[..n];
      Assign(A);
      assert A.p[..n] == x[..n];
      MulLimbs(A, n, b);
    }

    /** `this`, which already equals `A`, plus `A` times `b - 1`. */
    method MulLimbs(A: Mpi, n: nat, b: limb)
      requires Valid() && Apart(A) && 0 < b && n < p.Length && n <= A.p.Length
      requires Abs() == Value(A.p[..n])
      modifies p
      ensures Abs() == old(Abs()) * b && Int() == old(Int()) * b
    {
      hide Value, Power;
      ghost var a := Abs();
      var m := p.Length;
      PowerMonotone(n + 1, m);
      PowerStep(n);
      ValueBound(A.p[..n]);
      assert p[0..0 + m] == p[..];
      var c := Mla(p, 0, m, A.p, n, b - 1);
      assert p[0..0 + m] == p[..];
      ProductFits(a, b, Power(n), Value(p[..]), c, Power(m));
    }
  }

  lemma ProductFits(a: nat, b: limb, p: nat, v: nat, c: nat, q: nat)
    requires 0 < b && a < p && BASE * p <= q && v + c * q == a + (b - 1) * a
    ensures v == a * b
  {
    Scale(b, BASE, a);
    assert a + (b - 1) * a == a * b;
    Cancel(c, 1, q);
  }

  lemma TooShort(a: seq<limb>, b: seq<limb>)
    requires Significant(b) > |a|
    ensures Value(b) > Value(a)
  {
    MoreLimbs(b, a);
  }

  /** `core_sub_int` on the limbs from `n` on, in place. */
  method SubInt(X: array<limb>, n: nat, borrow: bit, ghost diff: int) returns (c: bit)
    requires n <= X.Length && Value(X[..]) - borrow * Power(n) == diff
    modifies X
    ensures Value(X[..]) - c * Power(X.Length) == diff
  {
    hide Value, Power;
    c := borrow;
    for i := n to X.Length
      invariant Value(X[..]) - c * Power(i) == diff
    {
      ghost var x := X[..];
      var t: limb := Wrap(X[i] as int - c);
      var z := Below(X[i], t);
      X[i] := t;
      assert X[..] == x[i := t];
      BorrowFrom(x, i, c, t);
      c := z;
    }
  }

  lemma BorrowFrom(x: seq<limb>, j: nat, c: bit, t: limb)
    requires j < |x| && t == Wrap(x[j] as int - c)
    ensures Value(x[j := t]) - Below(x[j], t) * Power(j + 1) == Value(x) - c * Power(j)
  {
    hide Value;
    WriteLimb(x, j, t);
    var d := Below(x[j], t);
    assert t - x[j] as int == BASE * d - c;
    assert (BASE * d - c) * Power(j) == d * (BASE * Power(j)) - c * Power(j);
  }

  /** Writing one limb. */
  lemma WriteLimb(x: seq<limb>, j: nat, t: limb)
    requires j < |x|
    ensures Value(x[j := t]) == Value(x) + (t - x[j] as int) * Power(j)
  {
    hide Value, Power;
    var y := x[j := t];
    Split(x, j + 1);
    Split(y, j + 1);
    ValueGrow(x, j);
    ValueGrow(y, j);
    assert y[..j] == x[..j] && y[j + 1..] == x[j + 1..];
    assert (t - x[j] as int) * Power(j) == t * Power(j) - x[j] * Power(j);
  }

  lemma CarryInto(x: seq<limb>, j: nat, c: bit, t: limb)
    requires j < |x| && t == Wrap(x[j] as int + c)
    ensures Value(x[j := t]) + Below(t, c) * Power(j + 1) == Value(x) + c * Power(j)
  {
    hide Value;
    WriteLimb(x, j, t);
    var d := Below(t, c);
    assert t - x[j] as int == c - BASE * d;
    assert (c - BASE * d) * Power(j) == c * Power(j) - d * (BASE * Power(j));
  }

  function Order(x: int, y: int): int
  {
    if x < y then -1 else if x == y then 0 else 1
  }

  /** Limbs beyond the size of a number are zero. */
  lemma HighZeros(x: seq<limb>, k: nat)
    requires Value(x) < Power(k)
    ensures forall j :: k <= j < |x| ==> x[j] == 0
  {
    hide Value, Power;
    var i := Significant(x);
    if i > k {
      PaddedValue(x, i);
      ValueGrow(x, i - 1);
      PowerMonotone(k, i - 1);
      Scale(1, x[i - 1], Power(i - 1));
    }
  }

  lemma NoLimbs(p: seq<limb>)
    ensures Significant(p) == 0 <==> Value(p) == 0
  {
    ValueZero(p);
  }

  /** The number with more significant limbs is larger. */
  lemma MoreLimbs(x: seq<limb>, y: seq<limb>)
    requires Significant(x) > Significant(y)
    ensures Value(x) > Value(y)
  {
    hide Value, Power;
    var i, j := Significant(x), Significant(y);
    PaddedValue(x, i);
    PaddedValue(y, j);
    ValueGrow(x, i - 1);
    ValueBound(y[..j]);
    PowerMonotone(j, i - 1);
    Scale(1, x[i - 1], Power(i - 1));
  }

  lemma PowerMonotone(m: nat, n: nat)
    requires m <= n
    ensures Power(m) <= Power(n)
  {
    hide Power;
    PowerSum(m, n - m);
    Scale(1, Power(n - m), Power(m));
  }

  /** A number whose shifted bits fit the limbs is not truncated. */
  lemma RoomForShift(v: nat, count: nat, n: nat)
    requires Bits(v) + count <= n * LIMB_BITS
    ensures v * Pow2(count) % Power(n) == v * Pow2(count)
  {
    hide Pow2, Power, Bits;
    BitsBound(v, Bits(v));
    Pow2Sum(Bits(v), count);
    Pow2Monotone(Bits(v) + count, n * LIMB_BITS);
    PowerPow2(n);
    Scale(v + 1, Pow2(Bits(v)), Pow2(count));
    DivUnique(v * Pow2(count), Power(n), 0, v * Pow2(count));
  }
}
