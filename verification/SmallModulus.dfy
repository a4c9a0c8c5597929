/** `mbedtls_mpi_mod_int`, and exactly for which divisors it is right. */
module SmallModulus {
  import opened Arithmetic
  import opened Limbs
  import opened LimbOps
  import opened Divisibility
  import opened MultiPrecision

  const HALF_LIMB := 0x1_0000

  /** `y = (y << biH) | h`, reduced modulo `b`; the shift loses what does not fit a limb. */
  function HalfStep(y: limb, h: nat, b: nat): limb
    requires 0 < b && h < HALF_LIMB
  {
    HalfStepFits(y, h, b);
    (Wrap(y * HALF_LIMB) + h) % b
  }

  lemma HalfStepFits(y: limb, h: nat, b: nat)
    requires 0 < b && h < HALF_LIMB
    ensures 0 <= (Wrap(y * HALF_LIMB) + h) % b < BASE
  {
    WrapHalf(y);
  }

  lemma WrapHalf(y: limb)
    ensures Wrap(y * HALF_LIMB) == y % HALF_LIMB * HALF_LIMB
  {
    DivUnique(y * HALF_LIMB, BASE, y / HALF_LIMB, y % HALF_LIMB * HALF_LIMB);
  }

  /** The loop of `mbedtls_mpi_mod_int`, from the highest limb down. */
  function ModLimbs(p: seq<limb>, b: nat): limb
    requires 0 < b
  {
    if p == [] then 0
    else HalfStep(HalfStep(ModLimbs(p[1..], b), p[0] / HALF_LIMB, b), p[0] % HALF_LIMB, b)
  }

  /** The divisors for which no bit is lost that matters: small ones and powers of two. */
  predicate Exact(b: nat)
  {
    0 < b && (b <= HALF_LIMB || BASE % b == 0)
  }

  lemma HalfStepExact(y: limb, v: nat, h: nat, b: nat)
    requires b > 0 && Exact(b) && h < HALF_LIMB && y == v % b
    ensures HalfStep(y, h, b) == (v * HALF_LIMB + h) % b
  {
    var k := v / b;
    assert v == b * k + y;
    Congruent(b, k * HALF_LIMB, y * HALF_LIMB + h);
    assert v * HALF_LIMB + h == b * (k * HALF_LIMB) + (y * HALF_LIMB + h);
    LossHarmless(y, h, b);
  }

  /** The bits that the shift loses do not change the remainder. */
  lemma LossHarmless(y: limb, h: nat, b: nat)
    requires b > 0 && Exact(b) && h < HALF_LIMB && y < b
    ensures (Wrap(y * HALF_LIMB) + h) % b == (y * HALF_LIMB + h) % b
  {
    if b > HALF_LIMB {
      var c, j := BASE / b, y * HALF_LIMB / BASE;
      assert BASE == b * c;
      LossMultiple(b, c, j);
      Congruent(b, c * j, Wrap(y * HALF_LIMB) + h);
    }
  }

  lemma LossMultiple(b: int, c: int, j: int)
    requires BASE == b * c
    ensures BASE * j == b * (c * j)
  {
  }

  lemma Congruent(b: int, k: int, w: int)
    requires b > 0
    ensures (b * k + w) % b == w % b
  {
    assert w == b * (w / b) + w % b && b * (k + w / b) == b * k + b * (w / b);
    DivUnique(b * k + w, b, k + w / b, w % b);
  }

  /** For these divisors the loop computes the remainder. */
  lemma {:induction false} ModLimbsExact(p: seq<limb>, b: nat)
    requires b > 0 && Exact(b)
    ensures ModLimbs(p, b) == Value(p) % b
  {
    hide Value, HalfStep, Exact;
    ValueEmpty();
    if p != [] {
      var v, x := Value(p[1..]), p[0];
      ModLimbsExact(p[1..], b);
      HalfStepExact(ModLimbs(p[1..], b), v, x / HALF_LIMB, b);
      HalfStepExact((v * HALF_LIMB + x / HALF_LIMB) % b, v * HALF_LIMB + x / HALF_LIMB, x % HALF_LIMB, b);
      ValueLow(p);
    } else {
      DivUnique(0, b, 0, 0);
    }
  }

  /** A divisor of a power of two is a power of two. */
  lemma {:induction false} PowerOfTwoDivisor(d: nat, k: nat) returns (j: nat)
    requires d > 0 && Divides(d, Pow2(k))
    ensures j <= k && d == Pow2(j)
  {
    if d % 2 == 1 {
      j := 0;
      OddPowerDivisor(d, k);
    } else if k == 0 {
      DividesOne(d);
      j := 0;
    } else {
      HalveBoth(d / 2, Pow2(k - 1));
      j := PowerOfTwoDivisor(d / 2, k - 1);
      j := j + 1;
    }
  }

  lemma HalveBoth(e: nat, p: nat)
    requires Divides(2 * e, 2 * p)
    ensures Divides(e, p)
  {
    Quotient(2 * e, 2 * p);
    var c := 2 * p / (2 * e);
    assert 2 * e * c == 2 * (e * c);
    Factor(e, p, c);
  }

  lemma {:induction false} OddPowerDivisor(d: nat, k: nat)
    requires d % 2 == 1 && Divides(d, Pow2(k))
    ensures d == 1
  {
    if k == 0 {
      DividesOne(d);
    } else {
      HalfDivides(d, Pow2(k - 1));
      OddPowerDivisor(d, k - 1);
    }
  }

  /** A limb that divides 2 to the 48th divides the base. */
  lemma HugePower(b: nat)
    requires 0 < b < BASE && Divides(b, Pow2(48))
    ensures BASE % b == 0
  {
    hide Pow2;
    var j := PowerOfTwoDivisor(b, 48);
    Pow2Limb();
    if j > LIMB_BITS {
      Pow2Monotone(LIMB_BITS, j);
    }
    Pow2Sum(j, LIMB_BITS - j);
    Factor(b, BASE, Pow2(LIMB_BITS - j));
  }

  lemma Pow2FortyEight()
    ensures Pow2(48) == HALF_LIMB * BASE
  {
    hide Pow2;
    assert Pow2(16) == HALF_LIMB by { Pow2Sixteen(); }
    Pow2Limb();
    Pow2Sum(16, 32);
  }

  lemma Pow2Sixteen()
    ensures Pow2(16) == HALF_LIMB
  {
    assert Pow2(8) == 0x100;
    Pow2Sum(8, 8);
  }

  /** For every other divisor there is a number that comes out wrong: 2 to the 48th. */
  lemma ModLimbsWrong(b: nat)
    requires HALF_LIMB < b < BASE && BASE % b != 0
    ensures ModLimbs([0, HALF_LIMB], b) == 0 && Value([0, HALF_LIMB]) % b != 0
  {
    hide Value, ModLimbs;
    WrongResult(b);
    TwoLimbValue(0, HALF_LIMB);
    if Value([0, HALF_LIMB]) % b == 0 {
      Pow2FortyEight();
      HugePower(b);
    }
  }

  lemma WrongResult(b: nat)
    requires HALF_LIMB < b
    ensures ModLimbs([0, HALF_LIMB], b) == 0
  {
    hide HalfStep, ModLimbs;
    WrongSteps(b);
    NoLimbsModulus([], b);
    NextModulus([HALF_LIMB], 0, b);
    NextModulus([0, HALF_LIMB], 0, b);
    assert [HALF_LIMB][1..] == [] && [HALF_LIMB][0..] == [HALF_LIMB];
    assert [0, HALF_LIMB][1..] == [HALF_LIMB] && [0, HALF_LIMB][0..] == [0, HALF_LIMB];
  }

  lemma TwoLimbValue(x: limb, y: limb)
    ensures Value([x, y]) == x + BASE * y
  {
    hide Value;
    ValueLow([x, y]);
    ValueLow([y]);
    assert [x, y][1..] == [y] && [y][1..] == [];
    ValueEmpty();
  }

  lemma WrongSteps(b: nat)
    requires HALF_LIMB < b
    ensures HalfStep(0, 1, b) == 1 && HalfStep(1, 0, b) == HALF_LIMB && HalfStep(HALF_LIMB, 0, b) == 0
              && HalfStep(0, 0, b) == 0
  {
    DivUnique(1, b, 0, 1);
    DivUnique(HALF_LIMB, b, 0, HALF_LIMB);
    DivUnique(0, b, 0, 0);
  }

  /** The loop is right for every number if and only if the divisor is small or a power of two. */
  lemma ExactDivisors(b: nat)
    requires 0 < b < BASE
    ensures (forall p: seq<limb> :: ModLimbs(p, b) == Value(p) % b) <==> Exact(b)
  {
    hide ModLimbs, Value;
    if Exact(b) {
      forall p: seq<limb> ensures ModLimbs(p, b) == Value(p) % b {
        ModLimbsExact(p, b);
      }
    } else {
      ModLimbsWrong(b);
    }
  }

  /** The end of `mbedtls_mpi_mod_int`: a negative remainder is flipped to the positive side. */
  function Flipped(s: int, y: limb, b: nat): limb
  {
    if s < 0 && y != 0 then Wrap(b - y) else y
  }

  lemma FlippedExact(s: int, v: nat, b: nat, y: limb)
    requires 0 < b < BASE && y == v % b
    ensures Flipped(s, y, b) == Signed(s, v) % b
  {
    var k := v / b;
    assert v == b * k + y && b * (0 - k - 1) == 0 - b * k - b && b * (0 - k) == 0 - b * k;
    if s < 0 && y != 0 {
      DivUnique(0 - v, b, 0 - k - 1, b - y);
    } else if s < 0 {
      DivUnique(0 - v, b, 0 - k, 0);
    }
  }

  lemma NextModulus(p: seq<limb>, i: nat, b: nat)
    requires i < |p| && 0 < b
    ensures ModLimbs(p[i..], b) == HalfStep(HalfStep(ModLimbs(p[i + 1..], b), p[i] / HALF_LIMB, b), p[i] % HALF_LIMB, b)
  {
    assert p[i..][1..] == p[i + 1..];
  }

  /**
   * `mbedtls_mpi_mod_int`, where the machine's integers allow divisors below 2 to the 31st. With the exact
   * divisors, the result is the remainder.
   */
  method ModInt(A: Mpi, b: int) returns (ok: bool, r: limb)
    requires A.Valid() && -0x8000_0000 <= b < 0x8000_0000
    ensures ok <==> b > 0
    ensures ok ==> r == Flipped(A.s, ModLimbs(A.p[..], b), b)
    ensures ok && Exact(b) ==> r == A.Int() % b
  {
    hide Value, ModLimbs, HalfStep;
    if b == 0 {
      return false, 0;
    }
    if b < 0 {
      return false, 0;
    }
    if Exact(b) {
      ModLimbsExact(A.p[..], b);
      FlippedExact(A.s, A.Abs(), b, ModLimbs(A.p[..], b));
    }
    if b == 1 || A.p.Length == 0 {
      NoLimbsModulus(A.p[..], b);
      return true, 0;
    }
    if b == 2 {
      Parity(A.p[..]);
      return true, A.p[0] % 2;
    }
    var y := 0;
    var i := A.p.Length;
    NoLimbsModulus(A.p[i..], b);
    while i > 0
      invariant 0 <= i <= A.p.Length && y == ModLimbs(A.p[i..], b)
    {
      i := i - 1;
      var x := A.p[i];
      y := HalfStep(y, x / HALF_LIMB, b);
      y := HalfStep(y, x % HALF_LIMB, b);
      assert A.p[..][i..] == A.p[i..] && A.p[..][i + 1..] == A.p[i + 1..];
      NextModulus(A.p[..], i, b);
    }
    assert A.p[0..] == A.p[..];
    if A.s < 0 && y != 0 {
      y := Wrap(b - y);
    }
    return true, y;
  }

  lemma NoLimbsModulus(p: seq<limb>, b: nat)
    requires b > 0 && (b == 1 || p == [])
    ensures ModLimbs(p, b) == 0
  {
    if p != [] {
      ModLimbsExact(p, b);
    }
  }
}
