/** Windowed exponentiation in Montgomery form (bignum_core.c). */
module ExpMod {
  import opened Arithmetic
  import opened Limbs
  import opened LimbOps
  import opened Divisibility
  import opened Montgomery

  function Pow(a: int, e: nat): int
  {
    if e == 0 then 1 else a * Pow(a, e - 1)
  }

  lemma {:induction false} PowSum(a: int, m: nat, n: nat)
    ensures Pow(a, m + n) == Pow(a, m) * Pow(a, n)
  {
    if m > 0 {
      PowSum(a, m - 1, n);
      assert Pow(a, m + n) == a * Pow(a, (m - 1) + n);
      assert a * (Pow(a, m - 1) * Pow(a, n)) == (a * Pow(a, m - 1)) * Pow(a, n);
    }
  }

  // ---------------------------------------------------------------- Montgomery form

  /** `x` is the Montgomery form of `a` modulo `m`, for the radix `r`. */
  predicate Mont(x: int, a: int, m: int, r: int)
  {
    0 <= x < m && Divides(m, x - a * r)
  }

  /** A power of two can be cancelled modulo an odd number. */
  lemma {:induction false} CancelPow2(m: int, k: nat, w: int)
    requires m % 2 == 1 && Divides(m, Pow2(k) * w)
    ensures Divides(m, w)
  {
    hide Divides;
    if k > 0 {
      assert Pow2(k) * w == 2 * (Pow2(k - 1) * w);
      HalfDivides(m, Pow2(k - 1) * w);
      CancelPow2(m, k - 1, w);
    }
  }

  lemma MontExpandProduct(x: int, y: int, z: int, a: int, b: int, r: int)
    ensures r * (z - (a * b) * r) == ((z * r - x * y) + x * (y - b * r)) + (b * r) * (x - a * r)
  {
    assert x * (y - b * r) == x * y - x * (b * r);
    assert (b * r) * (x - a * r) == (b * r) * x - (b * r) * (a * r);
    assert (b * r) * (a * r) == r * ((a * b) * r);
  }

  /** A Montgomery product is the Montgomery form of the product. */
  lemma MontProduct(x: int, y: int, z: int, a: int, b: int, m: int, n: nat)
    requires m % 2 == 1 && Mont(x, a, m, Power(n)) && Mont(y, b, m, Power(n))
    requires 0 <= z < m && Divides(m, z * Power(n) - x * y)
    ensures Mont(z, a * b, m, Power(n))
  {
    hide Divides, Power;
    var r := Power(n);
    Combination(m, z * r - x * y, y - b * r, x);
    Combination(m, (z * r - x * y) + x * (y - b * r), x - a * r, b * r);
    MontExpandProduct(x, y, z, a, b, r);
    PowerPow2(n);
    CancelPow2(m, LIMB_BITS * n, z - (a * b) * r);
  }

  /** What RR holds: the square of the radix modulo `m`. */
  predicate SquaredRadix(rr: int, m: int, r: int)
  {
    0 <= rr < m && Divides(m, rr - r * r)
  }

  /** The Montgomery form of 1 is the product of 1 and RR. */
  lemma MontOne(z: int, rr: int, m: int, n: nat)
    requires m % 2 == 1 && SquaredRadix(rr, m, Power(n)) && 0 <= z < m && Divides(m, z * Power(n) - 1 * rr)
    ensures Mont(z, 1, m, Power(n))
  {
    hide Divides, Power;
    var r := Power(n);
    Combination(m, z * r - rr, rr - r * r, 1);
    assert z * r - r * r == r * (z - 1 * r);
    PowerPow2(n);
    CancelPow2(m, LIMB_BITS * n, z - 1 * r);
  }

  // ---------------------------------------------------------------- bits of the exponent

  lemma {:induction false} BitsScaled(top: nat, low: nat, k: nat)
    requires top > 0 && low < Pow2(k)
    ensures Bits(top * Pow2(k) + low) == k + Bits(top)
  {
    if k > 0 {
      var t := top * Pow2(k - 1);
      Scale(1, top, Pow2(k - 1));
      BitsScaled(top, low / 2, k - 1);
      BitsDouble(t, low);
      Doubling(top, Pow2(k - 1));
    }
  }

  lemma Doubling(x: int, y: int)
    ensures x * (2 * y) == 2 * (x * y)
  {
  }

  lemma BitsDouble(t: nat, low: nat)
    requires t > 0
    ensures Bits(2 * t + low) == 1 + Bits(t + low / 2)
  {
    assert (2 * t + low) / 2 == t + low / 2;
  }

  /** The bit of weight `p` of a number below `2 * p`. */
  lemma HighBit(a: nat, p: nat)
    requires 0 < p && a < 2 * p
    ensures a / p % 2 == 1 <==> a >= p
  {
    DivUnique(a, p, if a >= p then 1 else 0, if a >= p then a - p else a);
  }

  /** `core_clz`, without the compiler's builtin: the number of leading zero bits. */
  method CountLeadingZeros(a: limb) returns (j: nat)
    ensures j <= LIMB_BITS && Bits(a) == LIMB_BITS - j
  {
    hide Bits, Pow2;
    Pow2Limb();
    j := 0;
    while j < LIMB_BITS
      invariant j <= LIMB_BITS && a < Pow2(LIMB_BITS - j)
    {
      ghost var k := LIMB_BITS - 1 - j;
      Pow2Step(k);
      HighBit(a, Pow2(k));
      if a / Pow2(LIMB_BITS - 1 - j) % 2 == 1 {
        BitsBound(a, k);
        BitsBound(a, k + 1);
        return;
      }
      j := j + 1;
    }
    BitsBound(a, 0);
  }

  lemma Pow2Step(k: nat)
    ensures Pow2(k + 1) == 2 * Pow2(k)
  {
  }

  /** `core_bitlen` */
  method BitLen(A: array<limb>) returns (bits: nat)
    ensures bits == Bits(Value(A[..]))
  {
    hide Value, Power, Pow2, Bits;
    var i := A.Length;
    while i > 0
      invariant 0 <= i <= A.Length && forall j :: i <= j < A.Length ==> A[j] == 0
    {
      i := i - 1;
      if A[i] != 0 {
        var j := CountLeadingZeros(A[i]);
        PaddedValue(A[..], i + 1);
        assert A[..][..i + 1] == A[..i + 1] && A[..][..i] == A[..i];
        ValueGrow(A[..], i);
        ValueBound(A[..i]);
        PowerPow2(i);
        BitsScaled(A[i], Value(A[..i]), LIMB_BITS * i);
        return i * LIMB_BITS + (LIMB_BITS - j);
      }
    }
    ValueZero(A[..]);
    BitsBound(0, 0);
    Pow2Step(0);
    return 0;
  }

  /** The exponent without its lowest `pos` bits. */
  function Prefix(e: seq<limb>, pos: nat): int
  {
    Value(e) / Pow2(pos)
  }

  /** `(E[l] >> b) & 1` */
  function BitAt(x: limb, b: nat): (bit: bit)
  {
    x / Pow2(b) % 2
  }

  lemma QuotientAbove(x: nat, hi: nat, p: nat, q: nat)
    requires p > 0 && p * q == BASE
    ensures (x + BASE * hi) / p == x / p + q * hi
  {
    var h, r := x / p, x % p;
    assert x == p * h + r;
    assert p * (q * hi) == (p * q) * hi;
    assert p * (h + q * hi) == p * h + p * (q * hi);
    DivUnique(x + BASE * hi, p, h + q * hi, r);
  }

  /** A quotient by a power of two of a limb and what lies above it has the parity of the limb's. */
  lemma ParityBelow(x: limb, hi: nat, b: nat)
    requires b < LIMB_BITS
    ensures (x + BASE * hi) / Pow2(b) % 2 == BitAt(x, b)
  {
    hide Pow2;
    Pow2Sum(b, LIMB_BITS - b);
    Pow2Limb();
    Pow2Step(LIMB_BITS - b - 1);
    QuotientAbove(x, hi, Pow2(b), Pow2(LIMB_BITS - b));
    EvenAddend(x / Pow2(b), Pow2(LIMB_BITS - b - 1), hi);
  }

  lemma EvenAddend(y: int, h: int, hi: int)
    ensures (y + 2 * h * hi) % 2 == y % 2
  {
    assert 2 * h * hi == 2 * (h * hi);
  }

  /** Reading one more bit of the exponent. */
  lemma NextBit(e: seq<limb>, l: nat, b: nat)
    requires l < |e| && b < LIMB_BITS
    ensures Prefix(e, LIMB_BITS * l + b) == 2 * Prefix(e, LIMB_BITS * l + b + 1) + BitAt(e[l], b)
  {
    hide Value, Pow2, BitAt;
    var pos := LIMB_BITS * l + b;
    PrefixParity(e, l, b);
    Pow2Step(pos);
    DivDiv(Value(e), Pow2(pos), 2);
    assert Pow2(pos) * 2 == Pow2(pos + 1);
  }

  lemma PrefixParity(e: seq<limb>, l: nat, b: nat)
    requires l < |e| && b < LIMB_BITS
    ensures Prefix(e, LIMB_BITS * l + b) % 2 == BitAt(e[l], b)
  {
    hide Value, Pow2, Power, BitAt;
    assert e == e[..l] + e[l..];
    ValueConcat(e[..l], e[l..]);
    ValueBound(e[..l]);
    ValueLow(e[l..]);
    DivUnique(Value(e), Power(l), Value(e[l..]), Value(e[..l]));
    PowerPow2(l);
    Pow2Sum(LIMB_BITS * l, b);
    DivDiv(Value(e), Power(l), Pow2(b));
    ParityBelow(e[l], Value(e[l..][1..]), b);
  }

  /** Nothing lies above the significant bits. */
  lemma NoPrefix(e: seq<limb>, pos: nat)
    requires Bits(Value(e)) <= pos
    ensures Prefix(e, pos) == 0
  {
    hide Value;
    BitsBound(Value(e), pos);
    DivUnique(Value(e), Pow2(pos), 0, Value(e));
  }

  /** `exp_mod_calc_first_bit_optionally_safe`: bits from the returned position down are still to be read. */
  method FirstBit(E: array<limb>, isPublic: bool) returns (limbIndex: nat, bitIndex: nat)
    requires E.Length > 0
    ensures bitIndex < LIMB_BITS && 0 < LIMB_BITS * limbIndex + bitIndex <= LIMB_BITS * E.Length
    ensures Prefix(E[..], LIMB_BITS * limbIndex + bitIndex) == 0
  {
    hide Prefix, Value, Bits, Power, Pow2;
    ValueBound(E[..]);
    PowerPow2(E.Length);
    BitsBound(Value(E[..]), LIMB_BITS * E.Length);
    if isPublic {
      var bits := BitLen(E);
      NoPrefix(E[..], if bits == 0 then 1 else bits);
      if bits == 0 {
        bits := 1;
      }
      limbIndex, bitIndex := bits / LIMB_BITS, bits % LIMB_BITS;
    } else {
      NoPrefix(E[..], LIMB_BITS * E.Length);
      limbIndex, bitIndex := E.Length, 0;
    }
  }

  // ---------------------------------------------------------------- the window

  /** `exp_mod_get_window_size`; `W` is MBEDTLS_MPI_WINDOW_SIZE. */
  function WindowSize(W: nat, eBits: nat): (w: nat)
    ensures 1 <= w && (W >= 1 ==> w <= W)
  {
    if W >= 6 then (if eBits > 671 then 6 else if eBits > 239 then 5 else if eBits > 79 then 4 else 1)
    else if W == 5 then (if eBits > 239 then 5 else if eBits > 79 then 4 else 1)
    else if W > 1 then (if eBits > 79 then W else 1)
    else 1
  }

  /** `exp_mod_working_limbs` */
  function WorkingLimbs(W: nat, n: nat, eLimbs: nat): nat
  {
    Pow2(WindowSize(W, eLimbs * LIMB_BITS)) * n + n + (2 * n + 1)
  }

  /** The table, the selected entry and the product scratch fit, wherever the exponent starts. */
  lemma RegionsFit(W: nat, n: nat, eLimbs: nat, limbIndex: nat)
    requires limbIndex <= eLimbs
    ensures Pow2(WindowSize(W, limbIndex * LIMB_BITS)) * n + n + (2 * n + 1) <= WorkingLimbs(W, n, eLimbs)
  {
    var w, w' := WindowSize(W, limbIndex * LIMB_BITS), WindowSize(W, eLimbs * LIMB_BITS);
    assert w <= w';
    Pow2Monotone(w, w');
    Scale(Pow2(w), Pow2(w'), n);
  }

  /** The entries are separate arrays, none of them among `others`. */
  ghost predicate Separate(table: seq<array<limb>>, n: nat, others: set<array<limb>>)
  {
    && (forall i :: 0 <= i < |table| ==> table[i].Length == n && table[i] !in others)
    && (forall i, j :: 0 <= i < j < |table| ==> table[i] != table[j])
  }

  /** Entry `i` is the Montgomery form of the `i`th power. */
  ghost predicate Powers(table: seq<array<limb>>, k: nat, a: int, m: int, r: int)
    requires k <= |table|
    reads table
  {
    forall i :: 0 <= i < k ==> Mont(Value(table[i][..]), Pow(a, i), m, r)
  }

  /** `exp_mod_precompute_window` */
  method PrecomputeWindow(A: array<limb>, N: array<limb>, mm: limb, RR: array<limb>, table: seq<array<limb>>,
                          temp: array<limb>, ghost a: int)
    requires |table| >= 2 && Separate(table, N.Length, {A, N, RR, temp}) && temp != A && temp != N && temp != RR
    requires A.Length == RR.Length == N.Length > 0 && temp.Length == 2 * N.Length + 1
    requires Value(N[..]) % 2 == 1 && Divides(BASE, mm * N[0] + 1)
    requires Mont(Value(A[..]), a, Value(N[..]), Power(N.Length))
    requires SquaredRadix(Value(RR[..]), Value(N[..]), Power(N.Length))
    modifies table, temp
    ensures Powers(table, |table|, a, Value(N[..]), Power(N.Length))
  {
    hide Value, Power, Mont, Divides, SquaredRadix, Pow;
    ghost var m, r := Value(N[..]), Power(N.Length);
    SetOne(table[0]);
    assert Value(RR[..]) < m by { ReducedRadix(Value(RR[..]), m, r); }
    MontMul(table[0], table[0], RR, N, mm, temp);
    MontOne(Value(table[0][..]), Value(RR[..]), m, N.Length);
    Copy(table[1], A);
    PowersStart(a);
    ReducedForm(Value(A[..]), a, m, r);
    for i := 2 to |table|
      invariant table[1][..] == A[..] && Powers(table, i, a, m, r)
    {
      MontMul(table[i], table[i - 1], table[1], N, mm, temp);
      MontProduct(Value(table[i - 1][..]), Value(table[1][..]), Value(table[i][..]), Pow(a, i - 1), a, m, N.Length);
      PowStep(a, i);
    }
  }

  /** `X := 1` */
  method SetOne(X: array<limb>)
    requires X.Length > 0
    modifies X
    ensures Value(X[..]) == 1
  {
    hide Value, Power;
    for i := 0 to X.Length
      invariant forall j :: 0 <= j < i ==> X[j] == 0
    {
      X[i] := 0;
    }
    X[0] := 1;
    PaddedValue(X[..], 1);
    ValueEmpty();
    ValueGrow(X[..], 0);
    assert X[..][..0] == [];
  }

  lemma ReducedRadix(rr: int, m: int, r: int)
    requires SquaredRadix(rr, m, r)
    ensures 0 <= rr < m
  {
  }

  lemma ReducedForm(x: int, a: int, m: int, r: int)
    requires Mont(x, a, m, r)
    ensures 0 <= x < m
  {
  }

  lemma PowersStart(a: int)
    ensures Pow(a, 0) == 1 && Pow(a, 1) == a
  {
  }

  lemma PowStep(a: int, i: nat)
    requires i > 0
    ensures Pow(a, i) == Pow(a, i - 1) * a
  {
  }

  /** `exp_mod_table_lookup_optionally_safe`: the secret way touches every entry. */
  method Lookup(select: array<limb>, table: seq<array<limb>>, window: nat, isPublic: bool)
    requires Separate(table, select.Length, {select}) && window < |table|
    modifies select
    ensures select[..] == table[window][..]
  {
    if isPublic {
      Copy(select, table[window]);
    } else {
      for i := 0 to |table|
        invariant window < i ==> select[..] == table[window][..]
      {
        CondAssign(select, table[i], i == window);
      }
    }
  }

  /**
   * The state of the loop: `x` is the Montgomery form of the power whose exponent, with the pending
   * `window` added, is the part of the exponent read so far.
   */
  predicate Progress(x: int, a: int, h: nat, window: int, read: int, m: int, r: int)
  {
    Mont(x, Pow(a, h), m, r) && h + window == read
  }

  lemma Squared(x: int, x': int, a: int, h: nat, window: int, read: int, m: int, n: nat, bit: int)
    requires m % 2 == 1 && Progress(x, a, h, window, read, m, Power(n))
    requires 0 <= x' < m && Divides(m, x' * Power(n) - x * x)
    ensures Progress(x', a, 2 * h, 2 * window + bit, 2 * read + bit, m, Power(n))
  {
    hide Mont, Power, Divides, Pow;
    MontProduct(x, x, x', Pow(a, h), Pow(a, h), m, n);
    PowSum(a, h, h);
  }

  lemma Multiplied(x: int, y: int, x': int, a: int, h: nat, window: nat, read: int, m: int, n: nat)
    requires m % 2 == 1 && Progress(x, a, h, window, read, m, Power(n)) && Mont(y, Pow(a, window), m, Power(n))
    requires 0 <= x' < m && Divides(m, x' * Power(n) - x * y)
    ensures Progress(x', a, h + window, 0, read, m, Power(n))
  {
    hide Mont, Power, Divides, Pow;
    MontProduct(x, y, x', Pow(a, h), Pow(a, window), m, n);
    PowSum(a, h, window);
  }

  /** What the loop needs of its operands. */
  ghost predicate Ready(X: array<limb>, N: array<limb>, mm: limb, table: seq<array<limb>>, select: array<limb>,
                        temp: array<limb>)
    reads N
  {
    && X.Length == select.Length == N.Length > 0 && temp.Length == 2 * N.Length + 1
    && Separate(table, N.Length, {X, N, select, temp})
    && X != N && X != select && X != temp && N != select && N != temp && select != temp
    && Divides(BASE, mm * N[0] + 1)
  }

  /** One bit of the exponent: square, take the bit into the window, and multiply when it is full or last. */
  method ProcessBit(X: array<limb>, N: array<limb>, mm: limb, table: seq<array<limb>>, select: array<limb>,
                    temp: array<limb>, bit: bit, window: nat, last: bool, full: bool, isPublic: bool, ghost a: int,
                    ghost h: nat, ghost read: int)
    returns (window': nat, ghost h': nat)
    requires Ready(X, N, mm, table, select, temp) && Value(N[..]) % 2 == 1 && 2 * window + bit < |table|
    requires Powers(table, |table|, a, Value(N[..]), Power(N.Length))
    requires Progress(Value(X[..]), a, h, window, read, Value(N[..]), Power(N.Length))
    modifies X, select, temp
    ensures Progress(Value(X[..]), a, h', window', 2 * read + bit, Value(N[..]), Power(N.Length))
    ensures window' == if full || last then 0 else 2 * window + bit
    ensures Powers(table, |table|, a, Value(N[..]), Power(N.Length))
  {
    hide Value, Power, Mont, Divides, Pow;
    ghost var m, x := Value(N[..]), Value(X[..]);
    ReducedForm(x, Pow(a, h), m, Power(N.Length));
    MontMul(X, X, X, N, mm, temp);
    Squared(x, Value(X[..]), a, h, window, read, m, N.Length, bit);
    window', h' := 2 * window + bit, 2 * h;
    if full || last {
      Lookup(select, table, window', isPublic);
      x := Value(X[..]);
      ReducedForm(Value(select[..]), Pow(a, window'), m, Power(N.Length));
      MontMul(X, X, select, N, mm, temp);
      Multiplied(x, Value(select[..]), Value(X[..]), a, h', window', 2 * read + bit, m, N.Length);
      window', h' := 0, h' + window';
    }
  }

  /** The table region: `count` entries of `n` limbs. */
  method NewTable(count: nat, n: nat) returns (table: seq<array<limb>>)
    ensures |table| == count && Separate(table, n, {}) && fresh(table)
  {
    table := [];
    for i := 0 to count
      invariant |table| == i && Separate(table, n, {}) && fresh(table)
    {
      var entry := new limb[n];
      table := table + [entry];
    }
  }

  /** The loop of the exponentiation, over the bits below position `(l, b)`. */
  method ProcessBits(X: array<limb>, N: array<limb>, mm: limb, E: array<limb>, table: seq<array<limb>>,
                     select: array<limb>, temp: array<limb>, limbIndex: nat, bitIndex: nat, wsize: nat,
                     isPublic: bool, ghost a: int)
    requires Ready(X, N, mm, table, select, temp) && Value(N[..]) % 2 == 1 && 1 <= wsize && |table| == Pow2(wsize)
    requires E != X && E != select && E != temp
    requires bitIndex < LIMB_BITS && LIMB_BITS * limbIndex + bitIndex <= LIMB_BITS * E.Length
    requires Prefix(E[..], LIMB_BITS * limbIndex + bitIndex) == 0
    requires Powers(table, |table|, a, Value(N[..]), Power(N.Length))
    requires Mont(Value(X[..]), 1, Value(N[..]), Power(N.Length))
    modifies X, select, temp
    ensures Mont(Value(X[..]), Pow(a, Value(E[..])), Value(N[..]), Power(N.Length))
  {
    hide Value, Power, Mont, Divides, Pow, Prefix, Pow2, Progress, Powers;
    var l: nat, b: nat, window: nat, windowBits: nat := limbIndex, bitIndex, 0, 0;
    ghost var m, r, e := Value(N[..]), Power(N.Length), E[..];
    ghost var h: nat := 0;
    ProgressStart(Value(X[..]), a, m, r);
    Pow2Start();
    while !(b == 0 && l == 0)
      invariant b < LIMB_BITS && LIMB_BITS * l + b <= LIMB_BITS * E.Length
      invariant windowBits < wsize && window < Pow2(windowBits)
      invariant Progress(Value(X[..]), a, h, window, Prefix(e, LIMB_BITS * l + b), m, r)
      invariant Powers(table, |table|, a, m, r)
      invariant b == 0 && l == 0 ==> window == 0
      decreases LIMB_BITS * l + b
    {
      if b == 0 {
        l, b := l - 1, LIMB_BITS - 1;
      } else {
        b := b - 1;
      }
      windowBits := windowBits + 1;
      Pow2Step(windowBits - 1);
      Pow2Monotone(windowBits, wsize);
      NextBit(e, l, b);
      var full, last := windowBits == wsize, b == 0 && l == 0;
      window, h := ProcessBit(X, N, mm, table, select, temp, BitAt(E[l], b), window, last, full, isPublic, a, h,
                              Prefix(e, LIMB_BITS * l + b + 1));
      if full || last {
        windowBits := 0;
      }
    }
    ProgressEnd(Value(X[..]), a, h, window, e, m, r);
  }

  lemma Pow2Start()
    ensures Pow2(0) == 1
  {
  }

  lemma ProgressStart(x: int, a: int, m: int, r: int)
    requires Mont(x, 1, m, r)
    ensures Progress(x, a, 0, 0, 0, m, r)
  {
  }

  lemma ProgressEnd(x: int, a: int, h: nat, window: int, e: seq<limb>, m: int, r: int)
    requires Progress(x, a, h, window, Prefix(e, 0), m, r) && window == 0
    ensures Mont(x, Pow(a, Value(e)), m, r)
  {
  }

  /**
   * `exp_mod_optionally_safe`: from `A` in Montgomery form to the Montgomery form of its `E`th power, in
   * at most `WorkingLimbs` limbs of scratch. `X` may be `A`.
   */
  method ExpModCore(X: array<limb>, A: array<limb>, N: array<limb>, E: array<limb>, isPublic: bool, RR: array<limb>,
                    W: nat, ghost a: int)
    returns (ghost scratch: nat)
    requires X.Length == A.Length == RR.Length == N.Length > 0 && E.Length > 0 && X != N && X != E && X != RR
    requires Value(N[..]) % 2 == 1 && Mont(Value(A[..]), a, Value(N[..]), Power(N.Length))
    requires SquaredRadix(Value(RR[..]), Value(N[..]), Power(N.Length))
    modifies X
    ensures Mont(Value(X[..]), Pow(a, Value(E[..])), Value(N[..]), Power(N.Length))
    ensures scratch <= WorkingLimbs(W, N.Length, E.Length)
  {
    hide Value, Power, Mont, Divides, Pow, Prefix, Pow2, SquaredRadix, WindowSize;
    var n := N.Length;
    var limbIndex, bitIndex := FirstBit(E, isPublic);
    var wsize := WindowSize(W, limbIndex * LIMB_BITS);
    RegionsFit(W, n, E.Length, limbIndex);
    Pow2Monotone(1, wsize);
    Pow2Step(0);
    Pow2Start();
    var table := NewTable(Pow2(wsize), n);
    var select, temp := new limb[n], new limb[2 * n + 1];
    scratch := Pow2(wsize) * n + n + (2 * n + 1);
    Parity(N[..]);
    Pow2Limb();
    var mm := MontMulInit(N[0], LIMB_BITS);
    PrecomputeWindow(A, N, mm, RR, table, temp, a);
    Copy(X, table[0]);
    PowersStart(a);
    ProcessBits(X, N, mm, E, table, select, temp, limbIndex, bitIndex, wsize, isPublic, a);
  }

  /** A reduced number times RR is its Montgomery form. */
  lemma ToMont(x: int, rr: int, z: int, m: int, n: nat)
    requires m % 2 == 1 && SquaredRadix(rr, m, Power(n)) && 0 <= z < m && Divides(m, z * Power(n) - x * rr)
    ensures Mont(z, x, m, Power(n))
  {
    hide Divides, Power;
    var r := Power(n);
    Combination(m, z * r - x * rr, rr - r * r, x);
    assert x * (rr - r * r) == x * rr - r * (x * r);
    assert r * (z - x * r) == z * r - r * (x * r);
    PowerPow2(n);
    CancelPow2(m, LIMB_BITS * n, z - x * r);
  }

  /** A Montgomery form times 1 is the number itself, reduced. */
  lemma FromMont(x: int, a: int, z: int, m: int, n: nat)
    requires m % 2 == 1 && Mont(x, a, m, Power(n)) && 0 <= z < m && Divides(m, z * Power(n) - x * 1)
    ensures z == a % m
  {
    hide Divides, Power;
    var r := Power(n);
    Combination(m, z * r - x, x - a * r, 1);
    assert r * (z - a) == z * r - a * r;
    PowerPow2(n);
    CancelPow2(m, LIMB_BITS * n, z - a);
    Reduced(z, a, m);
  }

  /** A reduced number congruent to `a` is the remainder of `a`. */
  lemma Reduced(z: int, a: int, m: int)
    requires 0 <= z < m && Divides(m, z - a)
    ensures z == a % m
  {
    var k := (z - a) / m;
    assert z - a == m * k;
    DivUnique(a, m, 0 - k, z);
  }

  /** The conversions around the exponentiation in `mpi_exp_mod_optionally_safe`: `X := X ^ E mod N`. */
  method ExpModReduced(X: array<limb>, N: array<limb>, E: array<limb>, isPublic: bool, RR: array<limb>, W: nat)
    requires X.Length == RR.Length == N.Length > 0 && E.Length > 0 && X != N && X != E && X != RR
    requires Value(N[..]) % 2 == 1 && SquaredRadix(Value(RR[..]), Value(N[..]), Power(N.Length))
    modifies X
    ensures Value(X[..]) == Pow(old(Value(X[..])), Value(E[..])) % Value(N[..])
  {
    hide Value, Power, Mont, Divides, Pow, Pow2, SquaredRadix;
    var n := N.Length;
    ghost var m, r, x := Value(N[..]), Power(n), Value(X[..]);
    var temp := new limb[2 * n + 1];
    Parity(N[..]);
    Pow2Limb();
    var mm := MontMulInit(N[0], LIMB_BITS);
    ReducedRadix(Value(RR[..]), m, r);
    MontMul(X, X, RR, N, mm, temp);
    ToMont(x, Value(RR[..]), Value(X[..]), m, n);
    var _ := ExpModCore(X, X, N, E, isPublic, RR, W, x);
    ghost var y := Value(X[..]);
    ReducedForm(y, Pow(x, Value(E[..])), m, r);
    var one := new limb[1] [1];
    SetOne(one);
    MontMul(X, X, one, N, mm, temp);
    FromMont(y, Pow(x, Value(E[..])), Value(X[..]), m, n);
  }
}
