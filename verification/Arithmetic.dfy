/** The larger and the smaller of two numbers, products and quotients, and time on the 32-bit millisecond clock. */
module Arithmetic {
  import opened Bytes

  function Max(x: int, y: int): int
  {
    if x < y then y else x
  }

  function Min(x: int, y: int): int
  {
    if x > y then y else x
  }

  /** The time since `since`. */
  function Elapsed(now: u32, since: u32): u32
  {
    (now as int - since) % TWO32
  }

  /** `(int32_t)(now - at) >= 0` */
  predicate Due(now: u32, at: u32)
  {
    Elapsed(now, at) < 0x8000_0000
  }

  lemma Scale(x: int, y: int, p: nat)
    requires x <= y
    ensures x * p <= y * p
    ensures (x - 1) * p == x * p - p
  {
  }

  lemma Cancel(x: int, y: int, p: int)
    requires p > 0 && x * p < y * p
    ensures x < y
  {
    assert (x - y) * p == x * p - y * p;
    NegativeFactor(x - y, p);
  }

  lemma NegativeFactor(k: int, p: int)
    requires p > 0 && k * p < 0
    ensures k < 0
  {
  }

  lemma DivUnique(v: int, p: int, w: int, r: int)
    requires v == p * w + r && 0 <= r < p
    ensures v / p == w && v % p == r
  {
    var k := v / p;
    assert v == p * k + v % p;
    assert (k - w - 1) * p == p * k - p * w - p && (w - k - 1) * p == p * w - p * k - p;
    NegativeFactor(k - w - 1, p);
    NegativeFactor(w - k - 1, p);
  }
}
