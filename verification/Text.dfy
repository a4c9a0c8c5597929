/** Decimal numbers in request paths: `parse_uint` (ota_update.c) and the client's formatting. */
module Text {
  import opened Bytes
  import opened BootFormat

  predicate IsDigit(c: char)
  {
    '0' <= c <= '9'
  }

  predicate AllDigits(s: string)
  {
    forall c :: c in s ==> IsDigit(c)
  }

  function DigitValue(c: char): nat
    requires IsDigit(c)
  {
    c as int - '0' as int
  }

  /** The number a string of decimal digits denotes. */
  function DecimalValue(s: string): nat
    requires AllDigits(s)
  {
    if s == [] then 0 else 10 * DecimalValue(s[..|s| - 1]) + DigitValue(s[|s| - 1])
  }

  lemma {:induction false} PrefixValue(s: string, i: nat)
    requires i <= |s| && AllDigits(s)
    ensures DecimalValue(s[..i]) <= DecimalValue(s)
  {
    if i < |s| {
      PrefixValue(s[..|s| - 1], i);
      assert s[..|s| - 1][..i] == s[..i];
    } else {
      assert s[..i] == s;
    }
  }

  /** `parse_uint` accepts exactly the nonempty digit strings whose value fits 32 bits. */
  method ParseUint(s: string) returns (r: Option<u32>)
    ensures r.Some? <==> s != [] && AllDigits(s) && DecimalValue(s) < TWO32
    ensures r.Some? ==> r.value == DecimalValue(s)
  {
    if s == [] {
      return None;
    }
    var n: u32 := 0;
    for i := 0 to |s|
      invariant AllDigits(s[..i])
      invariant n == DecimalValue(s[..i])
    {
      assert s[..i + 1][..i] == s[..i];
      if !IsDigit(s[i]) || n > (TWO32 - 1 - DigitValue(s[i])) / 10 {
        if AllDigits(s) {
          PrefixValue(s, i + 1);
        }
        return None;
      }
      n := n * 10 + DigitValue(s[i]);
    }
    assert s[..|s|] == s;
    return Some(n);
  }

  /** The client's decimal rendering of a number. */
  function Decimal(n: nat): (s: string)
    ensures s != [] && AllDigits(s)
  {
    if n < 10 then [('0' as int + n) as char] else Decimal(n / 10) + [('0' as int + n % 10) as char]
  }

  lemma {:induction false} DecimalRoundTrip(n: nat)
    ensures DecimalValue(Decimal(n)) == n
  {
    if n >= 10 {
      DecimalRoundTrip(n / 10);
      assert Decimal(n)[..|Decimal(n)| - 1] == Decimal(n / 10);
    }
  }
}
