/** Printing and reading numbers as text (`mbedtls_mpi_write_string`, `mbedtls_mpi_read_string`). */
module NumberText {
  import opened Arithmetic
  import opened Limbs
  import opened LimbOps
  import opened ExpMod
  import opened MultiPrecision
  import opened Division
  import opened SmallModulus

  /** `mpi_get_digit`; 255 for what is no digit. */
  function DigitOf(c: char): nat
  {
    if '0' <= c <= '9' then c as int - '0' as int
    else if 'A' <= c <= 'F' then c as int - 'A' as int + 10
    else if 'a' <= c <= 'f' then c as int - 'a' as int + 10
    else 255
  }

  function DigitChar(d: nat): (c: char)
    requires d < 16
    ensures DigitOf(c) == d
  {
    if d < 10 then '0' + d as char else 'A' + (d - 10) as char
  }

  predicate Digits(s: string, radix: nat)
  {
    forall c :: c in s ==> DigitOf(c) < radix
  }

  /** The number that digits denote, most significant first. */
  function DigitsValue(s: string, radix: nat): nat
  {
    if s == [] then 0 else DigitsValue(s[..|s| - 1], radix) * radix + DigitOf(s[|s| - 1])
  }

  /** What a text denotes: an optional minus sign, then digits. */
  function Denoted(s: string, radix: nat): int
  {
    if s != [] && s[0] == '-' then 0 - DigitsValue(s[1..], radix) else DigitsValue(s, radix)
  }

  predicate Readable(s: string, radix: nat)
  {
    2 <= radix <= 16 && Digits(if s != [] && s[0] == '-' then s[1..] else s, radix)
  }

  lemma {:induction false} PrependDigit(c: char, s: string, radix: nat)
    ensures DigitsValue([c] + s, radix) == DigitOf(c) * Pow(radix, |s|) + DigitsValue(s, radix)
  {
    if s == [] {
      assert [c] + s == [c] && [c][..0] == [];
    } else {
      var t, d, x := s[..|s| - 1], DigitOf(c), DigitOf(s[|s| - 1]);
      PrependDigit(c, t, radix);
      assert ([c] + s)[..|s|] == [c] + t && ([c] + s)[|s|] == s[|s| - 1];
      Redistribute(d, Pow(radix, |t|), DigitsValue(t, radix), radix);
    }
  }

  lemma Redistribute(d: int, p: int, v: int, radix: int)
    ensures (d * p + v) * radix == d * (radix * p) + v * radix
  {
    assert (d * p) * radix == d * (radix * p);
  }

  lemma AppendDigit(s: string, c: char, radix: nat)
    ensures DigitsValue(s + [c], radix) == DigitsValue(s, radix) * radix + DigitOf(c)
  {
    assert (s + [c])[..|s|] == s;
  }

  lemma {:induction false} PowPositive(radix: nat, k: nat)
    requires radix > 0
    ensures Pow(radix, k) > 0
  {
    if k > 0 {
      PowPositive(radix, k - 1);
      Scale(1, radix, Pow(radix, k - 1));
    }
  }

  // ---------------------------------------------------------------- how many digits

  /** The length bound of `mbedtls_mpi_write_string`. */
  function Needed(bits: nat, radix: nat): (n: nat)
    ensures n >= 4
  {
    var n := if radix >= 16 then bits / 2 / 2 else if radix >= 4 then bits / 2 else bits;
    n + 3 + (n + 3) % 2
  }

  /** A number of `m + 1` digits has at least as many bits as `m` digits of two, or of four from radix 4 on. */
  lemma {:induction false} PowBits(radix: nat, m: nat, k: nat)
    requires 2 <= radix && (k == 1 || (k == 2 && 4 <= radix) || (k == 4 && 16 <= radix))
    ensures Pow2(k * m) <= Pow(radix, m)
  {
    if m > 0 {
      hide Pow, Pow2;
      PowBits(radix, m - 1, k);
      Pow2Sum(k * (m - 1), k);
      assert k * (m - 1) + k == k * m;
      SmallPow2();
      PowStep(radix, m);
      PowPositive(radix, m - 1);
      Scale(Pow2(k), radix, Pow2(k * (m - 1)));
      Scale(Pow2(k * (m - 1)), Pow(radix, m - 1), radix);
    } else {
      assert k * m == 0;
    }
  }

  lemma SmallPow2()
    ensures Pow2(1) == 2 && Pow2(2) == 4 && Pow2(4) == 16
  {
    assert Pow2(3) == 8;
  }

  /** Sign, digits and terminator fit. */
  lemma DigitsFit(v: nat, radix: nat, m: nat)
    requires 2 <= radix < 16 && (m == 0 || Pow(radix, m) <= v)
    ensures m + 3 <= Needed(Bits(v), radix)
  {
    hide Pow, Bits, Pow2;
    if m > 0 {
      var k := if radix >= 4 then 2 else 1;
      PowBits(radix, m, k);
      BitsBound(v, k * m);
      assert k * m < Bits(v);
    }
  }

  // ---------------------------------------------------------------- printing

  /** `mpi_write_hlp`: the digits of `X`, whose value is used up, least significant first, in front of each other. */
  method WriteDigits(X: Mpi, radix: nat, buflen: nat) returns (ok: bool, s: string)
    requires X.s == 1 && 2 <= radix < 16
    modifies X, X.p
    ensures Needed(Bits(old(X.Abs())), radix) <= buflen + 2 ==> ok
    ensures ok ==> s != [] && Digits(s, radix) && DigitsValue(s, radix) == old(X.Abs()) && s[0] != '-'
    ensures ok ==> |s| + 2 <= Needed(Bits(old(X.Abs())), radix)
  {
    hide Value, Bits, Needed, ModLimbs, Flipped, DigitsValue, MadeUpOf;
    ghost var v := X.Abs();
    s, ok := "", true;
    NothingSplit(v, radix);
    var c := 1;
    while c != 0
      invariant c == 0 ==> X.Abs() == 0 && s != []
      invariant X.s == 1 && (X.p == old(X.p) || fresh(X.p))
      invariant Digits(s, radix) && MadeUpOf(v, X.Abs(), s, radix)
      invariant (s != [] ==> s[0] != '-') && (c != 0 && s != [] ==> X.Abs() > 0)
      invariant s != [] ==> |s| + 2 <= Needed(Bits(v), radix)
      decreases if c != 0 then X.Abs() + 1 else 0
    {
      ghost var x := X.Abs();
      SplitFits(v, x, s, radix);
      if |s| >= buflen {
        return false, "";
      }
      var r := LastDigit(X, radix);
      SplitDigit(v, x, X.Abs(), r, s, radix);
      s := [DigitChar(r)] + s;
      c := X.CompareInt(0);
    }
    AllSplit(v, s, radix);
  }

  lemma NoDigits(v: nat, radix: nat)
    ensures v == v * Pow(radix, 0) + DigitsValue("", radix)
  {
  }

  /** `v` is the number that `x` and the digits behind it make up. */
  predicate MadeUpOf(v: nat, x: nat, s: string, radix: nat)
  {
    v == x * Pow(radix, |s|) + DigitsValue(s, radix)
  }

  lemma NothingSplit(v: nat, radix: nat)
    ensures MadeUpOf(v, v, "", radix)
  {
    NoDigits(v, radix);
  }

  lemma SplitFits(v: nat, x: nat, s: string, radix: nat)
    requires 2 <= radix < 16 && MadeUpOf(v, x, s, radix) && (s != [] ==> x > 0)
    ensures |s| + 3 <= Needed(Bits(v), radix)
  {
    hide Needed, Bits;
    EnoughDigits(v, radix, |s|, x, DigitsValue(s, radix));
  }

  /** One more digit is split off. */
  lemma SplitDigit(v: nat, x: nat, q: nat, r: nat, s: string, radix: nat)
    requires 2 <= radix < 16 && Digits(s, radix) && MadeUpOf(v, x, s, radix) && x == q * radix + r && r < radix
    ensures Digits([DigitChar(r)] + s, radix) && MadeUpOf(v, q, [DigitChar(r)] + s, radix) && DigitChar(r) != '-'
  {
    hide DigitsValue, Pow;
    PowPositive(radix, |s|);
    PrependDigit(DigitChar(r), s, radix);
    MoveDigit(x, q, r, radix, Pow(radix, |s|));
    PowStep(radix, |s| + 1);
  }

  lemma AllSplit(v: nat, s: string, radix: nat)
    requires MadeUpOf(v, 0, s, radix)
    ensures DigitsValue(s, radix) == v
  {
  }

  lemma MoveDigit(x: nat, q: nat, r: nat, radix: nat, p: nat)
    requires x == q * radix + r
    ensures x * p == q * (p * radix) + r * p
  {
    assert (q * radix + r) * p == (q * radix) * p + r * p && (q * radix) * p == q * (p * radix);
  }

  lemma EnoughDigits(v: nat, radix: nat, m: nat, x: nat, low: nat)
    requires 2 <= radix < 16 && v == x * Pow(radix, m) + low && (m > 0 ==> x > 0)
    ensures m + 3 <= Needed(Bits(v), radix)
  {
    hide Bits, Needed;
    if m > 0 {
      PowPositive(radix, m);
      Scale(1, x, Pow(radix, m));
    }
    DigitsFit(v, radix, m);
  }

  /** `mbedtls_mpi_mod_int` and then `mbedtls_mpi_div_int` in place. */
  method LastDigit(X: Mpi, radix: nat) returns (r: limb)
    requires X.s == 1 && 2 <= radix < 16
    modifies X, X.p
    ensures X.s == 1 && (X.p == old(X.p) || fresh(X.p))
    ensures r < radix && old(X.Abs()) == X.Abs() * radix + r
    ensures old(X.Abs()) > 0 ==> X.Abs() < old(X.Abs())
  {
    hide Value, ModLimbs, Flipped;
    ghost var x := X.Abs();
    var _, digit := ModInt(X, radix);
    r := digit;
    var B := new Mpi();
    B.Set(radix);
    ghost var _, q, rem := Divide(X, null, X, B);
    TruncatedDigit(x, radix, q, rem);
  }

  /** For a dividend that is not negative, truncation is the usual quotient and remainder. */
  lemma TruncatedDigit(x: nat, b: nat, q: int, r: int)
    requires b >= 2 && Truncated(x, b, q, r)
    ensures q >= 0 && r == x % b && x == q * b + r && (x > 0 ==> q < x)
  {
    DivUnique(x, b, q, r);
    Scale(2, b, q);
  }

  // ---------------------------------------------------------------- printing in hexadecimal

  /** `(x >> ((j - 1) << 3)) & 0xFF` */
  function ByteOf(x: limb, j: nat): (c: nat)
    requires 1 <= j <= 4
    ensures c < 0x100
  {
    (if j == 4 then x / 0x100_0000 else if j == 3 then x / 0x1_0000 else if j == 2 then x / 0x100 else x) % 0x100
  }

  /** The bytes of `x` above byte `j`. */
  function Above(x: limb, j: nat): nat
    requires j <= 4
  {
    if j == 4 then 0 else if j == 3 then x / 0x100_0000 else if j == 2 then x / 0x1_0000
    else if j == 1 then x / 0x100 else x
  }

  function Weight(j: nat): nat
    requires j <= 4
  {
    if j == 4 then 1 else if j == 3 then 0x100 else if j == 2 then 0x1_0000 else if j == 1 then 0x100_0000 else BASE
  }

  lemma NextByte(x: limb, j: nat, v: nat)
    requires 1 <= j <= 4
    ensures v * Weight(j - 1) + Above(x, j - 1) == (v * Weight(j) + Above(x, j)) * 0x100 + ByteOf(x, j)
  {
  }

  /** Digits so far: none while only zero bytes have been seen, then at most one leading zero. */
  predicate Compact(s: string, v: nat)
  {
    Digits(s, 16) && DigitsValue(s, 16) == v
        && (if s == "" then v == 0 else |s| >= 2 && |s| % 2 == 0 && Pow(16, |s| - 2) <= v)
  }

  /** The same at the end, where the last byte is written even if it is zero. */
  predicate CompactOrZero(s: string, v: nat)
  {
    Compact(s, v) || (s == "00" && v == 0)
  }

  /** One byte: skipped while it is a leading zero, but not the last. */
  method WriteByte(s: string, c: nat, last: bool) returns (s': string)
    requires c < 0x100 && Compact(s, DigitsValue(s, 16))
    ensures if last then CompactOrZero(s', DigitsValue(s, 16) * 0x100 + c) && s' != ""
              else Compact(s', DigitsValue(s, 16) * 0x100 + c)
  {
    hide DigitsValue;
    if c == 0 && s == "" && !last {
      return s;
    }
    var hi, lo := DigitChar(c / 16), DigitChar(c % 16);
    AppendDigit(s, hi, 16);
    AppendDigit(s + [hi], lo, 16);
    s' := s + [hi] + [lo];
    if s == "" {
      PowersStart(16);
      NoDigits(0, 16);
    } else {
      PowStep(16, |s| - 1);
      PowStep(16, |s|);
    }
  }

  /** The bytes of one limb, highest first. */
  method WriteLimb16(s: string, x: limb, last: bool) returns (s': string)
    requires Compact(s, DigitsValue(s, 16))
    ensures if last then CompactOrZero(s', DigitsValue(s, 16) * BASE + x) && s' != ""
              else Compact(s', DigitsValue(s, 16) * BASE + x)
  {
    hide DigitsValue, Compact, CompactOrZero, ByteOf;
    ghost var v := DigitsValue(s, 16);
    s' := s;
    var j := 4;
    while j > 0
      invariant 0 <= j <= 4
      invariant if j == 0 && last then CompactOrZero(s', v * Weight(j) + Above(x, j)) && s' != ""
                  else Compact(s', v * Weight(j) + Above(x, j))
    {
      NextByte(x, j, v);
      CompactValue(s', v * Weight(j) + Above(x, j));
      s' := WriteByte(s', ByteOf(x, j), last && j == 1);
      j := j - 1;
    }
  }

  lemma CompactValue(s: string, v: nat)
    requires Compact(s, v)
    ensures DigitsValue(s, 16) == v
  {
  }

  /** The hexadecimal branch of `mbedtls_mpi_write_string`: pairs of digits, byte by byte. */
  method WriteHex(X: Mpi) returns (s: string)
    ensures Digits(s, 16) && DigitsValue(s, 16) == X.Abs() && (s != "" ==> s[0] != '-')
    ensures |s| + 2 <= Needed(Bits(X.Abs()), 16)
    ensures CompactOrZero(s, X.Abs())
  {
    hide Value, DigitsValue, CompactOrZero, Compact, Bits, Needed;
    s := "";
    var i := X.p.Length;
    EmptyCompact();
    ValueEmpty();
    assert X.p[i..] == [];
    while i > 0
      invariant 0 <= i <= X.p.Length
      invariant if i == 0 && X.p.Length > 0 then CompactOrZero(s, Value(X.p[i..])) else Compact(s, Value(X.p[i..]))
    {
      CompactValue(s, Value(X.p[i..]));
      i := i - 1;
      ValueLow(X.p[i..]);
      assert X.p[i..][1..] == X.p[i + 1..];
      s := WriteLimb16(s, X.p[i], i == 0);
    }
    assert X.p[0..] == X.p[..];
    if X.p.Length == 0 {
      CompactFinished(s, X.Abs());
    }
    CompactFits(s, X.Abs());
  }

  lemma CompactFinished(s: string, v: nat)
    requires Compact(s, v)
    ensures CompactOrZero(s, v)
  {
  }

  lemma EmptyCompact()
    ensures Compact("", 0)
  {
  }

  lemma CompactFits(s: string, v: nat)
    requires CompactOrZero(s, v)
    ensures Digits(s, 16) && DigitsValue(s, 16) == v && (s != "" ==> s[0] != '-')
    ensures |s| + 2 <= Needed(Bits(v), 16)
  {
    hide Bits, Pow, DigitsValue, Digits;
    if s == "00" && v == 0 {
      ZeroByte();
    } else if s != "" {
      CompactBits(s, v);
    }
  }

  lemma ZeroByte()
    ensures Digits("00", 16) && DigitsValue("00", 16) == 0
  {
    AppendDigit("", '0', 16);
    AppendDigit("0", '0', 16);
    assert "00" == "" + ['0'] + ['0'];
  }

  lemma CompactBits(s: string, v: nat)
    requires Compact(s, v) && s != ""
    ensures s[0] != '-' && |s| + 2 <= Needed(Bits(v), 16)
  {
    hide Bits, Pow, DigitsValue;
    PowBits(16, |s| - 2, 4);
    BitsBound(v, 4 * (|s| - 2));
    assert s[0] in s;
  }

  // ---------------------------------------------------------------- the whole text

  datatype Written = BadRadix | TooSmall(needed: nat) | Text(s: string)

  /** `mbedtls_mpi_write_string`; the text does not include its terminator, for which there is room. */
  method WriteString(X: Mpi, radix: int, buflen: nat) returns (w: Written)
    requires X.Valid()
    ensures w.BadRadix? <==> !(2 <= radix <= 16)
    ensures w.TooSmall? <==> 2 <= radix <= 16 && buflen < Needed(Bits(X.Abs()), radix)
    ensures w.Text? ==> Readable(w.s, radix) && Denoted(w.s, radix) == X.Int() && |w.s| + 1 <= buflen
  {
    hide Value, Bits, Needed, DigitsValue;
    if radix < 2 || radix > 16 {
      return BadRadix;
    }
    var bits := BitLen(X.p);
    if buflen < Needed(bits, radix) {
      return TooSmall(Needed(bits, radix));
    }
    var sign := if X.s == -1 then "-" else "";
    var s;
    if radix == 16 {
      s := WriteHex(X);
    } else {
      var T := new Mpi();
      T.Assign(X);
      if T.s == -1 {
        T.s := 1;
      }
      var ok;
      ok, s := WriteDigits(T, radix, buflen - |sign|);
    }
    SignedText(sign, s, radix);
    return Text(sign + s);
  }

  lemma SignedText(sign: string, s: string, radix: nat)
    requires 2 <= radix <= 16 && Digits(s, radix) && (s != "" ==> s[0] != '-') && (sign == "" || sign == "-")
    ensures Readable(sign + s, radix) && Denoted(sign + s, radix) == if sign == "-" then 0 - DigitsValue(s, radix)
              else DigitsValue(s, radix)
  {
    hide DigitsValue;
    assert sign == "-" ==> (sign + s)[1..] == s;
    assert sign == "" ==> sign + s == s;
  }

  // ---------------------------------------------------------------- reading

  /** `mbedtls_mpi_read_string`; without `ok`, `X` holds part of the number. */
  method ReadString(X: Mpi, radix: int, s: string) returns (ok: bool)
    requires X.Valid()
    modifies X, X.p
    ensures X.Valid() && (X.p == old(X.p) || fresh(X.p))
    ensures ok <==> 2 <= radix <= 16 && Readable(s, radix)
    ensures ok ==> X.Int() == Denoted(s, radix)
  {
    hide Value, DigitsValue;
    if radix < 2 || radix > 16 {
      return false;
    }
    if s == "" {
      X.s, X.p := 1, new limb[0];
      NoDigits(0, radix);
      ValueZero(X.p[..]);
      return true;
    }
    var negative := s[0] == '-';
    var digits := if negative then s[1..] else s;
    if radix == 16 {
      ok := ReadHex(X, digits);
    } else {
      ok := ReadDigits(X, radix, digits);
    }
    if !ok {
      return;
    }
    var bits := BitLen(X.p);
    if negative && bits != 0 {
      X.s := -1;
    }
  }

  /** The branch for the other radixes: multiply by the radix and add the digit. */
  method ReadDigits(X: Mpi, radix: nat, s: string) returns (ok: bool)
    requires X.Valid() && 2 <= radix < 16
    modifies X, X.p
    ensures X.Valid() && (X.p == old(X.p) || fresh(X.p))
    ensures ok <==> Digits(s, radix)
    ensures ok ==> X.s == 1 && X.Abs() == DigitsValue(s, radix)
  {
    hide Value, DigitsValue;
    var T := new Mpi();
    X.Set(0);
    NoDigits(0, radix);
    for i := 0 to |s|
      invariant Digits(s[..i], radix) && X.s == 1 && X.Abs() == DigitsValue(s[..i], radix)
      invariant (X.p == old(X.p) || fresh(X.p)) && fresh(T) && fresh(T.p) && T.Valid() && T.p != X.p
    {
      var d := DigitOf(s[i]);
      if d >= radix {
        return false;
      }
      assert s[..i + 1] == s[..i] + [s[i]];
      AppendDigit(s[..i], s[i], radix);
      T.MulInt(X, radix);
      AddInt(X, T, d);
    }
    assert s[..|s|] == s;
    ok := true;
  }

  /** `mbedtls_mpi_add_int` for a small number that is not negative. */
  method AddInt(X: Mpi, A: Mpi, b: nat)
    requires X.Valid() && A.Valid() && X != A && X.p != A.p && A.s == 1 && b < 16
    modifies X, X.p
    ensures X.s == 1 && X.Int() == A.Int() + b && (X.p == old(X.p) || fresh(X.p)) && X.p != A.p
  {
    hide Value;
    var B := new Mpi();
    B.Set(b);
    X.AddSub(A, B, 1);
  }

  /** The hexadecimal branch: every digit has its own four bits. */
  method ReadHex(X: Mpi, s: string) returns (ok: bool)
    requires X.Valid()
    modifies X, X.p
    ensures X.Valid() && (X.p == old(X.p) || fresh(X.p))
    ensures ok <==> Digits(s, 16)
    ensures ok ==> X.s == 1 && X.Abs() == DigitsValue(s, 16)
  {
    hide Value, Power, DigitsValue, Pow, Pow2;
    X.Grow(LimbsFor(4 * |s|));
    X.Set(0);
    HexStart();
    var i, j := |s|, 0;
    assert s[i..] == "";
    while i > 0
      invariant 0 <= i <= |s| && j == |s| - i && Digits(s[i..], 16)
      invariant X.s == 1 && X.p.Length >= LimbsFor(4 * |s|) && (X.p == old(X.p) || fresh(X.p))
      invariant X.Abs() == DigitsValue(s[i..], 16) && X.Abs() < Pow(16, j)
    {
      var d := DigitOf(s[i - 1]);
      if d >= 16 {
        assert s[i - 1] in s;
        return false;
      }
      assert s[i - 1..] == [s[i - 1]] + s[i..];
      PrependDigit(s[i - 1], s[i..], 16);
      PlaceDigit(X, j, d);
      i, j := i - 1, j + 1;
    }
    assert s[0..] == s;
    ok := true;
  }

  lemma HexStart()
    ensures DigitsValue("", 16) == 0 && Pow(16, 0) == 1
  {
  }

  /** `X.p[j / (2 * ciL)] |= d << ((j % (2 * ciL)) << 2)`, into bits that are still zero. */
  method PlaceDigit(X: Mpi, j: nat, d: nat)
    requires X.s == 1 && d < 16 && j / 8 < X.p.Length && X.Abs() < Pow(16, j)
    modifies X.p
    ensures X.Abs() == old(X.Abs()) + d * Pow(16, j) && X.Abs() < Pow(16, j + 1)
  {
    hide Value, Power, Pow, Pow2;
    ghost var x := X.p[..];
    var l, q := j / 8, Pow2(j % 8 * 4);
    HexWeight(j);
    LimbBelow(x, l, q);
    DigitFits(x[l], d, q);
    var t: limb := X.p[l] + d * q;
    X.p[l] := t;
    assert X.p[..] == x[l := t];
    WriteLimb(x, l, t);
    PowStep(16, j + 1);
    DigitWeight(x[l], t, d, q, Power(l), Pow(16, j));
  }

  lemma DigitFits(x: nat, d: nat, q: nat)
    requires x < q && d < 16 && 16 * q <= BASE
    ensures 0 <= x + d * q < BASE
  {
    Scale(d + 1, 16, q);
    Scale(0, d, q);
  }

  lemma DigitWeight(x: int, t: int, d: nat, q: nat, p: nat, w: nat)
    requires w == p * q && d < 16 && t == x + d * q
    ensures (t - x) * p == d * w && d * w + w <= 16 * w
  {
    assert (d * q) * p == d * (p * q);
    Scale(d + 1, 16, w);
  }

  /** Nibble `j` lies in limb `j / 8`. */
  lemma HexWeight(j: nat)
    ensures Pow(16, j) == Power(j / 8) * Pow2(j % 8 * 4) && 16 * Pow2(j % 8 * 4) <= BASE
  {
    hide Power, Pow, Pow2;
    SixteenPow2(j);
    PowerPow2(j / 8);
    Pow2Sum(LIMB_BITS * (j / 8), j % 8 * 4);
    assert LIMB_BITS * (j / 8) + j % 8 * 4 == 4 * j;
    Pow2Monotone(j % 8 * 4, 28);
    Pow2Limb();
    Pow2Sum(28, 4);
    SixteenPow2(1);
    PowersStart(16);
  }

  lemma {:induction false} SixteenPow2(j: nat)
    ensures Pow(16, j) == Pow2(4 * j)
  {
    if j > 0 {
      SixteenPow2(j - 1);
      Pow2Sum(4 * (j - 1), 4);
      assert Pow2(4) == 16;
    }
  }

  lemma LimbBelow(x: seq<limb>, l: nat, q: nat)
    requires l < |x| && Value(x) < Power(l) * q
    ensures x[l] < q
  {
    hide Value, Power;
    Split(x, l);
    ValueLow(x[l..]);
    HeadBelow(x[l], Value(x[l..]), Power(l), q);
  }

  lemma HeadBelow(head: nat, v: nat, p: nat, q: nat)
    requires p > 0 && head <= v && p * v < p * q
    ensures head < q
  {
    Scale(head, v, p);
    Cancel(head, q, p);
  }

  /** What is printed with enough room is read back as the same number, for every radix. */
  method RoundTrip(X: Mpi, radix: nat, Y: Mpi)
    requires X.Valid() && Y.Valid() && X != Y && X.p != Y.p && 2 <= radix <= 16
    modifies Y, Y.p
    ensures Y.Int() == X.Int()
  {
    hide Value, Bits;
    var bits := BitLen(X.p);
    var w := WriteString(X, radix, Needed(bits, radix));
    var _ := ReadString(Y, radix, w.s);
  }
}
