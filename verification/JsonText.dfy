/**
 * Strings in JSON text (rj_json.c): UTF-8, scanning, decoding and quoting. Texts are C strings without a NUL
 * inside.
 */
module JsonText {
  import opened Bytes
  import opened BootFormat

  /** The byte at `i`, with the terminator at the end. */
  function At(t: seq<byte>, i: nat): byte
  {
    if i < |t| then t[i] else 0
  }

  const QUOTE: byte := 0x22
  const BACKSLASH: byte := 0x5C

  // ---------------------------------------------------------------- UTF-8

  /** How many continuation bytes follow a first byte; 4 for a byte that starts nothing. */
  function Continuations(c: byte): nat
  {
    if c < 0x80 then 0 else if 0xC2 <= c <= 0xDF then 1 else if 0xE0 <= c <= 0xEF then 2
        else if 0xF0 <= c <= 0xF4 then 3 else 4
  }

  predicate IsContinuation(b: byte)
  {
    0x80 <= b < 0xC0
  }

  /** The value bits of a first byte that `n` bytes follow, and of a continuation byte. */
  function FirstBits(c: byte, n: nat): nat
  {
    if n == 0 then c else if n == 1 then c % 32 else if n == 2 then c % 16 else c % 8
  }

  /** The number that the first `k` continuation bytes after `p` extend the first byte to. */
  function Assembled(t: seq<byte>, p: nat, k: nat): nat
    requires p + k < |t|
  {
    if k == 0 then FirstBits(t[p], Continuations(t[p])) else Assembled(t, p, k - 1) * 64 + t[p + k] % 64
  }

  /** The smallest code point that needs `n` continuation bytes. */
  function Smallest(n: nat): nat
  {
    if n == 0 then 0 else if n == 1 then 0x80 else if n == 2 then 0x800 else 0x1_0000
  }

  /** A well-formed sequence at `p`: the shortest form of a code point that is no surrogate (section 4 of RFC 3629). */
  predicate WellFormedAt(t: seq<byte>, p: nat)
    requires p < |t|
  {
    var n := Continuations(t[p]);
    && n < 4 && p + n < |t| && (forall i :: p < i <= p + n ==> IsContinuation(t[i]))
    && Smallest(n) <= Assembled(t, p, n) <= 0x10_FFFF && !(0xD800 <= Assembled(t, p, n) <= 0xDFFF)
  }

  /** The whole text is well-formed. */
  predicate Utf8From(t: seq<byte>, p: nat)
    requires p <= |t|
    decreases |t| - p
  {
    p == |t| || (WellFormedAt(t, p) && Utf8From(t, p + Continuations(t[p]) + 1))
  }

  predicate Utf8(t: seq<byte>)
  {
    Utf8From(t, 0)
  }

  /** `utf8`, on a text without NUL. */
  method CheckUtf8(t: seq<byte>) returns (ok: bool)
    requires 0 !in t
    ensures ok <==> Utf8(t)
  {
    var p := 0;
    while p < |t|
      invariant p <= |t| && (Utf8(t) <==> Utf8From(t, p))
    {
      var c: nat := t[p];
      var first := p;
      var n, low := 0, 0;
      p := p + 1;
      if c < 0x80 {
        continue;
      }
      if 0xC2 <= c <= 0xDF {
        c, n, low := c % 32, 1, 0x80;
      } else if 0xE0 <= c <= 0xEF {
        c, n, low := c % 16, 2, 0x800;
      } else if 0xF0 <= c <= 0xF4 {
        c, n, low := c % 8, 3, 0x1_0000;
      } else {
        return false;
      }
      ok, c, p := ReadContinuations(t, first, c, n);
      if !ok || c < low || c > 0x10_FFFF || 0xD800 <= c <= 0xDFFF {
        return false;
      }
    }
    ok := true;
  }

  /** The inner loop of `utf8`: extends the first byte's bits `c` by `n` continuation bytes, if they are there. */
  method ReadContinuations(t: seq<byte>, first: nat, bits: nat, n: nat) returns (ok: bool, c: nat, p: nat)
    requires first < |t| && n == Continuations(t[first]) && bits == Assembled(t, first, 0)
    ensures ok <==> first + n < |t| && forall i :: first < i <= first + n ==> IsContinuation(t[i])
    ensures ok ==> p == first + n + 1 && c == Assembled(t, first, n)
  {
    c, p := bits, first + 1;
    var k := 0;
    while k < n
      invariant k <= n && p == first + 1 + k <= |t|
      invariant forall i :: first < i < p ==> IsContinuation(t[i])
      invariant c == Assembled(t, first, k)
    {
      if !IsContinuation(At(t, p)) {
        return false, c, p;
      }
      c := c * 64 + t[p] % 64;
      p, k := p + 1, k + 1;
    }
    ok := true;
  }

  // ---------------------------------------------------------------- raw strings

  predicate IsHex(c: byte)
  {
    '0' as int <= c <= '9' as int || 'a' as int <= c <= 'f' as int || 'A' as int <= c <= 'F' as int
  }

  /** `hex`, on a hexadecimal digit. */
  function HexValue(c: byte): (d: nat)
    requires IsHex(c)
    ensures d < 16
  {
    if c <= '9' as int then c - '0' as int else if c >= 'a' as int then c - 'a' as int + 10 else c - 'A' as int + 10
  }

  predicate FourHex(s: seq<byte>, i: nat)
  {
    i + 4 <= |s| && IsHex(s[i]) && IsHex(s[i + 1]) && IsHex(s[i + 2]) && IsHex(s[i + 3])
  }

  function Hex4(s: seq<byte>, i: nat): (v: nat)
    requires FourHex(s, i)
    ensures v < 0x1_0000
  {
    ((HexValue(s[i]) * 16 + HexValue(s[i + 1])) * 16 + HexValue(s[i + 2])) * 16 + HexValue(s[i + 3])
  }

  /** The characters that may follow a backslash, apart from `u`. */
  predicate IsEscape(c: byte)
  {
    c in {QUOTE, BACKSLASH, '/' as int, 'b' as int, 'f' as int, 'n' as int, 'r' as int, 't' as int}
  }

  const LETTER_U: byte := 'u' as int

  /** The inside of a string (section 7 of RFC 8259). */
  predicate Chars(s: seq<byte>)
  {
    s == [] ||
    if s[0] == BACKSLASH then
      |s| >= 2 && (if s[1] == LETTER_U then FourHex(s, 2) && Chars(s[6..]) else IsEscape(s[1]) && Chars(s[2..]))
    else s[0] >= 32 && s[0] != QUOTE && Chars(s[1..])
  }

  /** The closing quote of the string whose inside starts at `p`. */
  function ScanFrom(t: seq<byte>, p: nat): Option<nat>
    requires p <= |t|
    decreases |t| - p
  {
    if p == |t| then None
    else if t[p] == QUOTE then Some(p)
    else if t[p] < 32 then None
    else if t[p] != BACKSLASH then ScanFrom(t, p + 1)
    else if p + 1 == |t| then None
    else if t[p + 1] == LETTER_U then (if FourHex(t, p + 2) then ScanFrom(t, p + 6) else None)
    else if IsEscape(t[p + 1]) then ScanFrom(t, p + 2) else None
  }

  /** What is scanned is the inside of a string. */
  lemma {:induction false} ScanSound(t: seq<byte>, p: nat)
    requires p <= |t| && ScanFrom(t, p).Some?
    ensures var e := ScanFrom(t, p).value; p <= e < |t| && t[e] == QUOTE && Chars(t[p..e])
    decreases |t| - p
  {
    var e := ScanFrom(t, p).value;
    if t[p] != QUOTE {
      var k := if t[p] != BACKSLASH then 1 else if t[p + 1] == LETTER_U then 6 else 2;
      ScanSound(t, p + k);
      assert t[p..e][k..] == t[p + k..e];
    }
  }

  /** The inside of a string is scanned up to its closing quote. */
  lemma {:induction false} ScanComplete(t: seq<byte>, p: nat, e: nat)
    requires p <= e < |t| && t[e] == QUOTE && Chars(t[p..e])
    ensures ScanFrom(t, p) == Some(e)
    decreases |t| - p
  {
    if p < e {
      var s := t[p..e];
      var k := if s[0] != BACKSLASH then 1 else if s[1] == LETTER_U then 6 else 2;
      assert s[k..] == t[p + k..e];
      ScanComplete(t, p + k, e);
    }
  }

  /** The scanning loop of `parse_value`, after the opening quote. */
  method ScanString(t: seq<byte>, start: nat) returns (end: Option<nat>)
    requires start <= |t| && 0 !in t
    ensures end == ScanFrom(t, start)
  {
    var p := start;
    while p < |t| && t[p] != QUOTE
      invariant start <= p <= |t| && ScanFrom(t, start) == ScanFrom(t, p)
    {
      var a := t[p];
      p := p + 1;
      if a < 32 {
        return None;
      }
      if a == BACKSLASH {
        if p >= |t| {
          return None;
        }
        var e := t[p];
        p := p + 1;
        if e == LETTER_U {
          var i := 0;
          ghost var q := p;
          while i < 4
            invariant i <= 4 && p == q + i <= |t| && forall j :: q <= j < p ==> IsHex(t[j])
          {
            if p >= |t| || !IsHex(t[p]) {
              return None;
            }
            i, p := i + 1, p + 1;
          }
        } else if !IsEscape(e) {
          return None;
        }
      }
    }
    return if p < |t| then Some(p) else None;
  }

  // ---------------------------------------------------------------- decoding

  function EscapeValue(e: byte): byte
  {
    if e == 'n' as int then 10 else if e == 'r' as int then 13 else if e == 't' as int then 9
    else if e == 'b' as int then 8 else if e == 'f' as int then 12 else e
  }

  /** The UTF-8 form of a code point. */
  function Utf8Bytes(c: nat): (b: seq<byte>)
    requires 0 < c <= 0x10_FFFF
    ensures 1 <= |b| <= 4
  {
    if c < 0x80 then [c]
    else if c < 0x800 then [0xC0 + c / 64, 0x80 + c % 64]
    else if c < 0x1_0000 then [0xE0 + c / 0x1000, 0x80 + c / 64 % 64, 0x80 + c % 64]
    else [0xF0 + c / 0x4_0000, 0x80 + c / 0x1000 % 64, 0x80 + c / 64 % 64, 0x80 + c % 64]
  }

  function Prepend(b: seq<byte>, rest: Option<seq<byte>>): Option<seq<byte>>
  {
    if rest.Some? then Some(b + rest.value) else None
  }

  predicate HighSurrogate(c: nat)
  {
    0xD800 <= c <= 0xDBFF
  }

  predicate LowSurrogate(c: nat)
  {
    0xDC00 <= c <= 0xDFFF
  }

  /** A low surrogate escape follows at 6. */
  predicate PairFollows(s: seq<byte>)
  {
    |s| >= 12 && s[6] == BACKSLASH && s[7] == LETTER_U && FourHex(s, 8) && LowSurrogate(Hex4(s, 8))
  }

  /** What a string means: NUL and unpaired surrogates have no meaning. */
  function Decoded(s: seq<byte>): Option<seq<byte>>
    requires Chars(s)
  {
    if s == [] then Some([])
    else if s[0] != BACKSLASH then Prepend([s[0]], Decoded(s[1..]))
    else if s[1] != LETTER_U then Prepend([EscapeValue(s[1])], Decoded(s[2..]))
    else
      var c := Hex4(s, 2);
      if HighSurrogate(c) then
        if PairFollows(s) then
          PairChars(s);
          Prepend(Utf8Bytes(0x1_0000 + (c - 0xD800) * 0x400 + (Hex4(s, 8) - 0xDC00)), Decoded(s[12..]))
        else None
      else if LowSurrogate(c) || c == 0 then None
      else Prepend(Utf8Bytes(c), Decoded(s[6..]))
  }

  lemma PairChars(s: seq<byte>)
    requires Chars(s) && |s| >= 12 && s[0] == BACKSLASH && s[1] == LETTER_U && s[6] == BACKSLASH && s[7] == LETTER_U
    ensures Chars(s[12..])
  {
    assert s[6..][6..] == s[12..];
  }

  lemma PrependTwice(a: seq<byte>, b: seq<byte>, r: Option<seq<byte>>)
    ensures Prepend(a, Prepend(b, r)) == Prepend(a + b, r)
  {
    if r.Some? {
      assert a + (b + r.value) == (a + b) + r.value;
    }
  }

  /** What has been decoded so far, and what is still to come. */
  predicate Decoding(raw: seq<byte>, p: nat, done: seq<byte>)
    requires Chars(raw)
  {
    p <= |raw| && Chars(raw[p..]) && Decoded(raw) == Prepend(done, Decoded(raw[p..]))
  }

  /** One unit of a string that has a meaning: its length in the text and its bytes. */
  predicate Unit(s: seq<byte>, k: nat, b: seq<byte>)
    requires Chars(s)
  {
    k <= |s| && Chars(s[k..]) && Decoded(s) == Prepend(b, Decoded(s[k..]))
  }

  lemma DecodeUnit(raw: seq<byte>, p: nat, done: seq<byte>, k: nat, b: seq<byte>)
    requires Chars(raw) && Decoding(raw, p, done) && Unit(raw[p..], k, b)
    ensures Decoding(raw, p + k, done + b)
  {
    hide Decoded, Chars;
    assert raw[p..][k..] == raw[p + k..];
    PrependTwice(done, b, Decoded(raw[p + k..]));
  }

  /** The bytes of the unit at `p`; `None` for one without a meaning. */
  method NextUnit(raw: seq<byte>, p: nat) returns (b: Option<seq<byte>>, next: nat)
    requires p < |raw| && Chars(raw[p..])
    ensures b.None? ==> Decoded(raw[p..]).None?
    ensures b.Some? ==> p < next && Unit(raw[p..], next - p, b.value) && b.value != []
  {
    ghost var s := raw[p..];
    next := p + 1;
    var c := raw[p];
    if c != BACKSLASH {
      return Some([c]), next;
    }
    c, next := raw[next], next + 1;
    if c != LETTER_U {
      return Some([EscapeValue(c)]), next;
    }
    b, next := UnicodeUnit(raw, p);
  }

  /** The part of `decode` for a unit that starts with a backslash and a `u`. */
  method UnicodeUnit(raw: seq<byte>, p: nat) returns (b: Option<seq<byte>>, next: nat)
    requires p + 1 < |raw| && Chars(raw[p..]) && raw[p] == BACKSLASH && raw[p + 1] == LETTER_U
    ensures b.None? ==> Decoded(raw[p..]).None?
    ensures b.Some? ==> p < next && Unit(raw[p..], next - p, b.value) && b.value != []
  {
    ghost var s := raw[p..];
    next := p + 2;
    assert FourHex(s, 2);
    var code: nat := Hex4(raw, next);
    next := next + 4;
    if HighSurrogate(code) {
      if next + 6 > |raw| || raw[next] != BACKSLASH || raw[next + 1] != LETTER_U {
        return None, next;
      }
      assert s[6] == BACKSLASH && s[7] == LETTER_U && FourHex(s[6..], 2);
      var low := Hex4(raw, next + 2);
      next := next + 6;
      if low < 0xDC00 || low > 0xDFFF {
        return None, next;
      }
      PairChars(s);
      code := 0x1_0000 + (code - 0xD800) * 0x400 + (low - 0xDC00);
    } else if LowSurrogate(code) {
      return None, next;
    }
    if code == 0 {
      return None, next;
    }
    return Some(Utf8Bytes(code)), next;
  }

  /** `rj_string`: decodes into a buffer, terminated by NUL; -1 if the string has no meaning or does not fit. */
  method DecodeInto(raw: seq<byte>, out: array<byte>) returns (n: int)
    requires Chars(raw)
    modifies out
    ensures n == -1 <==> Decoded(raw).None? || |Decoded(raw).value| >= out.Length
    ensures n != -1 ==> 0 <= n < out.Length && Decoded(raw) == Some(out[..n]) && out[n] == 0
  {
    hide Decoded, Chars, Unit;
    n := -1;
    if out.Length == 0 {
      return;
    }
    var p, k := 0, 0;
    DecodingStart(raw);
    while p < |raw|
      invariant p <= |raw| && 0 <= k < out.Length && Decoding(raw, p, out[..k])
    {
      var b, next := NextUnit(raw, p);
      if b.None? {
        return;
      }
      DecodeUnit(raw, p, out[..k], next - p, b.value);
      if k + |b.value| >= out.Length {
        return;
      }
      k := PutBytes(out, k, b.value);
      p := next;
    }
    DecodingEnd(raw, p, out[..k]);
    out[k] := 0;
    n := k;
  }

  lemma DecodingStart(raw: seq<byte>)
    requires Chars(raw)
    ensures Decoding(raw, 0, [])
  {
    assert raw[0..] == raw;
    if Decoded(raw).Some? {
      assert [] + Decoded(raw).value == Decoded(raw).value;
    }
  }

  lemma DecodingEnd(raw: seq<byte>, p: nat, done: seq<byte>)
    requires Chars(raw) && p == |raw| && Decoding(raw, p, done)
    ensures Decoded(raw) == Some(done)
  {
    assert raw[p..] == [] && done + [] == done;
  }

  // ---------------------------------------------------------------- quoting

  function HexDigit(d: nat): (c: byte)
    requires d < 16
    ensures IsHex(c) && HexValue(c) == d
  {
    if d < 10 then '0' as int + d else 'a' as int + d - 10
  }

  /** How `rj_quote` writes one byte. */
  function QuotedByte(c: byte): (q: seq<byte>)
    ensures 1 <= |q| <= 6
  {
    if c < 32 then [BACKSLASH, LETTER_U, '0' as int, '0' as int, HexDigit(c / 16), HexDigit(c % 16)]
    else if c == QUOTE || c == BACKSLASH then [BACKSLASH, c]
    else [c]
  }

  function QuotedInside(s: seq<byte>): seq<byte>
  {
    if s == [] then [] else QuotedByte(s[0]) + QuotedInside(s[1..])
  }

  function Quoted(s: seq<byte>): (q: seq<byte>)
    ensures |q| == |QuotedInside(s)| + 2
  {
    [QUOTE] + QuotedInside(s) + [QUOTE]
  }

  /** Quoting writes the inside of a string that means the original. */
  lemma {:induction false} QuotedDecodes(s: seq<byte>)
    requires 0 !in s
    ensures Chars(QuotedInside(s)) && Decoded(QuotedInside(s)) == Some(s)
  {
    if s != [] {
      var c, rest := s[0], QuotedInside(s[1..]);
      var q := QuotedInside(s);
      QuotedDecodes(s[1..]);
      assert c in s && q == QuotedByte(c) + rest;
      assert s == [c] + s[1..];
      if c < 32 {
        assert q[6..] == rest && HexValue('0' as int) == 0 && Hex4(q, 2) == c;
      } else if c == QUOTE || c == BACKSLASH {
        assert q[2..] == rest;
      } else {
        assert q[1..] == rest;
      }
    }
  }

  lemma {:induction false} QuotedInsideConcat(a: seq<byte>, b: seq<byte>)
    ensures QuotedInside(a + b) == QuotedInside(a) + QuotedInside(b)
  {
    hide QuotedByte;
    if a == [] {
      assert a + b == b;
    } else {
      QuotedInsideConcat(a[1..], b);
      assert (a + b)[1..] == a[1..] + b;
    }
  }

  lemma QuotedSplit(s: seq<byte>, i: nat)
    requires i < |s|
    ensures QuotedInside(s[..i + 1]) == QuotedInside(s[..i]) + QuotedByte(s[i])
    ensures |Quoted(s)| >= 2 + |QuotedInside(s[..i])| + |QuotedByte(s[i])|
  {
    hide QuotedByte;
    assert s == s[..i + 1] + s[i + 1..] && s[..i + 1] == s[..i] + [s[i]];
    QuotedInsideConcat(s[..i + 1], s[i + 1..]);
    QuotedInsideConcat(s[..i], [s[i]]);
    assert [s[i]][1..] == [] && QuotedInside([s[i]]) == QuotedByte(s[i]);
  }

  /** `rj_quote`: succeeds exactly when quotes, inside and terminator fit, and never writes beyond them. */
  method QuoteInto(s: seq<byte>, out: array<byte>) returns (n: int)
    requires 0 !in s
    modifies out
    ensures n == -1 <==> |Quoted(s)| + 1 > out.Length
    ensures n != -1 ==> n == |Quoted(s)| && out[..n] == Quoted(s) && out[n] == 0
  {
    hide QuotedByte;
    n := -1;
    if out.Length < 3 {
      return;
    }
    var k: nat := 1;
    out[0] := QUOTE;
    for i := 0 to |s|
      invariant 1 <= k <= out.Length && out[..k] == [QUOTE] + QuotedInside(s[..i])
    {
      QuotedSplit(s, i);
      QuotedLength(s[i]);
      if s[i] < 32 {
        if k + 6 >= out.Length {
          return;
        }
      } else if k + 2 >= out.Length {
        return;
      }
      k := PutBytes(out, k, QuotedByte(s[i]));
    }
    assert s[..|s|] == s;
    if k + 2 > out.Length {
      return;
    }
    out[k] := QUOTE;
    out[k + 1] := 0;
    n := k + 1;
    assert out[..n] == out[..k] + [QUOTE];
  }

  lemma QuotedLength(c: byte)
    ensures |QuotedByte(c)| <= if c < 32 then 6 else 2
    ensures c < 32 ==> |QuotedByte(c)| == 6
  {
  }

  /** Appends bytes to what a buffer holds. */
  method PutBytes(out: array<byte>, k: nat, b: seq<byte>) returns (k': nat)
    requires k + |b| <= out.Length
    modifies out
    ensures k' == k + |b| && out[..k'] == old(out[..k]) + b
  {
    for i := 0 to |b|
      invariant out[..k] == old(out[..k]) && out[k..k + i] == b[..i]
    {
      out[k + i] := b[i];
    }
    k' := k + |b|;
    assert out[..k'] == out[..k] + out[k..k'];
  }

  // ---------------------------------------------------------------- quoting keeps UTF-8

  /** Well-formedness from a position on is that of the rest. */
  lemma {:induction false} Utf8Suffix(t: seq<byte>, p: nat, q: nat)
    requires p <= q <= |t|
    ensures Utf8From(t[p..], q - p) <==> Utf8From(t, q)
    decreases |t| - q
  {
    if q < |t| {
      SequenceSuffix(t, p, q);
      if WellFormedAt(t, q) {
        Utf8Suffix(t, p, q + Continuations(t[q]) + 1);
      }
    }
  }

  lemma SequenceSuffix(t: seq<byte>, p: nat, q: nat)
    requires p <= q < |t|
    ensures WellFormedAt(t[p..], q - p) <==> WellFormedAt(t, q)
  {
    var n := Continuations(t[q]);
    if n < 4 && q + n < |t| {
      AssembledSuffix(t, p, q, n);
      assert forall i :: q < i <= q + n ==> t[i] == t[p..][i - p];
    }
  }

  lemma {:induction false} AssembledSuffix(t: seq<byte>, p: nat, q: nat, k: nat)
    requires p <= q && q + k < |t|
    ensures Assembled(t[p..], q - p, k) == Assembled(t, q, k)
  {
    if k > 0 {
      AssembledSuffix(t, p, q, k - 1);
    }
  }

  /** Quoting keeps a well-formed text well-formed. */
  lemma {:induction false} QuotedUtf8(s: seq<byte>)
    requires Utf8(s)
    ensures Utf8(QuotedInside(s) + [QUOTE])
    decreases |s|
  {
    if s == [] {
      AsciiFirst(QUOTE, []);
      assert QuotedInside(s) + [QUOTE] == [QUOTE] + [];
    } else {
      hide Utf8, WellFormedAt, QuotedInside, QuotedByte, Continuations;
      FirstSequence(s);
      var n := Continuations(s[0]);
      var head, rest := s[..n + 1], s[n + 1..];
      QuotedUtf8(rest);
      assert s == head + rest;
      QuotedInsideConcat(head, rest);
      var tail := QuotedInside(rest) + [QUOTE];
      assert QuotedInside(s) + [QUOTE] == QuotedInside(head) + tail;
      if n == 0 {
        QuotedAscii(head);
        AsciiPrefix(QuotedInside(head), tail);
      } else {
        assert forall i :: 0 <= i < |head| ==> head[i] == s[i];
        VerbatimHigh(head);
        SequencePrefix(s, head, tail);
      }
    }
  }

  /** A well-formed text starts with one well-formed sequence. */
  lemma FirstSequence(s: seq<byte>)
    requires s != [] && Utf8(s)
    ensures var n := Continuations(s[0]);
            && n + 1 <= |s| && WellFormedAt(s, 0) && Utf8(s[n + 1..])
            && (if n == 0 then s[0] < 0x80 else forall i :: 0 <= i <= n ==> s[i] >= 0x80)
  {
    Utf8Suffix(s, Continuations(s[0]) + 1, Continuations(s[0]) + 1);
  }

  lemma QuotedAscii(head: seq<byte>)
    requires |head| == 1 && head[0] < 0x80
    ensures forall i :: 0 <= i < |QuotedInside(head)| ==> QuotedInside(head)[i] < 0x80
  {
    assert QuotedInside(head) == QuotedByte(head[0]);
  }

  lemma AsciiFirst(c: byte, t: seq<byte>)
    requires c < 0x80 && Utf8(t)
    ensures Utf8([c] + t)
  {
    var u := [c] + t;
    Utf8Suffix(u, 1, 1);
    assert u[1..] == t && WellFormedAt(u, 0);
  }

  lemma {:induction false} AsciiPrefix(a: seq<byte>, t: seq<byte>)
    requires Utf8(t) && forall i :: 0 <= i < |a| ==> a[i] < 0x80
    ensures Utf8(a + t)
  {
    if a == [] {
      assert a + t == t;
    } else {
      AsciiPrefix(a[1..], t);
      AsciiFirst(a[0], a[1..] + t);
      assert [a[0]] + (a[1..] + t) == a + t;
    }
  }

  /** Bytes outside ASCII are quoted as they are. */
  lemma {:induction false} VerbatimHigh(a: seq<byte>)
    requires forall i :: 0 <= i < |a| ==> a[i] >= 0x80
    ensures QuotedInside(a) == a
  {
    if a != [] {
      VerbatimHigh(a[1..]);
      assert a == [a[0]] + a[1..] && a[0] in a;
    }
  }

  /** A well-formed sequence may be moved in front of another text. */
  lemma SequencePrefix(s: seq<byte>, head: seq<byte>, tail: seq<byte>)
    requires s != [] && WellFormedAt(s, 0) && head == s[..Continuations(s[0]) + 1] && Utf8(tail)
    ensures Utf8(head + tail)
  {
    var u, n := head + tail, Continuations(s[0]);
    AssembledPrefix(s, u, n);
    assert forall i :: 0 <= i <= n ==> u[i] == s[i];
    Utf8Suffix(u, n + 1, n + 1);
    assert u[n + 1..] == tail;
  }

  lemma {:induction false} AssembledPrefix(s: seq<byte>, u: seq<byte>, k: nat)
    requires k < |s| && k < |u| && forall i :: 0 <= i <= k ==> u[i] == s[i]
    ensures Assembled(u, 0, k) == Assembled(s, 0, k)
  {
    if k > 0 {
      AssembledPrefix(s, u, k - 1);
    }
  }
}
