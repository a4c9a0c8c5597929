/** Bytes, 32-bit words and their little-endian layout in memory. */
module Bytes {

  type byte = x: int | 0 <= x < 0x100
  type u32 = x: int | 0 <= x < 0x1_0000_0000

  const TWO32 := 0x1_0000_0000

  /** The little-endian word whose first byte is at `i`. */
  function Word(s: seq<byte>, i: nat): u32
    requires i + 4 <= |s|
  {
    s[i] as int + 0x100 * s[i + 1] as int + 0x1_0000 * s[i + 2] as int + 0x100_0000 * s[i + 3] as int
  }

  function WordBytes(w: u32): (s: seq<byte>)
    ensures |s| == 4
  {
    [w % 0x100, w / 0x100 % 0x100, w / 0x1_0000 % 0x100, w / 0x100_0000]
  }

  /** The memory image of an array of words. */
  function Encode(ws: seq<u32>): (s: seq<byte>)
    ensures |s| == 4 * |ws|
  {
    if ws == [] then [] else WordBytes(ws[0]) + Encode(ws[1..])
  }

  /** The words stored in a memory image whose length is a multiple of four. */
  function Decode(s: seq<byte>): (ws: seq<u32>)
    requires |s| % 4 == 0
    ensures 4 * |ws| == |s|
  {
    if s == [] then [] else [Word(s, 0)] + Decode(s[4..])
  }

  lemma {:induction false} DecodeEncode(ws: seq<u32>)
    ensures Decode(Encode(ws)) == ws
  {
    if ws != [] {
      var s := Encode(ws);
      assert s[4..] == Encode(ws[1..]);
      WordOfWordBytes(ws[0]);
      assert Word(s, 0) == Word(WordBytes(ws[0]), 0);
      DecodeEncode(ws[1..]);
    }
  }

  lemma {:induction false} EncodeDecode(s: seq<byte>)
    requires |s| % 4 == 0
    ensures Encode(Decode(s)) == s
  {
    if s != [] {
      var ws := Decode(s);
      EncodeDecode(s[4..]);
      assert ws[1..] == Decode(s[4..]);
      WordBytesOfWord(s);
      assert s == s[..4] + s[4..];
    }
  }

  lemma WordOfWordBytes(w: u32)
    ensures Word(WordBytes(w), 0) == w
  {
    var a, b := w / 0x100, w / 0x1_0000;
    assert b == a / 0x100 && w / 0x100_0000 == b / 0x100;
  }

  lemma WordBytesOfWord(s: seq<byte>)
    requires |s| >= 4
    ensures WordBytes(Word(s, 0)) == s[..4]
  {
    Digits(s[0] as int, s[1] as int, s[2] as int, s[3] as int, Word(s, 0) as int);
  }

  lemma Digits(d0: int, d1: int, d2: int, d3: int, w: int)
    requires 0 <= d0 < 0x100 && 0 <= d1 < 0x100 && 0 <= d2 < 0x100 && 0 <= d3 < 0x100
    requires w == d0 + 0x100 * d1 + 0x1_0000 * d2 + 0x100_0000 * d3
    ensures w % 0x100 == d0 && w / 0x100 % 0x100 == d1 && w / 0x1_0000 % 0x100 == d2 && w / 0x100_0000 == d3
  {
    var a, b := d1 + 0x100 * d2 + 0x1_0000 * d3, d2 + 0x100 * d3;
    assert w == d0 + 0x100 * a && w / 0x100 == a;
    assert a == d1 + 0x100 * b && w / 0x1_0000 == b;
  }

  /** Word `k` of an encoded array of words. */
  lemma {:induction false} WordAt(ws: seq<u32>, k: nat)
    requires k < |ws|
    ensures Word(Encode(ws), 4 * k) == ws[k]
  {
    if k == 0 {
      WordOfWordBytes(ws[0]);
    } else {
      WordAt(ws[1..], k - 1);
      var s := Encode(ws);
      assert s[4..] == Encode(ws[1..]);
      assert Word(s, 4 * k) == Word(s[4..], 4 * (k - 1));
    }
  }

  lemma SubSlice<T>(s: seq<T>, a: nat, b: nat, c: nat, d: nat)
    requires a <= b <= |s| && c <= d <= b - a
    ensures s[a..b][c..d] == s[a + c..a + d]
  {
    forall i | 0 <= i < d - c
      ensures s[a..b][c..d][i] == s[a + c..a + d][i]
    {
      assert s[a..b][c..d][i] == s[a..b][c + i];
    }
  }

  lemma JoinSlices<T>(s: seq<T>, a: nat, b: nat, c: nat)
    requires a <= b <= c <= |s|
    ensures s[a..c] == s[a..b] + s[b..c]
  {
  }

  /** `n` copies of the byte an erased NOR cell reads as. */
  function Erased(n: nat): (s: seq<byte>)
    ensures |s| == n && forall i :: 0 <= i < n ==> s[i] == 0xFF
  {
    seq(n, i => 0xFF)
  }

  /** Programming NOR can only clear bits: the cell becomes the AND of what it held and the data. */
  function And(a: byte, b: byte): byte
  {
    ((a as bv8) & (b as bv8)) as byte
  }

  lemma AndErased(b: byte)
    ensures And(0xFF, b) == b
  {
    assert (0xFF as bv8) & (b as bv8) == b as bv8;
  }
}
