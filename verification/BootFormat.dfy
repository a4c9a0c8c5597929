/**
 * The flash map and the boot records (boot_format.h) with the parts of boot_state.c that only
 * read them. Flash contents are a sequence of NOR_BYTES bytes.
 */
module BootFormat {
  import opened Bytes
  import opened Crc

  const BOARD_ID: u32 := 0x75000206
  const IMAGE_MAGIC: u32 := 0x314D4947
  const META_MAGIC: u32 := 0x314D4247
  const NOR_BYTES := 0x100_0000
  const SDRAM_BASE: u32 := 0xC000_0000
  const INITIAL_STACK: u32 := 0x2002_0000
  const IMAGE_HEADER_BYTES := 0x1000
  const IMAGE_SLOT_BYTES := 0x40_0000
  const IMAGE_MAX := IMAGE_SLOT_BYTES - IMAGE_HEADER_BYTES
  const FACTORY_OFFSET := 0x1_0000
  const FACTORY_BYTES := 0xD_0000
  const META0_OFFSET := 0xF_0000
  const META1_OFFSET := 0xF_1000
  const SLOT_A_OFFSET := 0x10_0000
  const SLOT_B_OFFSET := 0x50_0000
  const SLOT_NONE: u32 := 0xFFFF_FFFF
  const SLOT_FACTORY: u32 := 2
  const MAX_TRIAL_ATTEMPTS: u32 := 2

  // ---------------------------------------------------------------- images

  type Digest = s: seq<byte> | |s| == 32 witness Erased(32)
  type Words15 = s: seq<u32> | |s| == 15 witness seq(15, i => 0)

  datatype Header = Header(
    magic: u32, format: u32, board: u32, loadAddress: u32, imageBytes: u32, imageCrc: u32,
    generation: u32, flags: u32, sha256: Digest, reserved: Words15, headerCrc: u32)

  const HEADER_BYTES := 128

  function HeaderFront(h: Header): seq<u32>
  {
    [h.magic, h.format, h.board, h.loadAddress, h.imageBytes, h.imageCrc, h.generation, h.flags]
  }

  /** The bytes the header's own CRC covers. */
  function HeaderBody(h: Header): (s: seq<byte>)
    ensures |s| == HEADER_BYTES - 4
  {
    Encode(HeaderFront(h)) + h.sha256 + Encode(h.reserved)
  }

  function HeaderBytes(h: Header): (s: seq<byte>)
    ensures |s| == HEADER_BYTES
  {
    HeaderBody(h) + WordBytes(h.headerCrc)
  }

  function HeaderOf(s: seq<byte>): Header
    requires |s| == HEADER_BYTES
  {
    Header(Word(s, 0), Word(s, 4), Word(s, 8), Word(s, 12), Word(s, 16), Word(s, 20), Word(s, 24),
           Word(s, 28), s[32..64], Decode(s[64..124]), Word(s, 124))
  }

  /** A header survives being written to memory and read back. */
  lemma HeaderRoundTrip(h: Header)
    ensures HeaderOf(HeaderBytes(h)) == h
  {
    var s := HeaderBytes(h);
    var front := Encode(HeaderFront(h));
    assert s[..32] == front;
    forall k: nat | k < 8
      ensures Word(s, 4 * k) == HeaderFront(h)[k]
    {
      WordAt(HeaderFront(h), k);
      assert Word(s, 4 * k) == Word(front, 4 * k);
    }
    assert Word(s, 4 * 0) == h.magic && Word(s, 4 * 1) == h.format && Word(s, 4 * 2) == h.board;
    assert Word(s, 4 * 3) == h.loadAddress && Word(s, 4 * 4) == h.imageBytes && Word(s, 4 * 5) == h.imageCrc;
    assert Word(s, 4 * 6) == h.generation && Word(s, 4 * 7) == h.flags;
    assert s[32..64] == h.sha256;
    assert s[64..124] == Encode(h.reserved);
    DecodeEncode(h.reserved);
    WordOfWordBytes(h.headerCrc);
    assert Word(s, 124) == Word(WordBytes(h.headerCrc), 0);
  }

  /** Every 128 bytes are the memory image of the header read from them. */
  lemma HeaderBytesRoundTrip(s: seq<byte>)
    requires |s| == HEADER_BYTES
    ensures HeaderBytes(HeaderOf(s)) == s
  {
    hide Decode, Encode;
    var h := HeaderOf(s);
    var front := s[..32];
    forall k: nat | k < 8
      ensures Decode(front)[k] == HeaderFront(h)[k]
    {
      DecodedWord(front, k);
      assert Word(front, 4 * k) == Word(s, 4 * k);
    }
    assert Decode(front) == HeaderFront(h);
    EncodeDecode(front);
    EncodeDecode(s[64..124]);
    WordBytesOfWord(s[124..]);
    assert Word(s[124..], 0) == Word(s, 124);
    assert s[124..][..4] == s[124..];
    assert s == front + s[32..64] + s[64..124] + s[124..];
  }

  lemma {:induction false} DecodedWord(s: seq<byte>, k: nat)
    requires |s| % 4 == 0 && k < |Decode(s)|
    ensures Decode(s)[k] == Word(s, 4 * k)
  {
    if k > 0 {
      DecodedWord(s[4..], k - 1);
      assert Word(s[4..], 4 * (k - 1)) == Word(s, 4 * k);
    }
  }

  /** `g100_slot_offset`. */
  function SlotOffset(slot: u32): (off: u32)
  {
    if slot == 0 then SLOT_A_OFFSET else if slot == 1 then SLOT_B_OFFSET
    else if slot == SLOT_FACTORY then FACTORY_OFFSET else SLOT_NONE
  }

  /** The first address past the slot. */
  function SlotEnd(slot: u32): int
    requires slot <= SLOT_FACTORY
  {
    SlotOffset(slot) as int + if slot == SLOT_FACTORY then FACTORY_BYTES else IMAGE_SLOT_BYTES
  }

  function HeaderAt(mem: seq<byte>, slot: u32): Header
    requires |mem| == NOR_BYTES && slot <= SLOT_FACTORY
  {
    var off := SlotOffset(slot);
    HeaderOf(mem[off..off + HEADER_BYTES])
  }

  /** The checks of `g100_image_header_read` on the header it has copied out. */
  predicate HeaderReadable(slot: u32, h: Header)
  {
    var maximum := if slot == SLOT_FACTORY then FACTORY_BYTES - IMAGE_HEADER_BYTES else IMAGE_MAX;
    && h.magic == IMAGE_MAGIC && h.format == 1 && h.board == BOARD_ID && h.loadAddress == SDRAM_BASE
    && 1024 <= h.imageBytes <= maximum && h.imageBytes % 4 == 0 && h.flags == 0
    && h.headerCrc == Crc32(HeaderBody(h))
  }

  /** `g100_image_header_read`: whether the slot holds an acceptable header. */
  predicate ImageHeaderRead(mem: seq<byte>, slot: u32)
    requires |mem| == NOR_BYTES
  {
    SlotOffset(slot) != SLOT_NONE && HeaderReadable(slot, HeaderAt(mem, slot))
  }

  /** The image that the header describes. */
  function Payload(mem: seq<byte>, slot: u32): seq<byte>
    requires |mem| == NOR_BYTES && ImageHeaderRead(mem, slot)
  {
    var p := SlotOffset(slot) + IMAGE_HEADER_BYTES;
    mem[p..p + HeaderAt(mem, slot).imageBytes]
  }

  /** The vector table at the start of an image: the stack of the board and a Thumb entry inside it. */
  predicate VectorsValid(payload: seq<byte>)
    requires |payload| >= 8
  {
    var entry := Word(payload, 4);
    && Word(payload, 0) == INITIAL_STACK && entry % 2 == 1
    && SDRAM_BASE as int + 1024 <= entry as int - 1 < SDRAM_BASE as int + |payload|
  }

  /** `g100_image_validate`. */
  predicate ImageValidate(mem: seq<byte>, slot: u32)
    requires |mem| == NOR_BYTES
  {
    && ImageHeaderRead(mem, slot)
    && VectorsValid(Payload(mem, slot))
    && Crc32(Payload(mem, slot)) == HeaderAt(mem, slot).imageCrc
  }

  // ---------------------------------------------------------------- boot metadata

  type Words6 = s: seq<u32> | |s| == 6 witness [0, 0, 0, 0, 0, 0]

  /** `reserved0` is the highest generation retired so far; the other reserved words are unused. */
  datatype Meta = Meta(
    magic: u32, format: u32, sequence: u32, confirmedSlot: u32, confirmedGeneration: u32,
    trialSlot: u32, trialGeneration: u32, trialAttempts: u32, reserved0: u32, spare: Words6, crc: u32)

  const META_BYTES := 64

  function MetaFront(m: Meta): seq<u32>
  {
    [m.magic, m.format, m.sequence, m.confirmedSlot, m.confirmedGeneration,
     m.trialSlot, m.trialGeneration, m.trialAttempts, m.reserved0]
  }

  function MetaBody(m: Meta): (s: seq<byte>)
    ensures |s| == META_BYTES - 4
  {
    Encode(MetaFront(m)) + Encode(m.spare)
  }

  function MetaBytes(m: Meta): (s: seq<byte>)
    ensures |s| == META_BYTES
  {
    MetaBody(m) + WordBytes(m.crc)
  }

  function MetaOf(s: seq<byte>): Meta
    requires |s| == META_BYTES
  {
    Meta(Word(s, 0), Word(s, 4), Word(s, 8), Word(s, 12), Word(s, 16), Word(s, 20), Word(s, 24),
         Word(s, 28), Word(s, 32), Decode(s[36..60]), Word(s, 60))
  }

  lemma MetaRoundTrip(m: Meta)
    ensures MetaOf(MetaBytes(m)) == m
  {
    var s := MetaBytes(m);
    var front := Encode(MetaFront(m));
    assert s[..36] == front;
    forall k: nat | k < 9
      ensures Word(s, 4 * k) == MetaFront(m)[k]
    {
      WordAt(MetaFront(m), k);
      assert Word(s, 4 * k) == Word(front, 4 * k);
    }
    assert Word(s, 4 * 0) == m.magic && Word(s, 4 * 1) == m.format && Word(s, 4 * 2) == m.sequence;
    assert Word(s, 4 * 3) == m.confirmedSlot && Word(s, 4 * 4) == m.confirmedGeneration;
    assert Word(s, 4 * 5) == m.trialSlot && Word(s, 4 * 6) == m.trialGeneration;
    assert Word(s, 4 * 7) == m.trialAttempts && Word(s, 4 * 8) == m.reserved0;
    assert s[36..60] == Encode(m.spare);
    DecodeEncode(m.spare);
    WordOfWordBytes(m.crc);
    assert Word(s, 60) == Word(WordBytes(m.crc), 0);
  }

  /** `meta_valid`. */
  predicate MetaValid(m: Meta)
  {
    && m.magic == META_MAGIC && m.format == 1 && m.sequence != 0
    && (m.confirmedSlot <= 1 || m.confirmedSlot == SLOT_NONE)
    && (m.trialSlot <= 1 || m.trialSlot == SLOT_NONE)
    && m.trialAttempts <= MAX_TRIAL_ATTEMPTS
    && m.crc == Crc32(MetaBody(m))
  }

  function BankOffset(bank: nat): nat
    requires bank <= 1
  {
    if bank == 0 then META0_OFFSET else META1_OFFSET
  }

  function BankBytes(mem: seq<byte>, bank: nat): (s: seq<byte>)
    requires |mem| == NOR_BYTES && bank <= 1
    ensures |s| == META_BYTES
  {
    mem[BankOffset(bank)..BankOffset(bank) + META_BYTES]
  }

  function Bank(mem: seq<byte>, bank: nat): Meta
    requires |mem| == NOR_BYTES && bank <= 1
  {
    MetaOf(BankBytes(mem, bank))
  }

  /** The comparison `(int32_t)(b - a) > 0` of two 32-bit sequence numbers. */
  predicate Later(b: u32, a: u32)
  {
    0 < (b as int - a as int) % TWO32 < 0x8000_0000
  }

  /** `meta_latest`: the bank that is in force, or -1. */
  function MetaLatest(mem: seq<byte>): (bank: int)
    requires |mem| == NOR_BYTES
    ensures -1 <= bank <= 1
  {
    var a, b := Bank(mem, 0), Bank(mem, 1);
    if !MetaValid(a) && !MetaValid(b) then -1
    else if MetaValid(b) && (!MetaValid(a) || Later(b.sequence, a.sequence)) then 1 else 0
  }

  datatype Option<+T> = None | Some(value: T)

  /** `g100_meta_read`: the record in force. */
  function MetaRead(mem: seq<byte>): Option<Meta>
    requires |mem| == NOR_BYTES
  {
    var bank := MetaLatest(mem);
    if bank < 0 then None else Some(Bank(mem, bank))
  }

  /** The record that `empty_meta` builds. */
  const EMPTY_META := Meta(0, 0, 0, SLOT_NONE, 0, SLOT_NONE, 0, 0, 0, [0, 0, 0, 0, 0, 0], 0)
}
