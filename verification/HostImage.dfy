/** The host's side of the boot format (image_format.py), and its agreement with the firmware. */
module HostImage {
  import opened Bytes
  import opened Crc
  import opened BootFormat
  import opened BoardMemory
  import opened BootState
  import opened BootSafety
  import opened OtaUpdate

  datatype Result<+T> = Ok(value: T) | Err(message: string)

  datatype ImageInfo = ImageInfo(bytes: nat, generation: u32, sha256: Digest)

  /** `admit`: the payload fits the slot and its vectors fit the board. */
  predicate Admit(payload: seq<byte>, maximum: int)
  {
    && 1024 < |payload| <= maximum && |payload| % 4 == 0
    && var entry := Word(payload, 4);
       && Word(payload, 0) == INITIAL_STACK && entry % 2 == 1
       && SDRAM_BASE as int + 1024 <= entry as int - 1 < SDRAM_BASE as int + |payload|
  }

  /** The header that `pack` writes. */
  function PackedHeader(payload: seq<byte>, generation: u32, sha: Hash): Header
    requires |payload| < TWO32
  {
    var h := Header(IMAGE_MAGIC, 1, BOARD_ID, SDRAM_BASE, |payload|, Crc32(payload), generation, 0, sha(payload),
                    seq(15, i => 0), 0);
    h.(headerCrc := Crc32(HeaderBody(h)))
  }

  /** `pack` */
  function Pack(payload: seq<byte>, generation: int, maximum: int, sha: Hash): Result<seq<byte>>
  {
    if !Admit(payload, maximum) then Err("Image refused")
    else if !(0 < generation < SLOT_NONE as int) then Err("Invalid image generation")
    else if |payload| >= TWO32 then Err("Size does not fit its field")
    else Ok(HeaderBytes(PackedHeader(payload, generation, sha)) + Erased(IMAGE_HEADER_BYTES - HEADER_BYTES) + payload)
  }

  /** `unpack` */
  function Unpack(image: seq<byte>, maximum: int, sha: Hash): Result<ImageInfo>
  {
    if |image| < IMAGE_HEADER_BYTES + 1024 then Err("Truncated image") else
    var h := HeaderOf(image[..HEADER_BYTES]);
    if !(h.magic == IMAGE_MAGIC && h.format == 1 && h.board == BOARD_ID && h.loadAddress == SDRAM_BASE && h.flags == 0)
    then Err("Wrong image identity")
    else if Crc32(image[..124]) != Word(image, 124) then Err("Header CRC mismatch")
    else if |image| != IMAGE_HEADER_BYTES + h.imageBytes as int then Err("Image length mismatch") else
    var payload := image[IMAGE_HEADER_BYTES..];
    if !Admit(payload, maximum) then Err("Image refused")
    else if Crc32(payload) != h.imageCrc then Err("Payload CRC mismatch")
    else if sha(payload) != image[32..64] then Err("Payload SHA-256 mismatch")
    else Ok(ImageInfo(h.imageBytes, h.generation, sha(payload)))
  }

  /** The header of a packed image is one that `begin` accepts. */
  lemma PackedHeaderValid(payload: seq<byte>, generation: int, maximum: int, sha: Hash)
    requires Pack(payload, generation, maximum, sha).Ok?
    ensures var image := Pack(payload, generation, maximum, sha).value;
            && HeaderOf(image[..HEADER_BYTES]) == PackedHeader(payload, generation, sha)
            && (maximum <= IMAGE_MAX ==> HeaderValid(PackedHeader(payload, generation, sha)))
            && image[IMAGE_HEADER_BYTES..] == payload
  {
    hide HeaderBytes, Crc32;
    var h := PackedHeader(payload, generation, sha);
    var image := Pack(payload, generation, maximum, sha).value;
    assert image[..HEADER_BYTES] == HeaderBytes(h);
    HeaderRoundTrip(h);
    BodyIgnoresCrc(h, 0);
  }

  lemma BodyIgnoresCrc(h: Header, crc: u32)
    ensures HeaderBody(h.(headerCrc := crc)) == HeaderBody(h)
  {
  }

  /** `unpack` inverts `pack`. */
  lemma UnpackPack(payload: seq<byte>, generation: int, maximum: int, sha: Hash)
    requires Pack(payload, generation, maximum, sha).Ok?
    ensures Unpack(Pack(payload, generation, maximum, sha).value, maximum, sha)
         == Ok(ImageInfo(|payload|, generation, sha(payload)))
  {
    hide HeaderBytes, Crc32, HeaderOf, HeaderBody, HeaderValid;
    PackedHeaderValid(payload, generation, maximum, sha);
    var h := PackedHeader(payload, generation, sha);
    var image := Pack(payload, generation, maximum, sha).value;
    HeaderFields(image);
    BodyIgnoresCrc(h, 0);
  }

  /** Where the fields of a stored header lie. */
  lemma HeaderFields(image: seq<byte>)
    requires |image| >= HEADER_BYTES
    ensures var h := HeaderOf(image[..HEADER_BYTES]);
            && image[..124] == HeaderBody(h) && image[32..64] == h.sha256 && Word(image, 124) == h.headerCrc
  {
    var s := image[..HEADER_BYTES];
    hide HeaderBody;
    HeaderBytesRoundTrip(s);
    assert image[..124] == s[..124] == HeaderBytes(HeaderOf(s))[..124];
    assert image[32..64] == s[32..64];
  }

  /** The image is stored at the start of the slot. */
  predicate Installed(mem: seq<byte>, slot: u32, image: seq<byte>)
    requires |mem| == NOR_BYTES && slot <= SLOT_FACTORY
  {
    var off := SlotOffset(slot) as int;
    off + |image| <= SlotEnd(slot) && mem[off..off + |image|] == image
  }

  /** The largest payload the host allows in a slot. */
  function SlotMaximum(slot: u32): int
  {
    if slot == SLOT_FACTORY then FACTORY_BYTES - IMAGE_HEADER_BYTES else IMAGE_MAX
  }

  /**
   * The host and the firmware accept the same images: `unpack` succeeds if and only if the image, once
   * installed, passes the boot checks with the hash it claims and has nothing after its payload.
   */
  lemma UnpackAgrees(mem: seq<byte>, slot: u32, image: seq<byte>, sha: Hash)
    requires |mem| == NOR_BYTES && slot <= SLOT_FACTORY && Installed(mem, slot, image) && |image| >= HEADER_BYTES
    ensures Unpack(image, SlotMaximum(slot), sha).Ok? <==>
              && Verified(mem, slot, HeaderAt(mem, slot).generation, sha)
              && |image| == IMAGE_HEADER_BYTES + HeaderAt(mem, slot).imageBytes as int
    ensures Unpack(image, SlotMaximum(slot), sha).Ok? ==>
              Unpack(image, SlotMaximum(slot), sha).value.generation == HeaderAt(mem, slot).generation
  {
    hide HeaderOf, HeaderBody, Crc32;
    var off := SlotOffset(slot) as int;
    SubSlice(mem, off, off + |image|, 0, HEADER_BYTES);
    var h := HeaderAt(mem, slot);
    assert h == HeaderOf(image[..HEADER_BYTES]);
    HeaderFields(image);
    if |image| == IMAGE_HEADER_BYTES + h.imageBytes as int {
      SubSlice(mem, off, off + |image|, IMAGE_HEADER_BYTES, |image|);
    }
  }

  /** Every packed image boots from a slot it was packed for. */
  lemma PackedBoots(mem: seq<byte>, slot: u32, payload: seq<byte>, generation: int, sha: Hash)
    requires |mem| == NOR_BYTES && slot <= SLOT_FACTORY && Pack(payload, generation, SlotMaximum(slot), sha).Ok?
    requires Installed(mem, slot, Pack(payload, generation, SlotMaximum(slot), sha).value)
    ensures Verified(mem, slot, generation, sha)
  {
    hide HeaderOf, HeaderBytes, Crc32, Verified, Admit, HeaderValid;
    UnpackPack(payload, generation, SlotMaximum(slot), sha);
    UnpackAgrees(mem, slot, Pack(payload, generation, SlotMaximum(slot), sha).value, sha);
  }

  // ---------------------------------------------------------------- metadata

  /** `meta_pack` */
  function MetaPack(sequence: int, confirmedSlot: u32, confirmedGeneration: u32, trialSlot: u32, trialGeneration: u32,
                    attempts: int):
    Result<seq<byte>>
  {
    if !(0 < sequence < SLOT_NONE as int) then Err("Metadata sequence exhausted")
    else if !(confirmedSlot in {0, 1, SLOT_NONE} && trialSlot in {0, 1, SLOT_NONE} && 0 <= attempts <= 2)
    then Err("Invalid metadata selection")
    else Ok(MetaBytes(PackedMeta(sequence, confirmedSlot, confirmedGeneration, trialSlot, trialGeneration, attempts)))
  }

  function PackedMeta(sequence: u32, confirmedSlot: u32, confirmedGeneration: u32, trialSlot: u32,
                      trialGeneration: u32, attempts: u32): Meta
  {
    var m := Meta(META_MAGIC, 1, sequence, confirmedSlot, confirmedGeneration, trialSlot, trialGeneration, attempts, 0,
                  seq(6, i => 0), 0);
    m.(crc := Crc32(MetaBody(m)))
  }

  /** `meta_unpack`; the host keeps only some of the fields. */
  function MetaUnpack(raw: seq<byte>): Option<Meta>
  {
    if |raw| < META_BYTES then None else
    var m := MetaOf(raw[..META_BYTES]);
    if m.magic != META_MAGIC || m.format != 1 || m.sequence == 0
      || m.confirmedSlot !in {0, 1, SLOT_NONE} || m.trialSlot !in {0, 1, SLOT_NONE} || m.trialAttempts > 2
      || Crc32(raw[..60]) != m.crc
    then None else Some(m)
  }

  /** `latest_metadata`: the index of the first sector with the greatest sequence number. */
  function LatestMetadata(a: seq<byte>, b: seq<byte>): Option<(int, Meta)>
  {
    var x, y := MetaUnpack(a), MetaUnpack(b);
    if x.None? && y.None? then None
    else if y.Some? && (x.None? || y.value.sequence > x.value.sequence) then Some((1, y.value)) else Some((0, x.value))
  }

  lemma MetaBytesRoundTrip(s: seq<byte>)
    requires |s| == META_BYTES
    ensures MetaBody(MetaOf(s)) == s[..60]
  {
    var m := MetaOf(s);
    var front := s[..36];
    forall k: nat | k < 9
      ensures Decode(front)[k] == MetaFront(m)[k]
    {
      DecodedWord(front, k);
      assert Word(front, 4 * k) == Word(s, 4 * k);
    }
    assert Decode(front) == MetaFront(m);
    EncodeDecode(front);
    EncodeDecode(s[36..60]);
    assert s[..60] == front + s[36..60];
  }

  /** The host and the firmware accept the same records. */
  lemma MetaUnpackAgrees(raw: seq<byte>)
    requires |raw| >= META_BYTES
    ensures MetaUnpack(raw) == if MetaValid(MetaOf(raw[..META_BYTES])) then Some(MetaOf(raw[..META_BYTES])) else None
  {
    hide MetaOf, MetaBody, Crc32;
    MetaBytesRoundTrip(raw[..META_BYTES]);
    assert raw[..META_BYTES][..60] == raw[..60];
  }

  /**
   * The host's greatest sequence and the firmware's wrapping comparison choose the same bank if and only
   * if the two sequence numbers are less than half the number space apart.
   */
  lemma LatestAgrees(mem: seq<byte>)
    requires |mem| == NOR_BYTES && MetaLatest(mem) >= 0
    ensures var a, b := Bank(mem, 0), Bank(mem, 1);
            LatestMetadata(BankBytes(mem, 0), BankBytes(mem, 1)) == Some((MetaLatest(mem), MetaRead(mem).value))
            <==> (MetaValid(a) && MetaValid(b) ==> -0x8000_0000 <= b.sequence as int - a.sequence as int < 0x8000_0000)
  {
    hide MetaOf, MetaValid, BankBytes, MetaUnpack;
    var a, b := BankBytes(mem, 0), BankBytes(mem, 1);
    MetaUnpackAgrees(a);
    MetaUnpackAgrees(b);
    assert a[..META_BYTES] == a && b[..META_BYTES] == b;
    var d := Bank(mem, 1).sequence as int - Bank(mem, 0).sequence as int;
    assert d >= 0 ==> d % TWO32 == d;
    assert d < 0 ==> d % TWO32 == d + TWO32;
  }

  /** Blank flash with these records in its two banks. */
  function TwoRecords(a: Meta, b: Meta): (mem: seq<byte>)
    ensures |mem| == NOR_BYTES
  {
    Overwrite(Overwrite(Erased(NOR_BYTES), META0_OFFSET, MetaBytes(a)), META1_OFFSET, MetaBytes(b))
  }

  lemma TwoRecordsRead(a: Meta, b: Meta)
    ensures Bank(TwoRecords(a, b), 0) == a && Bank(TwoRecords(a, b), 1) == b
  {
    hide Overwrite, MetaBytes, MetaOf, Erased;
    var blank := Erased(NOR_BYTES);
    var first := Overwrite(blank, META0_OFFSET, MetaBytes(a));
    OverwriteFrame(blank, META0_OFFSET, MetaBytes(a));
    OverwriteFrame(first, META1_OFFSET, MetaBytes(b));
    SliceOutside(first, TwoRecords(a, b), META1_OFFSET, META1_OFFSET + META_BYTES, META0_OFFSET,
        META0_OFFSET + META_BYTES);
    MetaRoundTrip(a);
    MetaRoundTrip(b);
  }

  /** Records 1 and 0x90000000: the firmware boots by the first, the host reports the second. */
  lemma LatestDisagrees()
    ensures var a, b := PackedMeta(1, 0, 5, SLOT_NONE, 0, 0), PackedMeta(0x9000_0000, 1, 6, SLOT_NONE, 0, 0);
            var mem := TwoRecords(a, b);
            && MetaRead(mem) == Some(a)
            && LatestMetadata(BankBytes(mem, 0), BankBytes(mem, 1)) == Some((1, b))
  {
    hide TwoRecords, MetaBody, MetaOf, Crc32, BankBytes, MetaUnpack;
    var a, b := PackedMeta(1, 0, 5, SLOT_NONE, 0, 0), PackedMeta(0x9000_0000, 1, 6, SLOT_NONE, 0, 0);
    var mem := TwoRecords(a, b);
    TwoRecordsRead(a, b);
    PackedMetaValid(1, 0, 5);
    PackedMetaValid(0x9000_0000, 1, 6);
    MetaUnpackAgrees(BankBytes(mem, 0));
    MetaUnpackAgrees(BankBytes(mem, 1));
    assert BankBytes(mem, 0)[..META_BYTES] == BankBytes(mem, 0) && BankBytes(mem, 1)[..META_BYTES] == BankBytes(mem, 1);
  }

  lemma PackedMetaValid(sequence: u32, slot: u32, generation: u32)
    requires sequence != 0 && slot <= 1
    ensures MetaValid(PackedMeta(sequence, slot, generation, SLOT_NONE, 0, 0))
    ensures PackedMeta(sequence, slot, generation, SLOT_NONE, 0, 0).sequence == sequence
  {
    hide MetaBody, Crc32;
    MetaBodyIgnoresCrc(PackedMeta(sequence, slot, generation, SLOT_NONE, 0, 0), 0);
  }

  /** On every run from a provisioned state the host sees the record in force. */
  lemma HostSeesRecord(mem: seq<byte>, log: seq<Meta>, sha: Hash)
    requires |mem| == NOR_BYTES && Safe(mem, log, sha)
    ensures LatestMetadata(BankBytes(mem, 0), BankBytes(mem, 1)) == Some((MetaLatest(mem), log[|log| - 1]))
  {
    hide MetaOf, MetaValid, BankBytes, LatestMetadata, ImagesPresent, History;
    LatestAgrees(mem);
  }

  /** A board on which the host has installed one image and one record is provisioned. */
  lemma ProvisioningIsSafe(mem: seq<byte>, slot: u32, payload: seq<byte>, generation: int, sequence: int, sha: Hash)
    requires |mem| == NOR_BYTES && slot <= 1
    requires Pack(payload, generation, IMAGE_MAX, sha).Ok?
    requires Installed(mem, slot, Pack(payload, generation, IMAGE_MAX, sha).value)
    requires MetaPack(sequence, slot, generation, SLOT_NONE, 0, 0) == Ok(BankBytes(mem, 0)) && !MetaValid(Bank(mem, 1))
    ensures MetaRead(mem).Some? && Safe(mem, [MetaRead(mem).value], sha)
  {
    hide MetaOf, MetaBytes, BankBytes, Verified, Pack, Installed, MetaBody, Crc32;
    var m := PackedMeta(sequence, slot, generation, SLOT_NONE, 0, 0);
    MetaRoundTrip(m);
    MetaBodyIgnoresCrc(m, 0);
    PackedBoots(mem, slot, payload, generation, sha);
  }

  lemma MetaBodyIgnoresCrc(m: Meta, crc: u32)
    ensures MetaBody(m.(crc := crc)) == MetaBody(m)
  {
  }
}
