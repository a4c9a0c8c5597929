/**
 * The external NOR flash and its guarded wrappers (board_memory.c). An erase sets a 4 KiB sector
 * to 0xFF; a program ANDs at most 256 bytes inside one page. Either may be cut short by a hardware
 * error or by the loss of power.
 */
module BoardMemory {
  import opened Bytes
  import opened BootFormat
  import opened ConfigFormat

  const SECTOR := 0x1000
  const PAGE := 0x100

  // ---------------------------------------------------------------- address guards

  /** The guard of the metadata wrappers; `off+size` is a 32-bit sum and may wrap. */
  predicate WritableMetadataRange(off: u32, size: u32)
  {
    var end := (off as int + size as int) % TWO32;
    && size != 0
    && ((off >= META0_OFFSET && end <= META0_OFFSET + SECTOR) || (off >= META1_OFFSET && end <= META1_OFFSET + SECTOR))
  }

  predicate WritableImageRange(off: u32, size: u32)
  {
    && size != 0
    && ((SLOT_A_OFFSET <= off < SLOT_A_OFFSET + IMAGE_SLOT_BYTES
          && size as int <= SLOT_A_OFFSET + IMAGE_SLOT_BYTES - off)
        || (SLOT_B_OFFSET <= off < SLOT_B_OFFSET + IMAGE_SLOT_BYTES
              && size as int <= SLOT_B_OFFSET + IMAGE_SLOT_BYTES - off))
  }

  predicate WritableConfigRange(off: u32, size: u32)
  {
    && size != 0
    && ((CONFIG0_OFFSET <= off < CONFIG0_OFFSET + CONFIG_BANK_BYTES
          && size as int <= CONFIG0_OFFSET + CONFIG_BANK_BYTES - off)
        || (CONFIG1_OFFSET <= off < CONFIG1_OFFSET + CONFIG_BANK_BYTES
              && size as int <= CONFIG1_OFFSET + CONFIG_BANK_BYTES - off))
  }

  /** [off, off+size) is a nonempty part of [lo, lo+bytes). */
  predicate Within(off: int, size: int, lo: int, bytes: int)
  {
    0 < size && lo <= off && off + size <= lo + bytes
  }

  /** The bytes of one of the two metadata sectors. */
  predicate MetadataRange(off: int, size: int)
  {
    Within(off, size, META0_OFFSET, SECTOR) || Within(off, size, META1_OFFSET, SECTOR)
  }

  /** A nonempty program request that stays inside one page. */
  predicate OnePage(off: u32, data: seq<byte>)
  {
    0 < |data| && off as int % PAGE + |data| <= PAGE
  }

  /** The image and settings guards admit exactly the ranges inside one slot or one bank. */
  lemma GuardsExact(off: u32, size: u32)
    ensures WritableImageRange(off, size)
         <==> Within(off, size, SLOT_A_OFFSET, IMAGE_SLOT_BYTES) || Within(off, size, SLOT_B_OFFSET, IMAGE_SLOT_BYTES)
    ensures WritableConfigRange(off, size)
         <==> Within(off, size, CONFIG0_OFFSET, CONFIG_BANK_BYTES)
              || Within(off, size, CONFIG1_OFFSET, CONFIG_BANK_BYTES)
  {
  }

  /** The 32-bit sum `off+size` wraps to an address the guard compares as below the end of a bank. */
  predicate WrapsBelow(off: u32, size: u32)
  {
    var end := off as int + size as int - TWO32;
    0 <= end && ((off >= META0_OFFSET && end <= META0_OFFSET + SECTOR)
        || (off >= META1_OFFSET && end <= META1_OFFSET + SECTOR))
  }

  /** The metadata guard is exact if and only if the sum does not wrap in this way. */
  lemma MetadataGuardExact(off: u32, size: u32)
    ensures (WritableMetadataRange(off, size)
             <==> MetadataRange(off, size))
       <==> !WrapsBelow(off, size)
  {
  }

  /** The last page of the address space is a range the guard wrongly admits. */
  lemma MetadataGuardWraps()
    ensures WritableMetadataRange(0xFFFF_FF00, 0x100) && WrapsBelow(0xFFFF_FF00, 0x100)
    ensures !MetadataRange(0xFFFF_FF00, 0x100)
  {
  }

  // ---------------------------------------------------------------- flash contents

  /** `after` is `before` with the bytes at `at` replaced by `data`. */
  function Overwrite(before: seq<byte>, at: nat, data: seq<byte>): (after: seq<byte>)
    requires at + |data| <= |before|
    ensures |after| == |before|
  {
    before[..at] + data + before[at + |data|..]
  }

  lemma OverwriteFrame(before: seq<byte>, at: nat, data: seq<byte>)
    requires at + |data| <= |before|
    ensures SameOutside(before, Overwrite(before, at, data), at, at + |data|)
    ensures Overwrite(before, at, data)[at..at + |data|] == data
  {
  }

  /** The contents of `cells` after `data` has been programmed over them. */
  function Programmed(cells: seq<byte>, data: seq<byte>): (r: seq<byte>)
    requires |cells| == |data|
    ensures |r| == |data|
  {
    seq(|data|, i requires 0 <= i < |data| => And(cells[i], data[i]))
  }

  lemma ProgramErased(cells: seq<byte>, data: seq<byte>)
    requires |cells| == |data| && cells == Erased(|data|)
    ensures Programmed(cells, data) == data
  {
    forall i | 0 <= i < |data|
      ensures Programmed(cells, data)[i] == data[i]
    {
      AndErased(data[i]);
    }
  }

  /** Nothing outside [lo, hi) changed. */
  predicate SameOutside(before: seq<byte>, after: seq<byte>, lo: nat, hi: nat)
    requires lo <= hi <= |before|
  {
    |after| == |before| && after[..lo] == before[..lo] && after[hi..] == before[hi..]
  }

  lemma CellOutside(before: seq<byte>, after: seq<byte>, lo: nat, hi: nat, i: nat)
    requires lo <= hi <= |before| && SameOutside(before, after, lo, hi)
    requires i < |before| && (i < lo || hi <= i)
    ensures after[i] == before[i]
  {
    if i < lo {
      assert after[..lo][i] == before[..lo][i];
    } else {
      assert after[hi..][i - hi] == before[hi..][i - hi];
    }
  }

  lemma SliceOutside(before: seq<byte>, after: seq<byte>, lo: nat, hi: nat, a: nat, b: nat)
    requires lo <= hi <= |before| && SameOutside(before, after, lo, hi)
    requires a <= b <= |before| && (b <= lo || hi <= a)
    ensures after[a..b] == before[a..b]
  {
    forall i | a <= i < b
      ensures after[i] == before[i]
    {
      CellOutside(before, after, lo, hi, i);
    }
  }

  lemma SameOutsideTrans(m0: seq<byte>, m1: seq<byte>, m2: seq<byte>, lo: nat, hi: nat, lo': nat, hi': nat)
    requires lo <= lo' <= hi' <= hi <= |m0|
    requires SameOutside(m0, m1, lo, hi) && SameOutside(m1, m2, lo', hi')
    ensures SameOutside(m0, m2, lo, hi)
  {
    SliceOutside(m1, m2, lo', hi', 0, lo);
    SliceOutside(m1, m2, lo', hi', hi, |m0|);
    FromStart(m1, m2, lo);
    ToEnd(m1, m2, hi);
  }

  lemma FromStart(a: seq<byte>, b: seq<byte>, k: nat)
    requires k <= |a| && k <= |b| && a[0..k] == b[0..k]
    ensures a[..k] == b[..k]
  {
  }

  lemma ToEnd(a: seq<byte>, b: seq<byte>, k: nat)
    requires k <= |a| == |b| && a[k..|a|] == b[k..|b|]
    ensures a[k..] == b[k..]
  {
  }

  /**
   * The one assumption about interrupted erases: when the erase of a sector that starts a record is
   * cut short, the record there is either untouched or no longer passes its checks.
   */
  predicate TornErase(before: seq<byte>, after: seq<byte>, at: nat)
    requires |before| == |after| == NOR_BYTES
  {
    && (forall bank: nat | bank <= 1 && at == BankOffset(bank) ::
          BankBytes(after, bank) == BankBytes(before, bank) || !MetaValid(Bank(after, bank)))
    && (forall slot: u32 | slot <= SLOT_FACTORY && at == SlotOffset(slot) as int ::
          HeaderAt(after, slot) == HeaderAt(before, slot) || !ImageHeaderRead(after, slot))
    && (forall bank: nat | bank <= 1 && at == ConfigOffset(bank) ::
          ConfigRecord(after, bank) == ConfigRecord(before, bank) || ConfigRecord(after, bank) == None)
  }

  /**
   * Nothing but settings banks, boot records and slots changed: not stage 0, the factory image or the
   * provisioned key.
   */
  predicate Protected(before: seq<byte>, after: seq<byte>)
    requires |before| == NOR_BYTES
  {
    && |after| == NOR_BYTES && after[..CONFIG0_OFFSET] == before[..CONFIG0_OFFSET]
    && after[CONFIG1_OFFSET + CONFIG_BANK_BYTES..META0_OFFSET]
          == before[CONFIG1_OFFSET + CONFIG_BANK_BYTES..META0_OFFSET]
    && after[META1_OFFSET + SECTOR..SLOT_A_OFFSET] == before[META1_OFFSET + SECTOR..SLOT_A_OFFSET]
    && after[SlotEnd(1)..] == before[SlotEnd(1)..]
  }

  /** No byte of the settings banks changed. */
  predicate SettingsUntouched(before: seq<byte>, after: seq<byte>)
    requires |before| == |after| == NOR_BYTES
  {
    var end := CONFIG1_OFFSET + CONFIG_BANK_BYTES;
    after[CONFIG0_OFFSET..end] == before[CONFIG0_OFFSET..end]
  }

  /** Nothing below the boot records changed. */
  lemma BelowRecords(before: seq<byte>, after: seq<byte>)
    requires |before| == |after| == NOR_BYTES && Protected(before, after) && SettingsUntouched(before, after)
    ensures after[..META0_OFFSET] == before[..META0_OFFSET]
  {
    var settings := CONFIG1_OFFSET + CONFIG_BANK_BYTES;
    JoinSlices(before, 0, CONFIG0_OFFSET, settings);
    JoinSlices(before, 0, settings, META0_OFFSET);
    JoinSlices(after, 0, CONFIG0_OFFSET, settings);
    JoinSlices(after, 0, settings, META0_OFFSET);
    FromStart(before, after, META0_OFFSET);
  }

  /** A change inside one of the three areas. */
  lemma ProtectedBy(before: seq<byte>, after: seq<byte>, lo: nat, hi: nat)
    requires |before| == NOR_BYTES && lo <= hi <= NOR_BYTES && SameOutside(before, after, lo, hi)
    requires (CONFIG0_OFFSET <= lo && hi <= CONFIG1_OFFSET + CONFIG_BANK_BYTES)
          || (META0_OFFSET <= lo && hi <= META1_OFFSET + SECTOR) || (SLOT_A_OFFSET <= lo && hi <= SlotEnd(1))
    ensures Protected(before, after)
  {
    SliceOutside(before, after, lo, hi, 0, CONFIG0_OFFSET);
    SliceOutside(before, after, lo, hi, CONFIG1_OFFSET + CONFIG_BANK_BYTES, META0_OFFSET);
    SliceOutside(before, after, lo, hi, META1_OFFSET + SECTOR, SLOT_A_OFFSET);
    SliceOutside(before, after, lo, hi, SlotEnd(1), NOR_BYTES);
    FromStart(before, after, CONFIG0_OFFSET);
    ToEnd(before, after, SlotEnd(1));
  }

  lemma ProtectedTrans(m0: seq<byte>, m1: seq<byte>, m2: seq<byte>)
    requires |m0| == |m1| == NOR_BYTES && Protected(m0, m1) && Protected(m1, m2)
    ensures Protected(m0, m2)
  {
  }

  /** Nothing but settings banks and boot records changed. */
  predicate OnlyRecords(before: seq<byte>, after: seq<byte>)
    requires |before| == NOR_BYTES
  {
    && |after| == NOR_BYTES && after[..CONFIG0_OFFSET] == before[..CONFIG0_OFFSET]
    && after[CONFIG1_OFFSET + CONFIG_BANK_BYTES..META0_OFFSET]
          == before[CONFIG1_OFFSET + CONFIG_BANK_BYTES..META0_OFFSET]
    && after[META1_OFFSET + SECTOR..] == before[META1_OFFSET + SECTOR..]
  }

  lemma OnlyRecordsBy(before: seq<byte>, after: seq<byte>, lo: nat, hi: nat)
    requires |before| == NOR_BYTES && lo <= hi <= NOR_BYTES && SameOutside(before, after, lo, hi)
    requires (CONFIG0_OFFSET <= lo && hi <= CONFIG1_OFFSET + CONFIG_BANK_BYTES)
          || (META0_OFFSET <= lo && hi <= META1_OFFSET + SECTOR)
    ensures OnlyRecords(before, after)
  {
    SliceOutside(before, after, lo, hi, 0, CONFIG0_OFFSET);
    SliceOutside(before, after, lo, hi, CONFIG1_OFFSET + CONFIG_BANK_BYTES, META0_OFFSET);
    SliceOutside(before, after, lo, hi, META1_OFFSET + SECTOR, NOR_BYTES);
    FromStart(before, after, CONFIG0_OFFSET);
    ToEnd(before, after, META1_OFFSET + SECTOR);
  }

  lemma OnlyRecordsTrans(m0: seq<byte>, m1: seq<byte>, m2: seq<byte>)
    requires |m0| == |m1| == NOR_BYTES && OnlyRecords(m0, m1) && OnlyRecords(m1, m2)
    ensures OnlyRecords(m0, m2)
  {
  }

  lemma NoRecordChanged(mem: seq<byte>)
    requires |mem| == NOR_BYTES
    ensures OnlyRecords(mem, mem)
  {
  }

  lemma OnlyRecordsProtected(before: seq<byte>, after: seq<byte>)
    requires |before| == NOR_BYTES && OnlyRecords(before, after)
    ensures Protected(before, after)
  {
    OnlyRecordsRange(before, after);
    SliceOutside(before, after, CONFIG0_OFFSET, META1_OFFSET + SECTOR, META1_OFFSET + SECTOR, SLOT_A_OFFSET);
    SliceOutside(before, after, CONFIG0_OFFSET, META1_OFFSET + SECTOR, SlotEnd(1), NOR_BYTES);
    ToEnd(before, after, SlotEnd(1));
  }

  /** Records and settings lie together below the slots. */
  lemma OnlyRecordsRange(before: seq<byte>, after: seq<byte>)
    requires |before| == NOR_BYTES && OnlyRecords(before, after)
    ensures SameOutside(before, after, CONFIG0_OFFSET, META1_OFFSET + SECTOR)
  {
  }

  /** No byte of slot A or B changed, if `slot` is one of them. */
  predicate SlotUntouched(before: seq<byte>, after: seq<byte>, slot: u32)
    requires |before| == |after| == NOR_BYTES
  {
    slot <= 1 ==> after[SlotOffset(slot)..SlotEnd(slot)] == before[SlotOffset(slot)..SlotEnd(slot)]
  }

  /** A change elsewhere leaves a slot alone. */
  lemma SlotUntouchedBy(before: seq<byte>, after: seq<byte>, lo: nat, hi: nat, slot: u32)
    requires |before| == |after| == NOR_BYTES && lo <= hi <= NOR_BYTES && SameOutside(before, after, lo, hi)
    requires slot <= 1 ==> hi <= SlotOffset(slot) as int || SlotEnd(slot) <= lo
    ensures SlotUntouched(before, after, slot)
  {
    if slot <= 1 {
      SliceOutside(before, after, lo, hi, SlotOffset(slot), SlotEnd(slot));
    }
  }

  lemma ErasedWord(s: seq<byte>, i: nat)
    requires i + 4 <= |s| && s[i..i + 4] == Erased(4)
    ensures Word(s, i) == 0xFFFF_FFFF
  {
    assert s[i] == s[i..i + 4][0] && s[i + 1] == s[i..i + 4][1] && s[i + 2] == s[i..i + 4][2]
        && s[i + 3] == s[i..i + 4][3];
  }

  /** A sector that reads as erased holds no record, so a completed erase satisfies the assumption. */
  lemma ErasedHoldsNoRecord(before: seq<byte>, after: seq<byte>, at: nat)
    requires |before| == |after| == NOR_BYTES && at + SECTOR <= NOR_BYTES
    requires after[at..at + SECTOR] == Erased(SECTOR)
    ensures TornErase(before, after, at)
  {
    assert after[at..at + 4] == after[at..at + SECTOR][..4] == Erased(4);
    forall bank: nat | bank <= 1 && at == BankOffset(bank)
      ensures !MetaValid(Bank(after, bank))
    {
      assert BankBytes(after, bank)[..4] == after[at..at + 4];
      ErasedWord(BankBytes(after, bank), 0);
    }
    forall slot: u32 | slot <= SLOT_FACTORY && at == SlotOffset(slot) as int
      ensures !ImageHeaderRead(after, slot)
    {
      SubSlice(after, at, at + HEADER_BYTES, 0, 4);
      ErasedWord(after[at..at + HEADER_BYTES], 0);
    }
    forall bank: nat | bank <= 1 && at == ConfigOffset(bank)
      ensures ConfigRecord(after, bank) == None
    {
      var b := ConfigBank(after, bank)[..CONFIG_HEADER_BYTES];
      SubSlice(after, at, at + CONFIG_BANK_BYTES, 0, CONFIG_HEADER_BYTES);
      SubSlice(after, at, at + CONFIG_HEADER_BYTES, 0, 4);
      ErasedWord(b, 0);
    }
  }

  lemma TornNothing(mem: seq<byte>, at: nat)
    requires |mem| == NOR_BYTES
    ensures TornErase(mem, mem, at)
  {
  }

  /** What an erase of the sector at `at` may leave behind, reporting `ok`. */
  predicate EraseEffect(before: seq<byte>, after: seq<byte>, at: nat, ok: bool)
    requires |before| == NOR_BYTES && at + SECTOR <= NOR_BYTES
  {
    && SameOutside(before, after, at, at + SECTOR)
    && TornErase(before, after, at)
    && (ok ==> after[at..at + SECTOR] == Erased(SECTOR))
  }

  /** What programming the first `done` bytes of `data` at `at` leaves behind. */
  function ProgramEffect(before: seq<byte>, at: nat, data: seq<byte>, done: nat): (after: seq<byte>)
    requires at + |data| <= |before| && done <= |data|
    ensures |after| == |before|
  {
    Overwrite(before, at, Programmed(before[at..at + done], data[..done]))
  }

  /**
   * What a program operation on powered flash may leave and report: without `reliable`, a failure may be
   * reported for data that landed.
   */
  predicate ProgramOutcome(before: seq<byte>, after: seq<byte>, at: nat, data: seq<byte>, ok: bool, done: nat,
                          reliable: bool)
    requires at + |data| <= |before| && done <= |data|
  {
    after == ProgramEffect(before, at, data, done) && (reliable ==> ok && done == |data|)
  }

  lemma FreeCells(mem: seq<byte>, at: nat, room: nat, count: nat)
    requires at + room <= |mem| && mem[at..at + room] == Erased(room) && count <= room
    ensures mem[at..at + count] == Erased(count)
    ensures mem[at + count..at + room] == Erased(room - count)
  {
    SubSlice(mem, at, at + room, 0, count);
    SubSlice(mem, at, at + room, count, room);
    assert Erased(room)[..count] == Erased(count);
    assert Erased(room)[count..] == Erased(room - count);
  }

  /** Programming erased cells stores the data. */
  lemma ProgramFree(before: seq<byte>, at: nat, data: seq<byte>, done: nat)
    requires at + |data| <= |before| && done <= |data| && before[at..at + |data|] == Erased(|data|)
    ensures ProgramEffect(before, at, data, done) == Overwrite(before, at, data[..done])
  {
    hide Programmed;
    FreeCells(before, at, |data|, done);
    ProgramErased(before[at..at + done], data[..done]);
  }

  lemma OverwriteInside(before: seq<byte>, at: nat, data: seq<byte>, lo: nat, hi: nat)
    requires lo <= at && at + |data| <= hi <= |before|
    ensures SameOutside(before, Overwrite(before, at, data), lo, hi)
  {
    OverwriteFrame(before, at, data);
    SameOutsideTrans(before, before, Overwrite(before, at, data), lo, hi, at, at + |data|);
  }

  /** An erased word is a magic number of which nothing has been programmed. */
  lemma NothingProgrammed(magic: u32)
    ensures Erased(4) == WordBytes(magic)[..0] + Erased(4)
  {
  }

  lemma NothingWritten(mem: seq<byte>, at: nat)
    requires at <= |mem|
    ensures Overwrite(mem, at, []) == mem
  {
  }

  /** An erase stays inside any range that contains its sector. */
  lemma ErasedInside(before: seq<byte>, after: seq<byte>, at: nat, ok: bool, lo: nat, hi: nat)
    requires |before| == NOR_BYTES && lo <= at && at + SECTOR <= hi <= NOR_BYTES
    requires EraseEffect(before, after, at, ok)
    ensures SameOutside(before, after, lo, hi)
  {
    hide TornErase;
    SameOutsideTrans(before, before, after, lo, hi, at, at + SECTOR);
  }

  lemma UnchangedInside(mem: seq<byte>, lo: nat, hi: nat)
    requires lo <= hi <= |mem|
    ensures SameOutside(mem, mem, lo, hi)
  {
  }

  /**
   * The records that have been in force, oldest first: whenever the flash changes and a different
   * record takes effect, it is appended.
   */
  function Witness(committed: seq<Meta>, mem: seq<byte>): (r: seq<Meta>)
    requires |mem| == NOR_BYTES
  {
    var now := MetaRead(mem);
    if now.None? || (committed != [] && committed[|committed| - 1] == now.value) then committed
    else committed + [now.value]
  }

  /** The history ends with the record in force. */
  predicate Current(committed: seq<Meta>, mem: seq<byte>)
    requires |mem| == NOR_BYTES
  {
    var now := MetaRead(mem);
    now.Some? ==> committed != [] && committed[|committed| - 1] == now.value
  }

  /**
   * The flash device. `powered` turns false when power is lost: from then on no operation has any
   * effect, and the RAM of the running program is worthless, since only a reset can follow.
   * `reliable` says that the environment injects no fault.
   */
  class Nor {
    const mem: array<byte>
    var powered: bool
    var reliable: bool
    ghost var committed: seq<Meta>
    /** Some byte has been programmed a second time without an erase in between. */
    ghost var twice: bool

    ghost predicate Valid()
      reads this, mem
    {
      mem.Length == NOR_BYTES && Current(committed, mem[..])
    }

    function Flash(): (s: seq<byte>)
      reads mem
      requires mem.Length == NOR_BYTES
      ensures |s| == NOR_BYTES
    {
      mem[..]
    }

    constructor (contents: seq<byte>)
      requires |contents| == NOR_BYTES
      ensures Valid() && fresh(mem) && Flash() == contents && powered && !reliable
      ensures committed == Witness([], contents) && !twice
    {
      hide MetaRead;
      mem := new byte[|contents|](i requires 0 <= i < |contents| => contents[i]);
      powered, reliable := true, false;
      committed, twice := Witness([], contents), false;
      new;
      assert mem[..] == contents;
    }

    /** Replaces the bytes at `at`. */
    method Store(at: nat, data: seq<byte>)
      requires Valid() && at + |data| <= NOR_BYTES
      modifies mem, this`committed
      ensures Flash() == Overwrite(old(Flash()), at, data)
      ensures Valid() && committed == Witness(old(committed), Flash())
    {
      hide MetaRead;
      forall i | 0 <= i < |data| {
        mem[at + i] := data[i];
      }
      assert mem[..] == Overwrite(old(mem[..]), at, data);
      committed := Witness(committed, mem[..]);
    }

    /** `erase_sector`. The controller rejects an address past the device. */
    method EraseSector(off: u32) returns (ok: bool)
      requires Valid() && off % SECTOR == 0
      modifies mem, this`powered, this`committed
      ensures !old(powered) || off as int + SECTOR > NOR_BYTES ==>
                !ok && Flash() == old(Flash()) && powered == old(powered) && committed == old(committed)
      ensures off as int + SECTOR <= NOR_BYTES && old(powered) ==> EraseEffect(old(Flash()), Flash(), off, ok)
      ensures off as int + SECTOR <= NOR_BYTES && old(powered) && reliable ==> ok && powered
      ensures Valid() && committed == Witness(old(committed), Flash())
    {
      hide TornErase, MetaRead;
      if !powered || off as int + SECTOR > NOR_BYTES {
        return false;
      }
      ghost var before := mem[..];
      var torn: bool := *;
      if torn && !reliable {
        ok := false;
        powered := *;
        var residue: seq<byte> := *;
        if |residue| == SECTOR && TornErase(mem[..], Overwrite(mem[..], off, residue), off) {
          Store(off, residue);
          OverwriteFrame(before, off, residue);
        } else {
          TornNothing(before, off);
        }
      } else {
        ok := true;
        Store(off, Erased(SECTOR));
        OverwriteFrame(before, off, Erased(SECTOR));
        ErasedHoldsNoRecord(before, mem[..], off);
        powered := *;
        powered := powered || reliable;
      }
    }

    /**
     * `program_page`: programs `done` bytes of the data. After a hardware error the report may be
     * success although bytes are missing.
     */
    method ProgramPage(off: u32, data: seq<byte>) returns (ok: bool, ghost done: nat)
      requires Valid() && off as int % PAGE + |data| <= PAGE
      modifies mem, this`powered, this`committed, this`twice
      ensures done <= |data|
      ensures off as int + |data| <= NOR_BYTES && old(Flash())[off..off as int + |data|] == Erased(|data|) ==>
                twice == old(twice)
      ensures !old(powered) || off as int + |data| > NOR_BYTES ==>
                !ok && done == 0 && powered == old(powered) && Flash() == old(Flash())
      ensures off as int + |data| <= NOR_BYTES && old(powered) ==>
                ProgramOutcome(old(Flash()), Flash(), off, data, ok, done, reliable) && (reliable ==> powered)
      ensures Valid() && committed == Witness(old(committed), Flash())
    {
      hide MetaRead, Programmed, And;
      if !powered || off as int + |data| > NOR_BYTES {
        done := 0;
        return false, done;
      }
      twice := twice || mem[off..off as int + |data|] != Erased(|data|);
      var n: int := *;
      n := if reliable || n < 0 || n > |data| then |data| else n;
      Store(off, Programmed(mem[off..off as int + n], data[..n]));
      ok, powered := *, *;
      ok, powered := ok || reliable, powered || reliable;
      done := n;
    }

    /** `g100_qspi_sector_erase`: erases one of the two metadata sectors and nothing else. */
    method MetadataErase(off: u32) returns (ok: bool)
      requires Valid()
      modifies mem, this`powered, this`committed
      ensures (!ok && Flash() == old(Flash()))
           || ((off == META0_OFFSET || off == META1_OFFSET) && EraseEffect(old(Flash()), Flash(), off, ok))
      ensures (off == META0_OFFSET || off == META1_OFFSET) && old(powered) && reliable ==> ok && powered
      ensures Valid() && committed == Witness(old(committed), Flash())
    {
      hide EraseEffect, MetaRead;
      ok := false;
      if off % SECTOR == 0 && WritableMetadataRange(off, SECTOR) {
        ok := EraseSector(off);
      }
    }

    /** `g100_qspi_image_sector_erase`: erases one sector of slot A or B and nothing else. */
    method ImageErase(off: u32) returns (ok: bool)
      requires Valid()
      modifies mem, this`powered, this`committed
      ensures (!ok && Flash() == old(Flash()))
           || (off % SECTOR == 0 && WritableImageRange(off, SECTOR) && EraseEffect(old(Flash()), Flash(), off, ok))
      ensures off % SECTOR == 0 && WritableImageRange(off, SECTOR) && old(powered) && reliable ==> ok && powered
      ensures Valid() && committed == Witness(old(committed), Flash())
    {
      hide EraseEffect, MetaRead;
      ok := false;
      if off % SECTOR == 0 && WritableImageRange(off, SECTOR) {
        ok := EraseSector(off);
      }
    }

    /** `g100_qspi_config_sector_erase`: erases one sector of a settings bank and nothing else. */
    method ConfigErase(off: u32) returns (ok: bool)
      requires Valid()
      modifies mem, this`powered, this`committed
      ensures (!ok && Flash() == old(Flash()))
           || (off % SECTOR == 0 && WritableConfigRange(off, SECTOR) && EraseEffect(old(Flash()), Flash(), off, ok))
      ensures off % SECTOR == 0 && WritableConfigRange(off, SECTOR) && old(powered) && reliable ==> ok && powered
      ensures Valid() && committed == Witness(old(committed), Flash())
    {
      hide EraseEffect, MetaRead;
      ok := false;
      if off % SECTOR == 0 && WritableConfigRange(off, SECTOR) {
        ok := EraseSector(off);
      }
    }

    /** `g100_qspi_program`: programs part of a page of the metadata sectors. */
    method MetadataProgram(off: u32, data: seq<byte>) returns (ok: bool, ghost done: nat)
      requires Valid()
      modifies mem, this`powered, this`committed, this`twice
      ensures done <= |data|
      ensures off as int + |data| <= NOR_BYTES && old(Flash())[off..off as int + |data|] == Erased(|data|) ==>
                twice == old(twice)
      ensures (!ok && done == 0 && Flash() == old(Flash()))
           || (OnePage(off, data) && MetadataRange(off, |data|)
                 && Flash() == ProgramEffect(old(Flash()), off, data, done))
      ensures OnePage(off, data) && MetadataRange(off, |data|) && old(powered) && reliable ==>
                ok && powered && done == |data|
      ensures Valid() && committed == Witness(old(committed), Flash())
    {
      hide ProgramEffect, MetaRead;
      ok, done := false, 0;
      if OnePage(off, data) && WritableMetadataRange(off, |data|) {
        ok, done := ProgramPage(off, data);
      }
    }

    /** `g100_qspi_image_program`: programs part of a page of slot A or B. */
    method ImageProgram(off: u32, data: seq<byte>) returns (ok: bool, ghost done: nat)
      requires Valid()
      modifies mem, this`powered, this`committed, this`twice
      ensures done <= |data|
      ensures off as int + |data| <= NOR_BYTES && old(Flash())[off..off as int + |data|] == Erased(|data|) ==>
                twice == old(twice)
      ensures (!ok && done == 0 && Flash() == old(Flash()))
           || (OnePage(off, data) && WritableImageRange(off, |data|)
                 && Flash() == ProgramEffect(old(Flash()), off, data, done))
      ensures OnePage(off, data) && WritableImageRange(off, |data|) && old(powered) && reliable ==>
                ok && powered && done == |data|
      ensures Valid() && committed == Witness(old(committed), Flash())
    {
      hide ProgramEffect, MetaRead;
      ok, done := false, 0;
      if OnePage(off, data) && WritableImageRange(off, |data|) {
        ok, done := ProgramPage(off, data);
      }
    }

    /** `g100_qspi_config_program`: programs part of a page of a settings bank. */
    method ConfigProgram(off: u32, data: seq<byte>) returns (ok: bool, ghost done: nat)
      requires Valid()
      modifies mem, this`powered, this`committed, this`twice
      ensures done <= |data|
      ensures off as int + |data| <= NOR_BYTES && old(Flash())[off..off as int + |data|] == Erased(|data|) ==>
                twice == old(twice)
      ensures (!ok && done == 0 && Flash() == old(Flash()))
           || (OnePage(off, data) && WritableConfigRange(off, |data|)
                 && Flash() == ProgramEffect(old(Flash()), off, data, done))
      ensures OnePage(off, data) && WritableConfigRange(off, |data|) && old(powered) && reliable ==>
                ok && powered && done == |data|
      ensures Valid() && committed == Witness(old(committed), Flash())
    {
      hide ProgramEffect, MetaRead;
      ok, done := false, 0;
      if OnePage(off, data) && WritableConfigRange(off, |data|) {
        ok, done := ProgramPage(off, data);
      }
    }
  }
}
