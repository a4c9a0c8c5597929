/** Writing the boot metadata (boot_state.c): atomic across any hardware error or power cut. */
module BootState {
  import opened Bytes
  import opened Crc
  import opened BootFormat
  import opened BoardMemory

  /** The sequence number the next record gets; 0 means that the numbers are exhausted. */
  function NextSequence(mem: seq<byte>): u32
    requires |mem| == NOR_BYTES
  {
    var now := MetaRead(mem);
    if now.None? then 1 else (now.value.sequence + 1) % TWO32
  }

  /** The record that `g100_meta_write` builds from its argument before touching the flash. */
  function Stamped(mem: seq<byte>, m: Meta): Meta
    requires |mem| == NOR_BYTES
  {
    var s := m.(magic := META_MAGIC, format := 1, sequence := NextSequence(mem));
    if s.sequence == 0 then s else s.(crc := Crc32(MetaBody(s)))
  }

  /** Two readable banks hold consecutive records. */
  predicate BanksAdjacent(mem: seq<byte>)
    requires |mem| == NOR_BYTES
  {
    var a, b := Bank(mem, 0), Bank(mem, 1);
    MetaValid(a) && MetaValid(b) ==> a.sequence as int - b.sequence as int in {-1, 1}
  }

  /** The bank `g100_meta_write` overwrites: never the one in force. */
  function Target(mem: seq<byte>): (bank: nat)
    requires |mem| == NOR_BYTES
    ensures bank <= 1 && bank as int != MetaLatest(mem)
  {
    if MetaLatest(mem) == 0 then 1 else 0
  }

  /** The other bank is untouched, and this one holds what it held or nothing readable. */
  predicate TargetLost(before: seq<byte>, after: seq<byte>, bank: nat)
    requires |before| == |after| == NOR_BYTES && bank <= 1
  {
    && BankBytes(after, 1 - bank) == BankBytes(before, 1 - bank)
    && (BankBytes(after, bank) == BankBytes(before, bank) || !MetaValid(Bank(after, bank)))
  }

  /** While the new record is incomplete the old one stays in force. */
  lemma OldStaysInForce(before: seq<byte>, after: seq<byte>)
    requires |before| == |after| == NOR_BYTES && TargetLost(before, after, Target(before))
    ensures MetaRead(after) == MetaRead(before)
    ensures BanksAdjacent(before) ==> BanksAdjacent(after)
  {
    hide MetaOf, MetaValid;
    assert Bank(after, 1 - Target(before)) == Bank(before, 1 - Target(before));
  }

  /** Once the new record is complete it is in force. */
  lemma NewTakesForce(before: seq<byte>, after: seq<byte>, r: Meta)
    requires |before| == |after| == NOR_BYTES
    requires var bank := Target(before);
             && BankBytes(after, 1 - bank) == BankBytes(before, 1 - bank)
             && BankBytes(after, bank) == MetaBytes(r)
    requires MetaValid(r) && r.sequence != 0 && r.sequence == NextSequence(before)
    ensures MetaRead(after) == Some(r)
    ensures BanksAdjacent(after)
  {
    hide MetaOf, MetaBytes, MetaValid, BankBytes, Later;
    MetaRoundTrip(r);
    var bank := Target(before);
    assert Bank(after, 1 - bank) == Bank(before, 1 - bank);
    assert Bank(after, bank) == r;
    if MetaLatest(before) >= 0 {
      NextIsLater(Bank(before, 1 - bank).sequence, r.sequence);
    }
  }

  lemma NextIsLater(s: u32, next: u32)
    requires next == (s + 1) % TWO32 && next != 0
    ensures Later(next, s) && !Later(s, next) && next == s + 1
  {
    assert (-1) % TWO32 == TWO32 - 1;
  }

  /** Writes confined to one bank leave the other alone. */
  lemma OtherBankKept(before: seq<byte>, after: seq<byte>, bank: nat)
    requires |before| == NOR_BYTES && bank <= 1
    requires SameOutside(before, after, BankOffset(bank), BankOffset(bank) + SECTOR)
    ensures BankBytes(after, 1 - bank) == BankBytes(before, 1 - bank)
  {
    var off := BankOffset(1 - bank);
    SliceOutside(before, after, BankOffset(bank), BankOffset(bank) + SECTOR, off, off + META_BYTES);
  }

  /** An incomplete commit word is not the magic number. */
  lemma PartialMagic(s: seq<byte>, done: nat)
    requires |s| >= 4 && done < 4
    requires s[..4] == WordBytes(META_MAGIC)[..done] + Erased(4 - done)
    ensures Word(s, 0) != META_MAGIC
  {
    assert s[3] == s[..4][3] == 0xFF;
  }

  lemma PartialMeta(s: seq<byte>, done: nat)
    requires |s| == META_BYTES && done < 4
    requires s[..4] == WordBytes(META_MAGIC)[..done] + Erased(4 - done)
    ensures !MetaValid(MetaOf(s))
  {
    PartialMagic(s, done);
  }

  /** Two writes confined to the same range. */
  lemma WithinBank(m0: seq<byte>, m1: seq<byte>, m2: seq<byte>, bank: nat)
    requires |m0| == NOR_BYTES && bank <= 1
    requires SameOutside(m0, m1, BankOffset(bank), BankOffset(bank) + SECTOR)
    requires SameOutside(m1, m2, BankOffset(bank), BankOffset(bank) + SECTOR)
    ensures SameOutside(m0, m2, BankOffset(bank), BankOffset(bank) + SECTOR)
  {
  }

  /** The bank after the body of the record, all but the magic, has been programmed in full or in part. */
  lemma BodyProgrammed(before: seq<byte>, bank: nat, r: Meta, done: nat)
    requires |before| == NOR_BYTES && bank <= 1 && done <= META_BYTES - 4
    requires BankBytes(before, bank) == Erased(META_BYTES)
    ensures var after := ProgramEffect(before, BankOffset(bank) + 4, MetaBytes(r)[4..], done);
            && SameOutside(before, after, BankOffset(bank), BankOffset(bank) + SECTOR)
            && BankBytes(after, bank)[..4] == Erased(4)
            && !MetaValid(Bank(after, bank))
            && (done == META_BYTES - 4 ==> BankBytes(after, bank)[4..] == MetaBytes(r)[4..])
  {
    hide ProgramEffect, Overwrite, SameOutside, MetaOf, MetaBytes, Erased, MetaValid;
    var off, data := BankOffset(bank), MetaBytes(r)[4..];
    FreeCells(before, off, META_BYTES, 4);
    ProgramFree(before, off + 4, data, done);
    var after := Overwrite(before, off + 4, data[..done]);
    OverwriteInside(before, off + 4, data[..done], off, off + SECTOR);
    OverwriteFrame(before, off + 4, data[..done]);
    SliceOutside(before, after, off + 4, off + 4 + done, off, off + 4);
    BankSlice(after, bank, 4);
    NothingProgrammed(META_MAGIC);
    PartialMeta(BankBytes(after, bank), 0);
  }

  lemma ErasedBank(mem: seq<byte>, bank: nat)
    requires |mem| == NOR_BYTES && bank <= 1 && BankBytes(mem, bank) == Erased(META_BYTES)
    ensures BankBytes(mem, bank)[..4] == Erased(4) && !MetaValid(Bank(mem, bank))
  {
    hide MetaOf, Erased, MetaValid;
    FreeCells(mem, BankOffset(bank), META_BYTES, 4);
    BankSlice(mem, bank, 4);
    NothingProgrammed(META_MAGIC);
    PartialMeta(BankBytes(mem, bank), 0);
  }

  lemma BankSlice(mem: seq<byte>, bank: nat, k: nat)
    requires |mem| == NOR_BYTES && bank <= 1 && k <= META_BYTES
    ensures mem[BankOffset(bank) + k..BankOffset(bank) + META_BYTES] == BankBytes(mem, bank)[k..]
    ensures mem[BankOffset(bank)..BankOffset(bank) + k] == BankBytes(mem, bank)[..k]
  {
    SubSlice(mem, BankOffset(bank), BankOffset(bank) + META_BYTES, k, META_BYTES);
    SubSlice(mem, BankOffset(bank), BankOffset(bank) + META_BYTES, 0, k);
  }

  /** The bank after the magic has been programmed in full or in part over a verified body. */
  lemma MagicProgrammed(before: seq<byte>, bank: nat, r: Meta, done: nat)
    requires |before| == NOR_BYTES && bank <= 1 && done <= 4 && r.magic == META_MAGIC
    requires before[BankOffset(bank)..BankOffset(bank) + 4] == Erased(4)
    requires before[BankOffset(bank) + 4..BankOffset(bank) + META_BYTES] == MetaBytes(r)[4..]
    ensures var after := ProgramEffect(before, BankOffset(bank), MetaBytes(r)[..4], done);
            && SameOutside(before, after, BankOffset(bank), BankOffset(bank) + SECTOR)
            && (if done == 4 then BankBytes(after, bank) == MetaBytes(r) else !MetaValid(Bank(after, bank)))
  {
    hide ProgramEffect, Overwrite, SameOutside, MetaOf, MetaBytes, Erased, MetaValid;
    var off, magic := BankOffset(bank), MetaBytes(r)[..4];
    ProgramFree(before, off, magic, done);
    var after := Overwrite(before, off, magic[..done]);
    OverwriteInside(before, off, magic[..done], off, off + SECTOR);
    OverwriteInside(before, off, magic[..done], off, off + 4);
    OverwriteFrame(before, off, magic[..done]);
    SliceOutside(before, after, off, off + 4, off + 4, off + META_BYTES);
    if done == 4 {
      JoinSlices(after, off, off + 4, off + META_BYTES);
      Halves(MetaBytes(r), 4);
    } else {
      FreeCells(before, off, 4, done);
      SliceOutside(before, after, off, off + done, off + done, off + 4);
      JoinSlices(after, off, off + done, off + 4);
      BankSlice(after, bank, 4);
      MagicBytes(r);
      PartialMeta(BankBytes(after, bank), done);
    }
  }

  lemma Halves(s: seq<byte>, k: nat)
    requires k <= |s|
    ensures s[..k] + s[k..] == s && s[..k][..k] == s[..k]
  {
  }

  lemma MagicBytes(r: Meta)
    ensures MetaBytes(r)[..4] == WordBytes(r.magic)
  {
    assert MetaBytes(r)[..4] == Encode(MetaFront(r))[..4];
  }

  /** What the erase of the target bank leaves. */
  lemma TargetErased(before: seq<byte>, after: seq<byte>, bank: nat, ok: bool)
    requires |before| == NOR_BYTES && bank <= 1
    requires (!ok && after == before) || EraseEffect(before, after, BankOffset(bank), ok)
    ensures SameOutside(before, after, BankOffset(bank), BankOffset(bank) + SECTOR)
    ensures TargetLost(before, after, bank)
    ensures ok ==> BankBytes(after, bank) == Erased(META_BYTES)
  {
    hide MetaOf, MetaValid, Erased;
    OtherBankKept(before, after, bank);
    if ok {
      FreeCells(after, BankOffset(bank), SECTOR, META_BYTES);
    }
  }

  /** Either the target bank holds nothing new, or it holds exactly the new record. */
  predicate Committing(before: seq<byte>, after: seq<byte>, bank: nat, r: Meta)
    requires |before| == |after| == NOR_BYTES && bank <= 1
  {
    && BankBytes(after, 1 - bank) == BankBytes(before, 1 - bank)
    && (TargetLost(before, after, bank) || BankBytes(after, bank) == MetaBytes(r))
  }

  /** One of the two banks' sectors is part of the metadata area. */
  lemma BankInArea(before: seq<byte>, after: seq<byte>, bank: nat)
    requires |before| == NOR_BYTES && bank <= 1
    requires SameOutside(before, after, BankOffset(bank), BankOffset(bank) + SECTOR)
    ensures SameOutside(before, after, META0_OFFSET, META1_OFFSET + SECTOR)
  {
    SameOutsideTrans(before, before, after, META0_OFFSET, META1_OFFSET + SECTOR, BankOffset(bank),
        BankOffset(bank) + SECTOR);
  }

  /** The target bank holds the body of the record under an erased commit word. */
  predicate Uncommitted(mem: seq<byte>, bank: nat, r: Meta)
    requires |mem| == NOR_BYTES && bank <= 1
  {
    && mem[BankOffset(bank)..BankOffset(bank) + 4] == Erased(4)
    && mem[BankOffset(bank) + 4..BankOffset(bank) + META_BYTES] == MetaBytes(r)[4..]
  }

  /** Erases the target bank, programs the body and verifies it. */
  method ProgramBody(nor: Nor, bank: nat, r: Meta) returns (ok: bool)
    requires nor.Valid() && bank == Target(nor.Flash())
    modifies nor.mem, nor`powered, nor`committed, nor`twice
    ensures nor.Valid() && nor.twice == old(nor.twice) && nor.committed == old(nor.committed)
    ensures SameOutside(old(nor.Flash()), nor.Flash(), BankOffset(bank), BankOffset(bank) + SECTOR)
    ensures TargetLost(old(nor.Flash()), nor.Flash(), bank)
    ensures ok ==> Uncommitted(nor.Flash(), bank, r)
    ensures old(nor.powered) && nor.reliable ==> ok && nor.powered
  {
    hide MetaRead, MetaValid, MetaBytes, MetaOf, ProgramEffect, EraseEffect, Target, NextSequence, SameOutside,
      BankBytes, Witness, Current;
    var off: u32 := BankOffset(bank);
    ghost var done: nat;
    ghost var m0, log := nor.Flash(), nor.committed;
    ok := nor.MetadataErase(off);
    ghost var m1 := nor.Flash();
    TargetErased(m0, m1, bank, ok);
    OldStaysInForce(m0, m1);
    NothingWitnessed(log, m0, m1);
    if !ok {
      return;
    }
    BankSlice(m1, bank, 4);
    ok, done := nor.MetadataProgram(off + 4, MetaBytes(r)[4..]);
    ghost var m2 := nor.Flash();
    if ok || m2 != m1 {
      BodyProgrammed(m1, bank, r, done);
      WithinBank(m0, m1, m2, bank);
    } else {
      ErasedBank(m1, bank);
    }
    OtherBankKept(m0, m2, bank);
    OldStaysInForce(m0, m2);
    NothingWitnessed(log, m0, m2);
    BankSlice(m2, bank, 4);
    ok := ok && nor.Flash()[off + 4..off as int + META_BYTES] == MetaBytes(r)[4..];
  }

  /** A record that stays in force leaves the history as it is. */
  lemma NothingWitnessed(committed: seq<Meta>, before: seq<byte>, after: seq<byte>)
    requires |before| == |after| == NOR_BYTES && Current(committed, before) && MetaRead(after) == MetaRead(before)
    ensures Witness(committed, after) == committed
  {
    hide MetaRead;
  }

  /** Writes the body of the record into the target bank, then its magic. */
  method Commit(nor: Nor, bank: nat, r: Meta) returns (ok: bool)
    requires nor.Valid() && bank == Target(nor.Flash())
    requires MetaValid(r) && r.magic == META_MAGIC
    modifies nor.mem, nor`powered, nor`committed, nor`twice
    ensures nor.Valid() && nor.twice == old(nor.twice) && nor.committed == Witness(old(nor.committed), nor.Flash())
    ensures SameOutside(old(nor.Flash()), nor.Flash(), BankOffset(bank), BankOffset(bank) + SECTOR)
    ensures Committing(old(nor.Flash()), nor.Flash(), bank, r)
    ensures ok ==> BankBytes(nor.Flash(), bank) == MetaBytes(r)
    ensures old(nor.powered) && nor.reliable ==> ok && nor.powered
  {
    hide MetaRead, MetaValid, MetaBytes, MetaOf, ProgramEffect, Target, NextSequence, SameOutside, BankBytes;
    var off: u32 := BankOffset(bank);
    ghost var done: nat;
    ghost var m0 := nor.Flash();
    ok := ProgramBody(nor, bank, r);
    OldStaysInForce(m0, nor.Flash());
    if !ok {
      return;
    }
    ghost var m2 := nor.Flash();
    ok, done := nor.MetadataProgram(off, MetaBytes(r)[..4]);
    if ok || nor.Flash() != m2 {
      MagicProgrammed(m2, bank, r, done);
      WithinBank(m0, m2, nor.Flash(), bank);
    }
    OtherBankKept(m0, nor.Flash(), bank);
    BankSlice(nor.Flash(), bank, 0);
    ok := ok && nor.Flash()[off..off as int + META_BYTES] == MetaBytes(r);
  }

  /**
   * `g100_meta_write`. Whatever the flash does, the record in force afterwards is the old one or the
   * new one; it is the new one when the call reports success.
   */
  method MetaWrite(nor: Nor, m: Meta) returns (ok: bool, r: Meta)
    requires nor.Valid()
    modifies nor.mem, nor`powered, nor`committed, nor`twice
    ensures nor.Valid() && nor.twice == old(nor.twice) && nor.committed == Witness(old(nor.committed), nor.Flash())
    ensures r == Stamped(old(nor.Flash()), m)
    ensures SameOutside(old(nor.Flash()), nor.Flash(), META0_OFFSET, META1_OFFSET + SECTOR)
    ensures MetaRead(nor.Flash()) == MetaRead(old(nor.Flash()))
         || (MetaValid(r) && MetaRead(nor.Flash()) == Some(r))
    ensures ok ==> MetaValid(r) && MetaRead(nor.Flash()) == Some(r)
    ensures BanksAdjacent(old(nor.Flash())) ==> BanksAdjacent(nor.Flash())
    ensures MetaValid(r) && old(nor.powered) && nor.reliable ==> ok && nor.powered
  {
    hide BanksAdjacent, MetaBytes, MetaBody, MetaOf, Later, SameOutside, BankBytes, Crc32, TargetLost;
    ghost var m0 := nor.Flash();
    var index := MetaLatest(nor.mem[..]);
    r := m.(magic := META_MAGIC, format := 1);
    r := r.(sequence := if index < 0 then 1 else (Bank(nor.mem[..], index).sequence + 1) % TWO32);
    NothingChanged(m0);
    if r.sequence == 0 {
      return false, r;
    }
    var crc := Compute(MetaBody(r));
    r := r.(crc := crc);
    if !MetaValid(r) {
      return false, r;
    }
    ok := Commit(nor, if index == 0 then 1 else 0, r);
    ghost var bank := Target(m0);
    BankInArea(m0, nor.Flash(), bank);
    if BankBytes(nor.Flash(), bank) == MetaBytes(r) {
      NewTakesForce(m0, nor.Flash(), r);
    } else {
      OldStaysInForce(m0, nor.Flash());
    }
  }

  lemma NothingChanged(mem: seq<byte>)
    requires |mem| == NOR_BYTES
    ensures SameOutside(mem, mem, META0_OFFSET, META1_OFFSET + SECTOR)
  {
  }
}
