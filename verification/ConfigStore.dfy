/** Saving and loading the settings pair (config_store.c): atomic across any hardware error or power cut. */
module ConfigStore {
  import opened Bytes
  import opened Crc
  import opened BootFormat
  import opened ConfigFormat
  import opened BoardMemory
  import opened BootState
  import opened BootSafety

  /** The bank `g100_config_save` writes: never the one in force. */
  function ConfigTarget(mem: seq<byte>): (bank: nat)
    requires |mem| == NOR_BYTES
    ensures bank <= 1 && bank as int != ConfigLatest(mem)
  {
    if ConfigLatest(mem) == 0 then 1 else 0
  }

  function NextConfig(mem: seq<byte>): u32
    requires |mem| == NOR_BYTES
  {
    var now := ConfigRead(mem);
    if now.None? then 1 else (now.value.sequence + 1) % TWO32
  }

  /** The other bank's record is untouched, and this bank's is untouched or gone. */
  predicate ConfigLost(before: seq<byte>, after: seq<byte>, bank: nat)
    requires |before| == |after| == NOR_BYTES && bank <= 1
  {
    && ConfigRecord(after, 1 - bank) == ConfigRecord(before, 1 - bank)
    && (ConfigRecord(after, bank) == ConfigRecord(before, bank) || ConfigRecord(after, bank) == None)
  }

  lemma OldConfigStays(before: seq<byte>, after: seq<byte>)
    requires |before| == |after| == NOR_BYTES && ConfigLost(before, after, ConfigTarget(before))
    ensures ConfigRead(after) == ConfigRead(before)
  {
    hide ConfigRecord;
  }

  lemma NewConfigTakes(before: seq<byte>, after: seq<byte>, c: Config)
    requires |before| == |after| == NOR_BYTES
    requires ConfigRecord(after, 1 - ConfigTarget(before)) == ConfigRecord(before, 1 - ConfigTarget(before))
    requires ConfigRecord(after, ConfigTarget(before)) == Some(c) && c.sequence == NextConfig(before) != 0
    ensures ConfigRead(after) == Some(c)
  {
    hide ConfigRecord, Later;
    if ConfigLatest(before) >= 0 {
      NextIsLater(ConfigRead(before).value.sequence, c.sequence);
    }
  }

  /** Nothing outside the bank changed. */
  predicate InBank(before: seq<byte>, after: seq<byte>, bank: nat)
    requires |before| == NOR_BYTES && bank <= 1
  {
    SameOutside(before, after, ConfigOffset(bank), ConfigOffset(bank) + CONFIG_BANK_BYTES)
  }

  /** Changes confined to one bank leave everything else the flash records alone. */
  lemma BankWriteKeeps(before: seq<byte>, after: seq<byte>, bank: nat)
    requires |before| == NOR_BYTES && bank <= 1
    requires InBank(before, after, bank)
    ensures |after| == NOR_BYTES && ConfigRecord(after, 1 - bank) == ConfigRecord(before, 1 - bank)
    ensures MetaRead(after) == MetaRead(before)
    ensures SameOutside(before, after, CONFIG0_OFFSET, CONFIG1_OFFSET + CONFIG_BANK_BYTES)
  {
    hide MetaRead, BankRecord;
    var lo, hi := ConfigOffset(bank), ConfigOffset(bank) + CONFIG_BANK_BYTES;
    var off := ConfigOffset(1 - bank);
    SliceOutside(before, after, lo, hi, off, off + CONFIG_BANK_BYTES);
    RecordsKept(before, after, lo, hi);
    SameOutsideTrans(before, before, after, CONFIG0_OFFSET, CONFIG1_OFFSET + CONFIG_BANK_BYTES, lo, hi);
  }

  /** Saving settings cannot endanger the boot images. */
  lemma ConfigKeepsSafe(before: seq<byte>, after: seq<byte>, log: seq<Meta>, sha: Hash)
    requires |before| == NOR_BYTES && Safe(before, log, sha)
    requires SameOutside(before, after, CONFIG0_OFFSET, CONFIG1_OFFSET + CONFIG_BANK_BYTES)
    ensures |after| == NOR_BYTES && Safe(after, log, sha)
  {
    hide MetaRead, Verified, BanksAdjacent, History, SameOutside;
    LengthKept(before, after, CONFIG0_OFFSET, CONFIG1_OFFSET + CONFIG_BANK_BYTES);
    RecordsKept(before, after, CONFIG0_OFFSET, CONFIG1_OFFSET + CONFIG_BANK_BYTES);
    ImagesKept(before, after, CONFIG0_OFFSET, CONFIG1_OFFSET + CONFIG_BANK_BYTES, MetaRead(before).value, sha);
  }

  /** A bank whose magic is missing or incomplete holds no record. */
  lemma NoMagicNoConfig(mem: seq<byte>, bank: nat, done: nat)
    requires |mem| == NOR_BYTES && bank <= 1 && done < 4
    requires mem[ConfigOffset(bank)..ConfigOffset(bank) + 4] == WordBytes(CONFIG_MAGIC)[..done] + Erased(4 - done)
    ensures ConfigRecord(mem, bank) == None
  {
    hide ConfigBody, Crc32, ConfigPayloadValid;
    var off := ConfigOffset(bank);
    var b := ConfigBank(mem, bank);
    SubSlice(mem, off, off + CONFIG_BANK_BYTES, 0, CONFIG_HEADER_BYTES);
    assert b[..CONFIG_HEADER_BYTES][3] == mem[off + 3] == mem[off..off + 4][3] == 0xFF;
  }

  /** The payload of a pair of texts. */
  function ConfigPayload(settings: seq<byte>, instances: seq<byte>): seq<byte>
  {
    settings + [0] + instances + [0]
  }

  function ConfigHeaderFor(sequence: u32, settings: seq<byte>, instances: seq<byte>): ConfigHeader
    requires |settings| < SETTINGS_MAX && |instances| < INSTANCES_MAX
  {
    var h := ConfigHeader(CONFIG_MAGIC, 1, sequence, |settings| + 1, |instances| + 1,
                          Crc32(ConfigPayload(settings, instances)), 0, 0);
    h.(crc := Crc32(ConfigBody(h)))
  }

  /** A complete bank reads back as the pair, unless a text is too short for `record` to accept. */
  lemma CompleteConfig(b: seq<byte>, sequence: u32, settings: seq<byte>, instances: seq<byte>)
    requires |b| == CONFIG_BANK_BYTES && sequence != 0
    requires |settings| < SETTINGS_MAX && |instances| < INSTANCES_MAX && 0 !in settings && 0 !in instances
    requires b[..CONFIG_HEADER_BYTES] == ConfigHeaderBytes(ConfigHeaderFor(sequence, settings, instances))
    requires b[CONFIG_HEADER_BYTES..CONFIG_HEADER_BYTES + |settings| + |instances| + 2]
               == ConfigPayload(settings, instances)
    ensures BankRecord(b) == if |settings| >= 2 && |instances| >= 2 then Some(Config(sequence, settings, instances))
              else None
  {
    hide ConfigHeaderOf, ConfigHeaderBytes, Crc32, ConfigBody;
    var h := ConfigHeaderFor(sequence, settings, instances);
    ConfigHeaderRoundTrip(h);
    ConfigBodyIgnoresCrc(h, 0);
    var p, sn := ConfigPayload(settings, instances), |settings| + 1;
    assert p[..sn - 1] == settings && p[sn..|p| - 1] == instances;
  }

  lemma ConfigBodyIgnoresCrc(h: ConfigHeader, crc: u32)
    ensures ConfigBody(h.(crc := crc)) == ConfigBody(h)
  {
  }

  /** Neither text contains its terminator, and both fit their fields. */
  predicate Storable(settings: seq<byte>, instances: seq<byte>)
  {
    2 <= |settings| < SETTINGS_MAX && 2 <= |instances| < INSTANCES_MAX
  }

  predicate Stored(mem: seq<byte>, settings: seq<byte>, instances: seq<byte>)
    requires |mem| == NOR_BYTES
  {
    var now := ConfigRead(mem);
    now.Some? && now.value.settings == settings && now.value.instances == instances
  }

  /** `g100_config_load`, with the capacities of the caller's buffers. */
  function Load(mem: seq<byte>, settingsCap: nat, instancesCap: Option<nat>): (r: Option<(seq<byte>, seq<byte>)>)
    requires |mem| == NOR_BYTES
    ensures r.Some? ==> Stored(mem, r.value.0, r.value.1)
    ensures r.Some? ==> |r.value.0| < settingsCap && (instancesCap.Some? ==> |r.value.1| < instancesCap.value)
  {
    var now := ConfigRead(mem);
    if now.None? || settingsCap < |now.value.settings| + 1
      || (instancesCap.Some? && instancesCap.value < |now.value.instances| + 1) then None
    else Some((now.value.settings, now.value.instances))
  }

  // ---------------------------------------------------------------- the phases of a save

  /** A sector of the bank has been erased, or the attempt failed. */
  lemma ConfigSectorErased(m0: seq<byte>, before: seq<byte>, after: seq<byte>, bank: nat, n: nat, ok: bool)
    requires |m0| == |before| == |after| == NOR_BYTES && bank <= 1 && n % SECTOR == 0 && n < CONFIG_BANK_BYTES
    requires InBank(m0, before, bank) && before[ConfigOffset(bank)..ConfigOffset(bank) + n] == Erased(n)
    requires n == 0 ==> before == m0
    requires (!ok && after == before) || EraseEffect(before, after, ConfigOffset(bank) + n, ok)
    ensures InBank(m0, after, bank) && ConfigLost(m0, after, bank)
    ensures ok ==> after[ConfigOffset(bank)..ConfigOffset(bank) + n + SECTOR] == Erased(n + SECTOR)
  {
    hide ConfigRecord, MetaValid, MetaOf, ImageHeaderRead, HeaderAt;
    var off := ConfigOffset(bank);
    BankSectors(n);
    if after != before {
      SameOutsideTrans(m0, before, after, off, off + CONFIG_BANK_BYTES, off + n, off + n + SECTOR);
      SliceOutside(before, after, off + n, off + n + SECTOR, off, off + n);
    }
    BankWriteKeeps(m0, after, bank);
    if n > 0 {
      ErasedStart(after, bank, n);
    }
    if ok {
      JoinSlices(after, off, off + n, off + n + SECTOR);
    }
  }

  lemma BankSectors(n: nat)
    requires n % SECTOR == 0 && n < CONFIG_BANK_BYTES
    ensures n + SECTOR <= CONFIG_BANK_BYTES && (n + SECTOR) % SECTOR == 0
    ensures forall bank: nat :: bank <= 1 ==>
              (ConfigOffset(bank) + n) % SECTOR == 0 && WritableConfigRange(ConfigOffset(bank) + n, SECTOR)
  {
  }

  lemma ErasedStart(mem: seq<byte>, bank: nat, n: nat)
    requires |mem| == NOR_BYTES && bank <= 1 && 4 <= n <= CONFIG_BANK_BYTES
    requires mem[ConfigOffset(bank)..ConfigOffset(bank) + n] == Erased(n)
    ensures mem[ConfigOffset(bank)..ConfigOffset(bank) + 4] == Erased(4) && ConfigRecord(mem, bank) == None
  {
    hide ConfigRecord;
    var off := ConfigOffset(bank);
    SubSlice(mem, off, off + n, 0, 4);
    NothingProgrammed(CONFIG_MAGIC);
    NoMagicNoConfig(mem, bank, 0);
  }

  /** Erases every sector the record needs, the one with the header first. */
  method EraseBank(nor: Nor, bank: nat, bytes: nat) returns (ok: bool)
    requires nor.Valid() && bank <= 1 && 0 < bytes <= CONFIG_BANK_BYTES
    modifies nor.mem, nor`powered, nor`committed
    ensures nor.Valid() && nor.committed == old(nor.committed)
    ensures InBank(old(nor.Flash()), nor.Flash(), bank) && ConfigLost(old(nor.Flash()), nor.Flash(), bank)
    ensures ok ==> nor.Flash()[ConfigOffset(bank)..ConfigOffset(bank) + bytes] == Erased(bytes)
    ensures old(nor.powered) && nor.reliable ==> ok && nor.powered
  {
    hide MetaRead, ConfigRecord, ConfigLost, EraseEffect, SameOutside, WritableConfigRange, ConfigOffset,
      Erased, InBank, Witness, Current;
    ghost var m0, log := nor.Flash(), nor.committed;
    BankUnchanged(m0, bank);
    NothingLost(m0, bank);
    var off := ConfigOffset(bank);
    var n := 0;
    while n < bytes
      invariant n % SECTOR == 0 && (n < bytes ==> n < CONFIG_BANK_BYTES) && n <= CONFIG_BANK_BYTES
                  && off == ConfigOffset(bank)
      invariant nor.Valid() && nor.committed == old(nor.committed) && (n == 0 ==> nor.Flash() == m0)
      invariant InBank(m0, nor.Flash(), bank) && ConfigLost(m0, nor.Flash(), bank)
                  && off + CONFIG_BANK_BYTES <= NOR_BYTES
      invariant nor.Flash()[off..off + n] == Erased(n)
      invariant old(nor.powered) && nor.reliable ==> nor.powered
      decreases bytes - n
    {
      BankSectors(n);
      ghost var m1 := nor.Flash();
      ok := nor.ConfigErase(off + n);
      ConfigSectorErased(m0, m1, nor.Flash(), bank, n, ok);
      BankWriteKeeps(m0, m1, bank);
      BankWriteKeeps(m0, nor.Flash(), bank);
      NothingWitnessed(log, m0, nor.Flash());
      if !ok {
        return;
      }
      n := n + SECTOR;
    }
    FreeCells(nor.Flash(), off, n, bytes);
    return true;
  }

  lemma BankUnchanged(mem: seq<byte>, bank: nat)
    requires |mem| == NOR_BYTES && bank <= 1
    ensures InBank(mem, mem, bank) && ConfigOffset(bank) + CONFIG_BANK_BYTES <= NOR_BYTES
  {
  }

  lemma NothingLost(mem: seq<byte>, bank: nat)
    requires |mem| == NOR_BYTES && bank <= 1
    ensures ConfigLost(mem, mem, bank)
  {
  }

  /** The first `n` bytes of the payload are stored; the header and the rest are still erased. */
  predicate Prepared(mem: seq<byte>, bank: nat, payload: seq<byte>, n: nat)
    requires |mem| == NOR_BYTES && bank <= 1 && n <= |payload| <= CONFIG_BANK_BYTES - CONFIG_HEADER_BYTES
  {
    var off := ConfigOffset(bank);
    var p := off + CONFIG_HEADER_BYTES;
    && mem[off..p] == Erased(CONFIG_HEADER_BYTES)
    && mem[p..p + n] == payload[..n]
    && mem[p + n..p + |payload|] == Erased(|payload| - n)
  }

  lemma PreparedStart(mem: seq<byte>, bank: nat, payload: seq<byte>)
    requires |mem| == NOR_BYTES && bank <= 1 && |payload| <= CONFIG_BANK_BYTES - CONFIG_HEADER_BYTES
    requires mem[ConfigOffset(bank)..ConfigOffset(bank) + CONFIG_HEADER_BYTES + |payload|]
               == Erased(CONFIG_HEADER_BYTES + |payload|)
    ensures Prepared(mem, bank, payload, 0)
  {
    FreeCells(mem, ConfigOffset(bank), CONFIG_HEADER_BYTES + |payload|, CONFIG_HEADER_BYTES);
  }

  lemma PreparedNoConfig(m0: seq<byte>, mem: seq<byte>, bank: nat, payload: seq<byte>, n: nat)
    requires |m0| == |mem| == NOR_BYTES && bank <= 1 && n <= |payload| <= CONFIG_BANK_BYTES - CONFIG_HEADER_BYTES
    requires mem[ConfigOffset(bank)..ConfigOffset(bank) + CONFIG_HEADER_BYTES] == Erased(CONFIG_HEADER_BYTES)
               && InBank(m0, mem, bank)
    ensures ConfigLost(m0, mem, bank)
  {
    hide ConfigRecord;
    ErasedStart(mem, bank, CONFIG_HEADER_BYTES);
    BankWriteKeeps(m0, mem, bank);
  }

  /** Programming one page of the payload. */
  lemma PayloadPage(before: seq<byte>, after: seq<byte>, bank: nat, payload: seq<byte>, n: nat, count: nat, done: nat)
    requires |before| == NOR_BYTES && bank <= 1 && |payload| <= CONFIG_BANK_BYTES - CONFIG_HEADER_BYTES
    requires n + count <= |payload| && done <= count && Prepared(before, bank, payload, n)
    requires after == before
               || after == ProgramEffect(before, ConfigOffset(bank) + CONFIG_HEADER_BYTES + n, payload[n..n + count],
                     done)
    ensures |after| == NOR_BYTES && InBank(before, after, bank) && ConfigOffset(bank) + CONFIG_BANK_BYTES <= NOR_BYTES
    ensures var at := ConfigOffset(bank) + CONFIG_HEADER_BYTES + n;
            before[at..at + count] == Erased(count)
    ensures after[ConfigOffset(bank)..ConfigOffset(bank) + CONFIG_HEADER_BYTES] == Erased(CONFIG_HEADER_BYTES)
    ensures var at := ConfigOffset(bank) + CONFIG_HEADER_BYTES + n;
            && (after[at..at + count] == payload[n..n + count] ==> Prepared(after, bank, payload, n + count))
            && (after == ProgramEffect(before, at, payload[n..n + count], done) && done == count ==>
                  after[at..at + count] == payload[n..n + count])
  {
    hide ProgramEffect, Overwrite, SameOutside, Erased;
    var off, data := ConfigOffset(bank), payload[n..n + count];
    var at := off + CONFIG_HEADER_BYTES + n;
    FreeCells(before, at, |payload| - n, count);
    ProgramFree(before, at, data, done);
    var d := if after == ProgramEffect(before, at, data, done) then data[..done] else [];
    NothingWritten(before, at);
    OverwriteInside(before, at, d, off, off + CONFIG_BANK_BYTES);
    OverwriteInside(before, at, d, at, at + count);
    OverwriteFrame(before, at, d);
    SliceOutside(before, after, at, at + count, off, off + CONFIG_HEADER_BYTES);
    if after[at..at + count] == data {
      PageExtends(before, after, bank, payload, n, count);
    }
  }

  /** A page that reads as its data extends what is stored. */
  lemma PageExtends(before: seq<byte>, after: seq<byte>, bank: nat, payload: seq<byte>, n: nat, count: nat)
    requires |before| == |after| == NOR_BYTES && bank <= 1 && |payload| <= CONFIG_BANK_BYTES - CONFIG_HEADER_BYTES
    requires n + count <= |payload| && Prepared(before, bank, payload, n)
    requires var at := ConfigOffset(bank) + CONFIG_HEADER_BYTES + n;
             SameOutside(before, after, at, at + count) && after[at..at + count] == payload[n..n + count]
    ensures Prepared(after, bank, payload, n + count)
  {
    hide SameOutside, Erased;
    var off := ConfigOffset(bank);
    var p := off + CONFIG_HEADER_BYTES;
    var at := p + n;
    FreeCells(before, at, |payload| - n, count);
    SliceOutside(before, after, at, at + count, off, p);
    SliceOutside(before, after, at, at + count, p, at);
    SliceOutside(before, after, at, at + count, at + count, p + |payload|);
    JoinSlices(after, p, at, at + count);
    assert payload[..n + count] == payload[..n] + payload[n..n + count];
  }

  lemma PreparedHeader(mem: seq<byte>, bank: nat, payload: seq<byte>, n: nat)
    requires |mem| == NOR_BYTES && bank <= 1 && n <= |payload| <= CONFIG_BANK_BYTES - CONFIG_HEADER_BYTES
    requires Prepared(mem, bank, payload, n)
    ensures mem[ConfigOffset(bank)..ConfigOffset(bank) + CONFIG_HEADER_BYTES] == Erased(CONFIG_HEADER_BYTES)
  {
  }

  /** Programs one page of the payload and reads it back. */
  method WritePage(nor: Nor, bank: nat, payload: seq<byte>, n: nat, count: nat) returns (ok: bool)
    requires nor.Valid() && bank <= 1 && |payload| <= CONFIG_BANK_BYTES - CONFIG_HEADER_BYTES
    requires 0 < count && n + count <= |payload|
               && (ConfigOffset(bank) + CONFIG_HEADER_BYTES + n) % PAGE + count <= PAGE
    requires Prepared(nor.Flash(), bank, payload, n)
    modifies nor.mem, nor`powered, nor`committed, nor`twice
    ensures nor.Valid() && nor.committed == old(nor.committed) && nor.twice == old(nor.twice)
    ensures InBank(old(nor.Flash()), nor.Flash(), bank)
    ensures nor.Flash()[ConfigOffset(bank)..ConfigOffset(bank) + CONFIG_HEADER_BYTES] == Erased(CONFIG_HEADER_BYTES)
    ensures ok ==> Prepared(nor.Flash(), bank, payload, n + count)
    ensures old(nor.powered) && nor.reliable ==> ok && nor.powered
  {
    hide MetaRead, WritableConfigRange, ProgramEffect, ConfigRecord, OnePage, Erased, InBank, ConfigOffset, Prepared;
    ghost var m1 := nor.Flash();
    ghost var done;
    PageGuards(bank, payload, n, count);
    PayloadPage(m1, m1, bank, payload, n, count, 0);
    var at := ConfigOffset(bank) + CONFIG_HEADER_BYTES + n;
    ok, done := nor.ConfigProgram(at, payload[n..n + count]);
    PayloadPage(m1, nor.Flash(), bank, payload, n, count, done);
    BankWriteKeeps(m1, nor.Flash(), bank);
    ok := ok && nor.mem[at..at + count] == payload[n..n + count];
  }

  /** Programs the payload page by page, reading each page back. */
  method WritePayload(nor: Nor, bank: nat, payload: seq<byte>) returns (ok: bool)
    requires nor.Valid() && bank <= 1 && |payload| <= CONFIG_BANK_BYTES - CONFIG_HEADER_BYTES
    requires Prepared(nor.Flash(), bank, payload, 0)
    modifies nor.mem, nor`powered, nor`committed, nor`twice
    ensures nor.Valid() && nor.committed == old(nor.committed) && nor.twice == old(nor.twice)
    ensures InBank(old(nor.Flash()), nor.Flash(), bank)
    ensures nor.Flash()[ConfigOffset(bank)..ConfigOffset(bank) + CONFIG_HEADER_BYTES] == Erased(CONFIG_HEADER_BYTES)
    ensures ok ==> Prepared(nor.Flash(), bank, payload, |payload|)
    ensures old(nor.powered) && nor.reliable ==> ok && nor.powered
  {
    hide MetaRead, SameOutside, WritableConfigRange, ProgramEffect, ConfigRecord, OnePage, Erased, InBank, ConfigOffset;
    ghost var m0 := nor.Flash();
    BankUnchanged(m0, bank);
    PreparedHeader(m0, bank, payload, 0);
    var n := 0;
    while n < |payload|
      invariant n <= |payload| && nor.Valid() && nor.committed == old(nor.committed) && nor.twice == old(nor.twice)
      invariant InBank(m0, nor.Flash(), bank) && Prepared(nor.Flash(), bank, payload, n)
      invariant nor.Flash()[ConfigOffset(bank)..ConfigOffset(bank) + CONFIG_HEADER_BYTES] == Erased(CONFIG_HEADER_BYTES)
      invariant old(nor.powered) && nor.reliable ==> nor.powered
    {
      var at := ConfigOffset(bank) + CONFIG_HEADER_BYTES + n;
      var count := PAGE - at % PAGE;
      if count > |payload| - n {
        count := |payload| - n;
      }
      ghost var m1 := nor.Flash();
      ok := WritePage(nor, bank, payload, n, count);
      BankTrans(m0, m1, nor.Flash(), bank);
      if !ok {
        return;
      }
      n := n + count;
    }
    return true;
  }

  lemma PageGuards(bank: nat, payload: seq<byte>, n: nat, count: nat)
    requires bank <= 1 && |payload| <= CONFIG_BANK_BYTES - CONFIG_HEADER_BYTES
    requires 0 < count && n + count <= |payload|
               && (ConfigOffset(bank) + CONFIG_HEADER_BYTES + n) % PAGE + count <= PAGE
    ensures var at := ConfigOffset(bank) + CONFIG_HEADER_BYTES + n;
            OnePage(at, payload[n..n + count]) && WritableConfigRange(at, count)
  {
  }

  lemma BankTrans(m0: seq<byte>, m1: seq<byte>, m2: seq<byte>, bank: nat)
    requires |m0| == |m1| == NOR_BYTES && bank <= 1 && InBank(m0, m1, bank) && InBank(m1, m2, bank)
    ensures InBank(m0, m2, bank)
  {
  }

  /** The bank after the header, all but its magic, has been programmed in full or in part. */
  lemma ConfigBodyProgrammed(before: seq<byte>, after: seq<byte>, bank: nat, payload: seq<byte>, head: seq<byte>,
                          done: nat)
    requires |before| == NOR_BYTES && bank <= 1 && |payload| <= CONFIG_BANK_BYTES - CONFIG_HEADER_BYTES
    requires |head| == CONFIG_HEADER_BYTES && done <= CONFIG_HEADER_BYTES - 4
               && Prepared(before, bank, payload, |payload|)
    requires after == before || after == ProgramEffect(before, ConfigOffset(bank) + 4, head[4..], done)
    ensures |after| == NOR_BYTES && InBank(before, after, bank)
    ensures before[ConfigOffset(bank) + 4..ConfigOffset(bank) + CONFIG_HEADER_BYTES] == Erased(CONFIG_HEADER_BYTES - 4)
    ensures after[ConfigOffset(bank)..ConfigOffset(bank) + 4] == Erased(4)
    ensures var off := ConfigOffset(bank);
            && after[off + CONFIG_HEADER_BYTES..off + CONFIG_HEADER_BYTES + |payload|] == payload
            && (after == ProgramEffect(before, off + 4, head[4..], done) && done == CONFIG_HEADER_BYTES - 4 ==>
                  after[off + 4..off + CONFIG_HEADER_BYTES] == head[4..])
  {
    hide ProgramEffect, Overwrite, SameOutside;
    var off, data := ConfigOffset(bank), head[4..];
    var p := off + CONFIG_HEADER_BYTES;
    FreeCells(before, off, CONFIG_HEADER_BYTES, 4);
    ProgramFree(before, off + 4, data, done);
    var d := if after == ProgramEffect(before, off + 4, data, done) then data[..done] else [];
    NothingWritten(before, off + 4);
    OverwriteInside(before, off + 4, d, off, off + CONFIG_BANK_BYTES);
    OverwriteInside(before, off + 4, d, off + 4, p);
    OverwriteFrame(before, off + 4, d);
    SliceOutside(before, after, off + 4, p, off, off + 4);
    SliceOutside(before, after, off + 4, p, p, p + |payload|);
    assert payload[..|payload|] == payload;
  }

  /** The bank after the magic has been programmed in full or in part. */
  lemma ConfigMagicProgrammed(before: seq<byte>, after: seq<byte>, bank: nat, payload: seq<byte>, head: seq<byte>,
                          done: nat)
    requires |before| == NOR_BYTES && bank <= 1 && |payload| <= CONFIG_BANK_BYTES - CONFIG_HEADER_BYTES
    requires |head| == CONFIG_HEADER_BYTES && done <= 4 && head[..4] == WordBytes(CONFIG_MAGIC)
    requires before[ConfigOffset(bank)..ConfigOffset(bank) + 4] == Erased(4)
    requires var off := ConfigOffset(bank);
             && before[off + 4..off + CONFIG_HEADER_BYTES] == head[4..]
             && before[off + CONFIG_HEADER_BYTES..off + CONFIG_HEADER_BYTES + |payload|] == payload
    requires after == before || after == ProgramEffect(before, ConfigOffset(bank), head[..4], done)
    ensures |after| == NOR_BYTES && InBank(before, after, bank)
    ensures done < 4 ==> ConfigRecord(after, bank) == None
    ensures after == ProgramEffect(before, ConfigOffset(bank), head[..4], done) && done == 4 ==>
              && ConfigBank(after, bank)[..CONFIG_HEADER_BYTES] == head
              && ConfigBank(after, bank)[CONFIG_HEADER_BYTES..CONFIG_HEADER_BYTES + |payload|] == payload
  {
    hide ProgramEffect, Overwrite, SameOutside, ConfigRecord;
    var off, data := ConfigOffset(bank), head[..4];
    var p := off + CONFIG_HEADER_BYTES;
    ProgramFree(before, off, data, done);
    var n := if after == ProgramEffect(before, off, data, done) then done else 0;
    var d := data[..n];
    NothingWritten(before, off);
    OverwriteInside(before, off, d, off, off + CONFIG_BANK_BYTES);
    OverwriteInside(before, off, d, off, off + 4);
    OverwriteInside(before, off, d, off, off + n);
    OverwriteFrame(before, off, d);
    SliceOutside(before, after, off, off + 4, off + 4, p);
    SliceOutside(before, after, off, off + 4, p, p + |payload|);
    SubSlice(after, off, off + CONFIG_BANK_BYTES, 0, CONFIG_HEADER_BYTES);
    SubSlice(after, off, off + CONFIG_BANK_BYTES, CONFIG_HEADER_BYTES, CONFIG_HEADER_BYTES + |payload|);
    JoinSlices(after, off, off + 4, p);
    if n < 4 {
      FreeCells(before, off, 4, n);
      SliceOutside(before, after, off, off + n, off + n, off + 4);
      JoinSlices(after, off, off + n, off + 4);
      NoMagicNoConfig(after, bank, n);
    }
  }

  lemma ConfigMagicBytes(h: ConfigHeader)
    ensures ConfigHeaderBytes(h)[..4] == WordBytes(h.magic)
  {
    assert ConfigHeaderBytes(h)[..4] == Encode(ConfigFront(h))[..4];
  }

  /** Writes the header over a stored payload, magic last; `landed` says that all of the magic was programmed. */
  method CommitConfig(nor: Nor, bank: nat, h: ConfigHeader, ghost payload: seq<byte>)
    returns (ok: bool, ghost landed: bool)
    requires nor.Valid() && bank <= 1 && |payload| <= CONFIG_BANK_BYTES - CONFIG_HEADER_BYTES
    requires Prepared(nor.Flash(), bank, payload, |payload|) && h.magic == CONFIG_MAGIC
    modifies nor.mem, nor`powered, nor`committed, nor`twice
    ensures nor.Valid() && nor.committed == old(nor.committed) && nor.twice == old(nor.twice)
    ensures InBank(old(nor.Flash()), nor.Flash(), bank)
    ensures if landed then Completed(nor.Flash(), bank, h, payload) else ConfigRecord(nor.Flash(), bank) == None
    ensures old(nor.powered) && nor.reliable ==> ok && landed && nor.powered
  {
    hide MetaRead, WritableConfigRange, ProgramEffect, ConfigRecord, OnePage, InBank, ConfigOffset, Prepared,
      ConfigHeaderBytes, ConfigBank;
    var head := ConfigHeaderBytes(h);
    ConfigMagicBytes(h);
    HeadGuards(bank, head);
    var off := ConfigOffset(bank);
    ghost var m0 := nor.Flash();
    ghost var done;
    ConfigBodyProgrammed(m0, m0, bank, payload, head, 0);
    ok, done := nor.ConfigProgram(off + 4, head[4..]);
    ghost var m1 := nor.Flash();
    ConfigBodyProgrammed(m0, m1, bank, payload, head, done);
    BankWriteKeeps(m0, m1, bank);
    NothingProgrammed(CONFIG_MAGIC);
    NoMagicNoConfig(m1, bank, 0);
    ok := ok && nor.mem[off + 4..off + CONFIG_HEADER_BYTES] == head[4..];
    if !ok {
      return false, false;
    }
    ok, done := nor.ConfigProgram(off, head[..4]);
    landed := done == 4;
    ConfigMagicProgrammed(m1, nor.Flash(), bank, payload, head, done);
    BankWriteKeeps(m1, nor.Flash(), bank);
    BankTrans(m0, m1, nor.Flash(), bank);
  }

  lemma HeadGuards(bank: nat, head: seq<byte>)
    requires bank <= 1 && |head| == CONFIG_HEADER_BYTES
    ensures OnePage(ConfigOffset(bank) + 4, head[4..])
              && WritableConfigRange(ConfigOffset(bank) + 4, CONFIG_HEADER_BYTES - 4)
    ensures OnePage(ConfigOffset(bank), head[..4]) && WritableConfigRange(ConfigOffset(bank), 4)
    ensures ConfigOffset(bank) + CONFIG_BANK_BYTES <= NOR_BYTES
  {
  }

  /** The bank holds the complete header and payload. */
  predicate Completed(mem: seq<byte>, bank: nat, h: ConfigHeader, payload: seq<byte>)
    requires |mem| == NOR_BYTES && bank <= 1 && |payload| <= CONFIG_BANK_BYTES - CONFIG_HEADER_BYTES
  {
    && ConfigBank(mem, bank)[..CONFIG_HEADER_BYTES] == ConfigHeaderBytes(h)
    && ConfigBank(mem, bank)[CONFIG_HEADER_BYTES..CONFIG_HEADER_BYTES + |payload|] == payload
  }

  /** The outcome of a save: the new pair is in force, or the old one still is. */
  lemma SaveOutcome(before: seq<byte>, after: seq<byte>, settings: seq<byte>, instances: seq<byte>)
    requires |before| == |after| == NOR_BYTES && InBank(before, after, ConfigTarget(before)) && NextConfig(before) != 0
    requires |settings| < SETTINGS_MAX && |instances| < INSTANCES_MAX && 0 !in settings && 0 !in instances
    requires ConfigLost(before, after, ConfigTarget(before))
          || Completed(after, ConfigTarget(before), ConfigHeaderFor(NextConfig(before), settings, instances),
                       ConfigPayload(settings, instances))
    ensures ConfigLost(before, after, ConfigTarget(before)) ==> ConfigRead(after) == ConfigRead(before)
    ensures Completed(after, ConfigTarget(before), ConfigHeaderFor(NextConfig(before), settings, instances),
              ConfigPayload(settings, instances))
        ==> if Storable(settings, instances)
            then ConfigRead(after) == Some(Config(NextConfig(before), settings, instances))
                 && ConfigRecord(after, ConfigTarget(before)).Some?
            else ConfigRead(after) == ConfigRead(before) && ConfigRecord(after, ConfigTarget(before)) == None
  {
    hide ConfigRead, InBank, ConfigHeaderFor, ConfigTarget, NextConfig, ConfigRecord, ConfigLost, Completed, Storable;
    var bank, sequence := ConfigTarget(before), NextConfig(before);
    BankWriteKeeps(before, after, bank);
    if Completed(after, bank, ConfigHeaderFor(sequence, settings, instances), ConfigPayload(settings, instances)) {
      CompletedRecord(after, bank, sequence, settings, instances);
      if Storable(settings, instances) {
        NewConfigTakes(before, after, Config(sequence, settings, instances));
      } else {
        NoRecordLeft(before, after, bank);
      }
    }
    if ConfigLost(before, after, bank) {
      OldConfigStays(before, after);
    }
  }

  /** A completed bank reads as the pair, if the pair can be read at all. */
  lemma CompletedRecord(mem: seq<byte>, bank: nat, sequence: u32, settings: seq<byte>, instances: seq<byte>)
    requires |mem| == NOR_BYTES && bank <= 1 && sequence != 0
    requires |settings| < SETTINGS_MAX && |instances| < INSTANCES_MAX && 0 !in settings && 0 !in instances
    requires Completed(mem, bank, ConfigHeaderFor(sequence, settings, instances), ConfigPayload(settings, instances))
    ensures ConfigRecord(mem, bank) == if Storable(settings, instances) then
              Some(Config(sequence, settings, instances)) else None
  {
    hide ConfigHeaderFor, ConfigHeaderBytes, BankRecord, ConfigBank;
    CompleteConfig(ConfigBank(mem, bank), sequence, settings, instances);
  }

  lemma NoRecordLeft(before: seq<byte>, after: seq<byte>, bank: nat)
    requires |before| == |after| == NOR_BYTES && bank <= 1
    requires ConfigRecord(after, 1 - bank) == ConfigRecord(before, 1 - bank) && ConfigRecord(after, bank) == None
    ensures ConfigLost(before, after, bank)
  {
    hide ConfigRecord;
  }

  /**
   * `g100_config_save`. Whatever the flash does, the pair in force afterwards is the old pair or the new
   * one, never a mixture, and it is the new one when the call reports success. On faultless flash the call
   * succeeds exactly when the texts are within bounds and the sequence numbers are not exhausted, or when
   * the pair is already stored. The new pair is in force exactly when the commit word `landed`, whatever
   * the call reports.
   */
  method Save(nor: Nor, settings: seq<byte>, instances: seq<byte>) returns (ok: bool, ghost landed: bool)
    requires nor.Valid() && 0 !in settings && 0 !in instances
    modifies nor.mem, nor`powered, nor`committed, nor`twice
    ensures nor.Valid() && nor.committed == old(nor.committed) && nor.twice == old(nor.twice)
    ensures InBank(old(nor.Flash()), nor.Flash(), old(ConfigTarget(nor.Flash())))
    ensures ConfigRead(nor.Flash()) ==
              if landed && Storable(settings, instances) then
                  Some(Config(NextConfig(old(nor.Flash())), settings, instances))
              else ConfigRead(old(nor.Flash()))
    ensures Storable(settings, instances) && !Stored(old(nor.Flash()), settings, instances) ==>
              (ConfigRead(nor.Flash()) == Some(Config(NextConfig(old(nor.Flash())), settings, instances)) <==> landed)
    ensures ok ==> Stored(nor.Flash(), settings, instances)
    ensures Stored(old(nor.Flash()), settings, instances) && FitsBuffers(settings, instances) ==>
              ok && nor.Flash() == old(nor.Flash())
    ensures old(nor.powered) && nor.reliable ==>
              nor.powered && ok == Accepted(old(nor.Flash()), settings, instances)
  {
    hide MetaRead, ConfigRecord, InBank, ConfigHeaderFor, Completed, ConfigLost, Prepared, ConfigOffset;
    ghost var m0 := nor.Flash();
    BankUnchanged(m0, ConfigTarget(m0));
    if |settings| + 1 > SETTINGS_MAX || |instances| + 1 > INSTANCES_MAX {
      return false, false;
    }
    var now := ConfigRead(nor.mem[..]);
    if now.Some? && now.value.settings == settings && now.value.instances == instances {
      return true, false;
    }
    var sequence: u32 := if now.Some? then (now.value.sequence + 1) % TWO32 else 1;
    if sequence == 0 {
      return false, false;
    }
    var payload := ConfigPayload(settings, instances);
    var h := ConfigHeaderFor(sequence, settings, instances);
    var bank := if ConfigLatest(nor.mem[..]) == 0 then 1 else 0;
    HeaderForMagic(sequence, settings, instances);
    ok, landed := WriteRecord(nor, bank, h, payload);
    SaveOutcome(m0, nor.Flash(), settings, instances);
  }

  // ---------------------------------------------------------------- a save that fails after it took force

  const BRACKETS: seq<byte> := [0x5B, 0x5D]

  /** Bank 0 of blank flash, just before the commit word of the pair is programmed. */
  function BeforeCommit(settings: seq<byte>, instances: seq<byte>): (mem: seq<byte>)
    requires FitsBuffers(settings, instances)
    ensures |mem| == NOR_BYTES
  {
    var h := ConfigHeaderFor(1, settings, instances);
    Overwrite(Erased(NOR_BYTES), CONFIG0_OFFSET + 4, ConfigHeaderBytes(h)[4..] + ConfigPayload(settings, instances))
  }

  function CommitWord(settings: seq<byte>, instances: seq<byte>): (word: seq<byte>)
    requires FitsBuffers(settings, instances)
    ensures |word| == 4
  {
    ConfigHeaderBytes(ConfigHeaderFor(1, settings, instances))[..4]
  }

  /** The same flash with the commit word. */
  function AfterCommit(settings: seq<byte>, instances: seq<byte>): (mem: seq<byte>)
    requires FitsBuffers(settings, instances)
    ensures |mem| == NOR_BYTES
  {
    ProgramEffect(BeforeCommit(settings, instances), CONFIG0_OFFSET, CommitWord(settings, instances), 4)
  }

  /**
   * The last operation of a save may report failure although all of its word landed; there the pair comes
   * into force although the call fails, if it can be read at all.
   */
  lemma LandedUnreported(settings: seq<byte>, instances: seq<byte>)
    requires FitsBuffers(settings, instances) && 0 !in settings && 0 !in instances
    ensures ProgramOutcome(BeforeCommit(settings, instances), AfterCommit(settings, instances), CONFIG0_OFFSET,
                           CommitWord(settings, instances), false, 4, false)
    ensures ConfigRead(BeforeCommit(settings, instances)) == None
    ensures ConfigRead(AfterCommit(settings, instances)) ==
              if Storable(settings, instances) then Some(Config(1, settings, instances)) else None
  {
    hide ProgramEffect, ConfigHeaderFor, ConfigHeaderBytes, ConfigRecord, Completed, ConfigPayload, BeforeCommit,
      FitsBuffers;
    var m, after := BeforeCommit(settings, instances), AfterCommit(settings, instances);
    CommitCompletes(settings, instances);
    CompletedRecord(after, 0, 1, settings, instances);
    if Storable(settings, instances) {
      NewConfigTakes(m, after, Config(1, settings, instances));
    }
  }

  /** A pair with a text of one character is written in full and never read back. */
  lemma ShortTextUnread()
    ensures var m := AfterCommit([0x7B], BRACKETS);
            && Completed(m, 0, ConfigHeaderFor(1, [0x7B], BRACKETS), ConfigPayload([0x7B], BRACKETS))
            && ConfigRead(m) == None
  {
    hide ConfigRead, AfterCommit, BeforeCommit, ProgramEffect, ConfigHeaderFor, Completed, CommitWord;
    CommitCompletes([0x7B], BRACKETS);
    LandedUnreported([0x7B], BRACKETS);
  }

  lemma CommitCompletes(settings: seq<byte>, instances: seq<byte>)
    requires FitsBuffers(settings, instances)
    ensures |settings| < SETTINGS_MAX && |instances| < INSTANCES_MAX
    ensures |ConfigPayload(settings, instances)| == |settings| + |instances| + 2
    ensures Completed(AfterCommit(settings, instances), 0, ConfigHeaderFor(1, settings, instances),
                      ConfigPayload(settings, instances))
    ensures ConfigRecord(BeforeCommit(settings, instances), 0) == None
    ensures ConfigRecord(BeforeCommit(settings, instances), 1) == None
    ensures ConfigRecord(AfterCommit(settings, instances), 1) == None
  {
    hide ProgramEffect, ConfigHeaderFor, ConfigHeaderBytes, ConfigRecord, InBank, BeforeCommit, Crc32, ConfigBank,
      Erased;
    var h, m, after := ConfigHeaderFor(1, settings, instances), BeforeCommit(settings, instances),
        AfterCommit(settings, instances);
    HeaderForMagic(1, settings, instances);
    ConfigMagicBytes(h);
    BeforeCommitParts(settings, instances);
    ConfigMagicProgrammed(m, after, 0, ConfigPayload(settings, instances), ConfigHeaderBytes(h), 4);
    BankWriteKeeps(m, after, 0);
    NothingProgrammed(CONFIG_MAGIC);
    NoMagicNoConfig(m, 0, 0);
  }

  lemma BeforeCommitParts(settings: seq<byte>, instances: seq<byte>)
    requires FitsBuffers(settings, instances)
    ensures var m, head := BeforeCommit(settings, instances),
              ConfigHeaderBytes(ConfigHeaderFor(1, settings, instances));
            var off, payload := CONFIG0_OFFSET, ConfigPayload(settings, instances);
            && m[off..off + 4] == Erased(4)
            && m[off + 4..off + CONFIG_HEADER_BYTES] == head[4..]
            && m[off + CONFIG_HEADER_BYTES..off + CONFIG_HEADER_BYTES + |payload|] == payload
            && ConfigRecord(m, 1) == None
  {
    hide ConfigHeaderFor, ConfigHeaderBytes, ConfigRecord, Erased;
    var head, payload := ConfigHeaderBytes(ConfigHeaderFor(1, settings, instances)), ConfigPayload(settings, instances);
    var blank, off, d := Erased(NOR_BYTES), CONFIG0_OFFSET, head[4..] + payload;
    var m := Overwrite(blank, off + 4, d);
    OverwriteFrame(blank, off + 4, d);
    FreeCells(blank, off, NOR_BYTES - off, 4);
    SliceOutside(blank, m, off + 4, off + 4 + |d|, off, off + 4);
    SubSlice(m, off + 4, off + 4 + |d|, 0, CONFIG_HEADER_BYTES - 4);
    SubSlice(m, off + 4, off + 4 + |d|, CONFIG_HEADER_BYTES - 4, |d|);
    FreeCells(blank, CONFIG1_OFFSET, NOR_BYTES - CONFIG1_OFFSET, 4);
    SliceOutside(blank, m, off + 4, off + 4 + |d|, CONFIG1_OFFSET, CONFIG1_OFFSET + 4);
    NothingProgrammed(CONFIG_MAGIC);
    NoMagicNoConfig(m, 1, 0);
  }

  /** Faultless flash can take the pair: it is there already, or it is within bounds and can be numbered. */
  predicate Accepted(mem: seq<byte>, settings: seq<byte>, instances: seq<byte>)
    requires |mem| == NOR_BYTES
  {
    || (Stored(mem, settings, instances) && FitsBuffers(settings, instances))
    || (Storable(settings, instances) && NextConfig(mem) != 0)
  }

  predicate FitsBuffers(settings: seq<byte>, instances: seq<byte>)
  {
    |settings| < SETTINGS_MAX && |instances| < INSTANCES_MAX
  }

  lemma HeaderForMagic(sequence: u32, settings: seq<byte>, instances: seq<byte>)
    requires FitsBuffers(settings, instances)
    ensures ConfigHeaderFor(sequence, settings, instances).magic == CONFIG_MAGIC
  {
  }

  /** The three phases of a save: erase, payload, header. */
  method WriteRecord(nor: Nor, bank: nat, h: ConfigHeader, payload: seq<byte>) returns (ok: bool, ghost landed: bool)
    requires nor.Valid() && bank <= 1 && 0 < |payload| <= CONFIG_BANK_BYTES - CONFIG_HEADER_BYTES
               && h.magic == CONFIG_MAGIC
    modifies nor.mem, nor`powered, nor`committed, nor`twice
    ensures nor.Valid() && nor.committed == old(nor.committed) && nor.twice == old(nor.twice)
    ensures InBank(old(nor.Flash()), nor.Flash(), bank)
    ensures if landed then Completed(nor.Flash(), bank, h, payload) else ConfigLost(old(nor.Flash()), nor.Flash(), bank)
    ensures ok ==> landed && ConfigRecord(nor.Flash(), bank).Some?
    ensures old(nor.powered) && nor.reliable ==> nor.powered && landed && ok == ConfigRecord(nor.Flash(), bank).Some?
  {
    hide MetaRead, ConfigRecord, InBank, Completed, Prepared, ConfigOffset;
    ghost var m0 := nor.Flash();
    landed := false;
    ok := EraseBank(nor, bank, CONFIG_HEADER_BYTES + |payload|);
    ghost var m1 := nor.Flash();
    if !ok {
      return;
    }
    PreparedStart(m1, bank, payload);
    ok := WritePayload(nor, bank, payload);
    ghost var m2 := nor.Flash();
    BankTrans(m0, m1, m2, bank);
    PreparedNoConfig(m0, m2, bank, payload, 0);
    if !ok {
      return;
    }
    ok, landed := CommitConfig(nor, bank, h, payload);
    BankTrans(m0, m2, nor.Flash(), bank);
    BankWriteKeeps(m0, nor.Flash(), bank);
    ok := ok && ConfigRecord(nor.mem[..], bank).Some?;
  }
}
