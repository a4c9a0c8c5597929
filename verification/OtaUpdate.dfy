/** The update service shared by the application and factory recovery (ota_update.c). */
module OtaUpdate {
  import opened Arithmetic
  import opened Bytes
  import opened Crc
  import opened BootFormat
  import opened ConfigFormat
  import opened BoardMemory
  import opened BootState
  import opened BootSafety
  import opened BootPolicy
  import opened OtaAuth
  import opened Text

  const CHUNK_BYTES := 16384
  const IDLE := 0
  const RECEIVING := 1
  const VERIFIED := 2
  const ACTIVATED := 3
  const FAILED := 4
  const RESETTING := 5

  const ZERO_HEADER := Header(0, 0, 0, 0, 0, 0, 0, 0, Cleared(32), Cleared(15), 0)

  function Cleared(n: nat): (s: seq<byte>)
    ensures |s| == n
  {
    seq(n, i => 0)
  }

  /** The static `upload` struct. */
  datatype Upload = Upload(
    header: Header, slot: u32, base: u32, received: u32, metadataSequence: u32,
    resetAt: u32, lastWrite: u32, state: u32)

  const NO_UPLOAD := Upload(ZERO_HEADER, 0, 0, 0, 0, 0, 0, IDLE)

  /** `header_valid` */
  predicate HeaderValid(h: Header)
  {
    && h.magic == IMAGE_MAGIC && h.format == 1 && h.board == BOARD_ID && h.loadAddress == SDRAM_BASE && h.flags == 0
    && 1024 <= h.imageBytes <= IMAGE_MAX && h.imageBytes % 4 == 0
    && h.generation != 0 && h.generation != SLOT_NONE && h.headerCrc == Crc32(HeaderBody(h))
    && forall i :: 0 <= i < 15 ==> h.reserved[i] == 0
  }

  function SlotFloor(mem: seq<byte>, slot: u32, n: u32): u32
    requires |mem| == NOR_BYTES && slot <= 1
  {
    if ImageHeaderRead(mem, slot) then Max(n, HeaderAt(mem, slot).generation) else n
  }

  /** `generation_floor`: the highest generation found in the record or in a slot header. */
  function GenerationFloor(mem: seq<byte>, m: Meta): u32
    requires |mem| == NOR_BYTES
  {
    SlotFloor(mem, 1, SlotFloor(mem, 0, HighWater(m)))
  }

  function PayloadBase(slot: u32): nat
    requires slot <= 1
  {
    SlotOffset(slot) + IMAGE_HEADER_BYTES
  }

  /** The end of the last payload sector that has been started after `received` bytes. */
  function SectorEnd(received: nat): nat
  {
    (received + SECTOR - 1) / SECTOR * SECTOR
  }

  /** The bytes received so far are in flash, and the rest of their last sector is erased. */
  predicate PayloadStored(mem: seq<byte>, slot: u32, accepted: seq<byte>)
    requires |mem| == NOR_BYTES && slot <= 1 && |accepted| <= IMAGE_MAX
  {
    var p, end := PayloadBase(slot), SectorEnd(|accepted|);
    && mem[p..p + |accepted|] == accepted
    && mem[p + |accepted|..p + end] == Erased(end - |accepted|)
  }

  /** What holds from `begin` until the upload ends; `accepted` are the payload bytes received so far. */
  predicate Uploading(mem: seq<byte>, u: Upload, running: u32, accepted: seq<byte>, sha: Hash)
    requires |mem| == NOR_BYTES
  {
    && u.slot <= 1 && u.base == SlotOffset(u.slot) && u.slot != running && HeaderValid(u.header)
    && (Unnamed(mem, u.slot, u.metadataSequence, u.header.generation)
        || (u.state == VERIFIED && Recorded(mem, u.slot, u.metadataSequence)))
    && u.received == |accepted| && |accepted| <= u.header.imageBytes as int && |accepted| % 4 == 0
    && PayloadStored(mem, u.slot, accepted)
    && (u.state == RECEIVING ==> mem[u.base..u.base as int + SECTOR] == Erased(SECTOR))
    && (u.state == VERIFIED ==> |accepted| == u.header.imageBytes as int && Committed(mem, u.slot, u.header, sha))
  }

  /** The record in force is the one `begin` saw; it does not name the target slot. */
  predicate Unnamed(mem: seq<byte>, slot: u32, sequence: u32, generation: u32)
    requires |mem| == NOR_BYTES
  {
    var now := MetaRead(mem);
    && now.Some? && now.value.sequence == sequence
    && now.value.trialSlot == SLOT_NONE && now.value.confirmedSlot != slot
    && generation > HighWater(now.value)
  }

  /** A verified upload whose record is still in force and can be succeeded. */
  predicate Activatable(mem: seq<byte>, u: Upload)
    requires |mem| == NOR_BYTES
  {
    u.state == VERIFIED && Unnamed(mem, u.slot, u.metadataSequence, u.header.generation) && NextSequence(mem) != 0
  }

  /** The record in force was replaced by its successor, whose trial is this image. */
  ghost predicate TrialRecorded(before: seq<byte>, after: seq<byte>, slot: u32, generation: u32)
    requires |before| == |after| == NOR_BYTES
  {
    Replaces(before, after, Activates) && RunningTrial(after, slot, generation)
  }

  /** `activate` took effect although the flash reported a failure: the slot is the recorded trial. */
  predicate Recorded(mem: seq<byte>, slot: u32, sequence: u32)
    requires |mem| == NOR_BYTES
  {
    var now := MetaRead(mem);
    now.Some? && now.value.trialSlot == slot && now.value.sequence == sequence + 1
  }

  /** The target slot holds the verified image and its header. */
  predicate Committed(mem: seq<byte>, slot: u32, h: Header, sha: Hash)
    requires |mem| == NOR_BYTES && slot <= 1
  {
    HeaderAt(mem, slot) == h && Verified(mem, slot, h.generation, sha)
  }

  // ---------------------------------------------------------------- one page of payload

  lemma {:induction false} Rounding(n: nat, k: nat)
    requires n <= k && k % SECTOR == 0
    ensures n <= SectorEnd(n) <= k && SectorEnd(n) % SECTOR == 0
    ensures n % SECTOR == 0 ==> SectorEnd(n) == n
    ensures n % SECTOR != 0 ==> SectorEnd(n) == n - n % SECTOR + SECTOR
  {
  }

  /** Erasing the sector that starts at the end of the received bytes makes room for the next page. */
  lemma SectorStarted(before: seq<byte>, after: seq<byte>, slot: u32, accepted: seq<byte>)
    requires |before| == NOR_BYTES && slot <= 1 && |accepted| < IMAGE_MAX && |accepted| % SECTOR == 0
    requires PayloadStored(before, slot, accepted)
    requires EraseEffect(before, after, PayloadBase(slot) + |accepted|, true)
    ensures PayloadStored(after, slot, accepted)
    ensures PageFree(after, slot, accepted)
  {
    var p, n := PayloadBase(slot), |accepted|;
    SliceOutside(before, after, p + n, p + n + SECTOR, p, p + n);
  }

  /** How much of the current sector is left after `n` bytes; a full sector when `n` starts one. */
  function Room(n: nat): (r: nat)
    ensures 0 < r <= SECTOR
  {
    SECTOR - n % SECTOR
  }

  /** The rest of the sector after the received bytes is erased, and there is such a rest. */
  predicate PageFree(mem: seq<byte>, slot: u32, accepted: seq<byte>)
    requires |mem| == NOR_BYTES && slot <= 1 && |accepted| < IMAGE_MAX
  {
    var at := PayloadBase(slot) + |accepted|;
    at + Room(|accepted|) <= NOR_BYTES && mem[at..at + Room(|accepted|)] == Erased(Room(|accepted|))
  }

  /** A page that reads back as programmed extends the stored payload. */
  lemma PageStored(before: seq<byte>, slot: u32, accepted: seq<byte>, data: seq<byte>, done: nat)
    requires |before| == NOR_BYTES && slot <= 1 && |accepted| + |data| <= IMAGE_MAX && done <= |data|
    requires 0 < |data| <= Room(|accepted|) && PageFree(before, slot, accepted)
    requires PayloadStored(before, slot, accepted)
    requires var at := PayloadBase(slot) + |accepted|;
             Overwrite(before, at, data[..done])[at..at + |data|] == data
    ensures PayloadStored(Overwrite(before, PayloadBase(slot) + |accepted|, data[..done]), slot, accepted + data)
  {
    hide Overwrite, SameOutside, Room, SectorEnd, PayloadBase, Erased;
    var p, n := PayloadBase(slot), |accepted|;
    var at, room := p + n, Room(n);
    var after := Overwrite(before, at, data[..done]);
    OverwriteInside(before, at, data[..done], at, at + |data|);
    FreeCells(before, at, room, |data|);
    SliceOutside(before, after, at, at + |data|, p, at);
    SliceOutside(before, after, at, at + |data|, at + |data|, at + room);
    JoinSlices(after, p, at, at + |data|);
    RoomLeft(n, |data|);
    assert p + |accepted + data| == at + |data| && p + SectorEnd(|accepted + data|) == at + room;
  }

  /** Filling part of the room leaves the sector end where it was. */
  lemma RoomLeft(n: nat, count: nat)
    requires 0 < count <= Room(n)
    ensures SectorEnd(n + count) == n + Room(n)
  {
  }

  /** A write inside the payload area of a slot leaves its header sector and everything else alone. */
  lemma PayloadInSlot(before: seq<byte>, after: seq<byte>, slot: u32)
    requires |before| == NOR_BYTES && slot <= 1
    requires SameOutside(before, after, PayloadBase(slot), SlotEnd(slot))
    ensures SameOutside(before, after, SlotOffset(slot), SlotEnd(slot))
    ensures after[SlotOffset(slot)..PayloadBase(slot)] == before[SlotOffset(slot)..PayloadBase(slot)]
  {
    SameOutsideTrans(before, before, after, SlotOffset(slot), SlotEnd(slot), PayloadBase(slot), SlotEnd(slot));
    SliceOutside(before, after, PayloadBase(slot), SlotEnd(slot), SlotOffset(slot), PayloadBase(slot));
  }

  /** The payload of a slot starts a sector. */
  lemma PayloadAligned(slot: u32, n: nat)
    requires slot <= 1
    ensures (PayloadBase(slot) + n) % SECTOR == n % SECTOR
    ensures (PayloadBase(slot) + n) % PAGE == n % SECTOR % PAGE
  {
    assert PayloadBase(slot) == if slot == 0 then 257 * SECTOR else 1281 * SECTOR;
    SectorsAdded(if slot == 0 then 257 else 1281, n);
  }

  lemma SectorsAdded(k: nat, n: nat)
    ensures (k * SECTOR + n) % SECTOR == n % SECTOR && (k * SECTOR + n) % PAGE == n % SECTOR % PAGE
  {
    var q, r := n / SECTOR, n % SECTOR;
    DivUnique(k * SECTOR + n, SECTOR, k + q, r);
    DivUnique(k * SECTOR + n, PAGE, (k + q) * (SECTOR / PAGE) + r / PAGE, r % PAGE);
  }

  /** The stored payload with an unfinished sector has room for a page. */
  lemma StoredFree(mem: seq<byte>, slot: u32, accepted: seq<byte>)
    requires |mem| == NOR_BYTES && slot <= 1 && |accepted| < IMAGE_MAX && |accepted| % SECTOR != 0
    requires PayloadStored(mem, slot, accepted)
    ensures PageFree(mem, slot, accepted)
  {
  }

  /** A payload sector or page lies inside its slot. */
  lemma PayloadInside(slot: u32, n: nat, count: nat)
    requires slot <= 1 && n + count <= IMAGE_MAX
    ensures PayloadBase(slot) + n + count <= SlotEnd(slot) <= NOR_BYTES
    ensures 0 < count ==> WritableImageRange(PayloadBase(slot) + n, count)
    ensures n % SECTOR == 0 && n < IMAGE_MAX ==>
              PayloadBase(slot) + n + SECTOR <= SlotEnd(slot) && WritableImageRange(PayloadBase(slot) + n, SECTOR)
  {
    assert IMAGE_MAX % SECTOR == 0;
    if n % SECTOR == 0 && n < IMAGE_MAX {
      assert n / SECTOR * SECTOR == n && n / SECTOR < IMAGE_MAX / SECTOR;
    }
  }

  /** Payload writes do not touch the boot records. */
  lemma PayloadKeepsRecords(before: seq<byte>, after: seq<byte>, slot: u32)
    requires |before| == NOR_BYTES && slot <= 1 && SameOutside(before, after, PayloadBase(slot), SlotEnd(slot))
    ensures |after| == NOR_BYTES && MetaRead(after) == MetaRead(before)
  {
    RecordsKept(before, after, PayloadBase(slot), SlotEnd(slot));
  }

  /** Erases the sector at the end of the received bytes, when they fill whole sectors. */
  method StartSector(nor: Nor, slot: u32, at: u32, ghost accepted: seq<byte>) returns (ok: bool)
    requires nor.Valid() && slot <= 1 && |accepted| < IMAGE_MAX && at as int == PayloadBase(slot) + |accepted|
    requires PayloadStored(nor.Flash(), slot, accepted)
    modifies nor.mem, nor`powered, nor`committed
    ensures nor.Valid() && nor.committed == old(nor.committed)
    ensures SameOutside(old(nor.Flash()), nor.Flash(), PayloadBase(slot), SlotEnd(slot))
    ensures ok ==> PayloadStored(nor.Flash(), slot, accepted) && PageFree(nor.Flash(), slot, accepted)
    ensures old(nor.powered) && nor.reliable ==> ok && nor.powered
  {
    hide MetaRead, EraseEffect, PayloadStored, PageFree, SameOutside, WritableImageRange, PayloadBase, SlotEnd, Erased;
    ghost var m0 := nor.Flash();
    PayloadAligned(slot, |accepted|);
    PayloadInside(slot, |accepted|, 0);
    UnchangedInside(m0, PayloadBase(slot), SlotEnd(slot));
    if at % SECTOR != 0 {
      StoredFree(m0, slot, accepted);
      return true;
    }
    ok := nor.ImageErase(at);
    if EraseEffect(m0, nor.Flash(), at, ok) {
      ErasedInside(m0, nor.Flash(), at, ok, PayloadBase(slot), SlotEnd(slot));
    }
    PayloadKeepsRecords(m0, nor.Flash(), slot);
    if ok {
      SectorStarted(m0, nor.Flash(), slot, accepted);
    }
  }

  /** A page never reaches past the end of its sector. */
  lemma PageFits(slot: u32, accepted: seq<byte>, data: seq<byte>)
    requires slot <= 1 && |accepted| + |data| <= IMAGE_MAX && OnePage(PayloadBase(slot) + |accepted|, data)
    ensures 0 < |data| <= Room(|accepted|)
  {
    PayloadAligned(slot, |accepted|);
  }

  /** The cells a page goes into are free. */
  lemma PageCells(mem: seq<byte>, slot: u32, accepted: seq<byte>, data: seq<byte>)
    requires |mem| == NOR_BYTES && slot <= 1 && |accepted| + |data| <= IMAGE_MAX
    requires 0 < |data| <= Room(|accepted|) && PageFree(mem, slot, accepted)
    ensures mem[PayloadBase(slot) + |accepted|..PayloadBase(slot) + |accepted| + |data|] == Erased(|data|)
  {
    FreeCells(mem, PayloadBase(slot) + |accepted|, Room(|accepted|), |data|);
  }

  /** Programs a page of payload into free cells and reads it back. */
  method FillPage(nor: Nor, slot: u32, at: u32, data: seq<byte>, ghost accepted: seq<byte>) returns (ok: bool)
    requires nor.Valid() && slot <= 1 && |accepted| + |data| <= IMAGE_MAX && at as int == PayloadBase(slot) + |accepted|
    requires OnePage(at, data)
    requires PayloadStored(nor.Flash(), slot, accepted) && PageFree(nor.Flash(), slot, accepted)
    modifies nor.mem, nor`powered, nor`committed, nor`twice
    ensures nor.Valid() && nor.twice == old(nor.twice) && nor.committed == old(nor.committed)
    ensures SameOutside(old(nor.Flash()), nor.Flash(), PayloadBase(slot), SlotEnd(slot))
    ensures ok ==> PayloadStored(nor.Flash(), slot, accepted + data)
    ensures old(nor.powered) && nor.reliable ==> ok && nor.powered
  {
    hide MetaRead, ProgramEffect, SameOutside, Room, PayloadStored, PageFree, OnePage, WritableImageRange,
      PayloadBase, SlotEnd, Erased;
    ghost var m0 := nor.Flash();
    PageFits(slot, accepted, data);
    PayloadInside(slot, |accepted|, |data|);
    PageCells(m0, slot, accepted, data);
    ghost var done;
    ok, done := nor.ImageProgram(at, data);
    PageEffect(m0, nor.Flash(), slot, accepted, data, done);
    PayloadKeepsRecords(m0, nor.Flash(), slot);
    ok := ok && nor.mem[at..at as int + |data|] == data;
  }

  /** What programming a page into free cells can leave. */
  lemma PageEffect(before: seq<byte>, after: seq<byte>, slot: u32, accepted: seq<byte>, data: seq<byte>, done: nat)
    requires |before| == NOR_BYTES && slot <= 1 && |accepted| + |data| <= IMAGE_MAX && done <= |data|
    requires 0 < |data| <= Room(|accepted|) && PageFree(before, slot, accepted) && PayloadStored(before, slot, accepted)
    requires after == before || after == ProgramEffect(before, PayloadBase(slot) + |accepted|, data, done)
    ensures SameOutside(before, after, PayloadBase(slot), SlotEnd(slot))
    ensures var at := PayloadBase(slot) + |accepted|;
            && (after[at..at + |data|] == data ==> PayloadStored(after, slot, accepted + data))
            && (after == ProgramEffect(before, at, data, done) && done == |data| ==> after[at..at + |data|] == data)
  {
    hide ProgramEffect, Overwrite, SameOutside, Room, PayloadStored;
    var at := PayloadBase(slot) + |accepted|;
    PayloadInside(slot, |accepted|, |data|);
    FreeCells(before, at, Room(|accepted|), |data|);
    ProgramFree(before, at, data, done);
    var d := if after == ProgramEffect(before, at, data, done) then data[..done] else [];
    NothingWritten(before, at);
    OverwriteInside(before, at, d, PayloadBase(slot), SlotEnd(slot));
    OverwriteFrame(before, at, d);
    if after[at..at + |data|] == data {
      PageStored(before, slot, accepted, data, |d|);
    }
  }

  /**
   * One iteration of the write loop of `append`: starts the sector if the page begins one, programs the
   * page and reads it back.
   */
  method StorePage(nor: Nor, slot: u32, at: u32, data: seq<byte>, ghost accepted: seq<byte>) returns (ok: bool)
    requires nor.Valid() && slot <= 1 && |accepted| + |data| <= IMAGE_MAX && at as int == PayloadBase(slot) + |accepted|
    requires OnePage(at, data)
    requires PayloadStored(nor.Flash(), slot, accepted)
    modifies nor.mem, nor`powered, nor`committed, nor`twice
    ensures nor.Valid() && nor.twice == old(nor.twice) && nor.committed == old(nor.committed)
    ensures SameOutside(old(nor.Flash()), nor.Flash(), PayloadBase(slot), SlotEnd(slot))
    ensures ok ==> PayloadStored(nor.Flash(), slot, accepted + data)
    ensures old(nor.powered) && nor.reliable ==> ok && nor.powered
  {
    hide MetaRead, SameOutside, PayloadStored, PageFree;
    ghost var m0 := nor.Flash();
    ok := StartSector(nor, slot, at, accepted);
    if ok {
      ghost var m1 := nor.Flash();
      ok := FillPage(nor, slot, at, data, accepted);
      PayloadInside(slot, |accepted|, |data|);
      SameOutsideTrans(m0, m1, nor.Flash(), PayloadBase(slot), SlotEnd(slot), PayloadBase(slot), SlotEnd(slot));
    }
  }

  // ---------------------------------------------------------------- begin

  datatype Status = Status(
    uid: string, recovery: bool, authReady: bool, nonce: Digest, sequence: u32, metadataValid: bool,
    confirmedSlot: u32, confirmedGeneration: u32, metadataSequence: u32, trialSlot: u32, trialGeneration: u32,
    generationFloor: u32, runningSlot: u32, runningGeneration: u32, runningSha: Option<Digest>,
    bootConfirmed: bool, healthy: bool, uploadState: u32, targetSlot: u32, received: u32, imageBytes: u32)

  /** HTTP replies; `Failure` carries `ok: false`, every other reply `ok: true`. */
  datatype Reply =
    | Failure(code: int, reason: string)
    | Begun(slot: u32, chunkBytes: u32)
    | Received(received: u32)
    | VerifiedReply
    | ResetPending
    | StatusReply(status: Status)

  datatype Outcome = Ready(meta: Meta) | Refused(reply: Reply)

  /** A trial that recovery gives up: out of attempts, or without a valid image. */
  predicate Abandoned(mem: seq<byte>, m: Meta)
    requires |mem| == NOR_BYTES
  {
    m.trialSlot != SLOT_NONE && (m.trialAttempts >= MAX_TRIAL_ATTEMPTS || !ImageValidate(mem, m.trialSlot))
  }

  /** The record `begin` works with: recovery starts afresh without one, and gives an abandoned trial up. */
  function Opened(mem: seq<byte>, recovery: bool): Meta
    requires |mem| == NOR_BYTES
  {
    var now := MetaRead(mem);
    if now.None? then EMPTY_META
    else if recovery && Abandoned(mem, now.value) then Retired(now.value) else now.value
  }

  /** The record in force names a slot with a valid image. */
  predicate Bootable(mem: seq<byte>)
    requires |mem| == NOR_BYTES
  {
    var now := MetaRead(mem);
    && now.Some?
    && ((now.value.trialSlot <= 1 && ImageValidate(mem, now.value.trialSlot))
        || (now.value.confirmedSlot <= 1 && ImageValidate(mem, now.value.confirmedSlot)))
  }

  /** Recovery also drops a confirmed image that does not validate. */
  function Dropped(mem: seq<byte>, recovery: bool, m: Meta): Meta
    requires |mem| == NOR_BYTES
  {
    if recovery && m.confirmedSlot <= 1 && !ImageValidate(mem, m.confirmedSlot) then m.(confirmedSlot := SLOT_NONE)
        else m
  }

  /** The two records name the same slots and the same high-water mark. */
  predicate SameUse(a: Meta, b: Meta)
  {
    a.trialSlot == b.trialSlot && a.confirmedSlot == b.confirmedSlot && HighWater(a) == HighWater(b)
  }

  /** The record in force can be succeeded `n` times. */
  predicate CanSucceed(mem: seq<byte>, n: nat)
    requires |mem| == NOR_BYTES
  {
    MetaRead(mem).Some? ==> MetaRead(mem).value.sequence as int + n < TWO32
  }

  lemma RoomForNext(mem: seq<byte>)
    requires |mem| == NOR_BYTES && CanSucceed(mem, 1)
    ensures NextSequence(mem) != 0
  {
    hide MetaValid;
  }

  const REPAIR_FAILED := Failure(500, "METADATA_REPAIR_FAILED")

  /** The first half of `begin`: recovery may replace an unreadable record and retire an abandoned trial. */
  method OpenRecord(nor: Nor, recovery: bool, ghost sha: Hash) returns (r: Outcome)
    requires nor.Valid()
    modifies nor.mem, nor`powered, nor`committed, nor`twice
    ensures nor.Valid() && nor.twice == old(nor.twice) && old(nor.committed) <= nor.committed
    ensures SameOutside(old(nor.Flash()), nor.Flash(), META0_OFFSET, META1_OFFSET + SECTOR)
    ensures Safe(old(nor.Flash()), old(nor.committed), sha) ==> Safe(nor.Flash(), nor.committed, sha)
    ensures r.Ready? ==> MetaRead(nor.Flash()) == Some(r.meta)
    ensures r.Refused? ==> r.reply == if recovery then REPAIR_FAILED else Failure(409, "RECOVERY_REQUIRED")
    ensures r.Ready? ==> SameUse(r.meta, Opened(old(nor.Flash()), recovery))
    ensures old((recovery || MetaRead(nor.Flash()).Some?) && nor.powered && nor.reliable
              && CanSucceed(nor.Flash(), 2)) ==>
              r.Ready? && nor.powered && CanSucceed(nor.Flash(), 1)
    ensures !recovery ==> nor.Flash() == old(nor.Flash()) && r.Ready? == MetaRead(nor.Flash()).Some?
    ensures old(MetaRead(nor.Flash()).Some? && !Abandoned(nor.Flash(), MetaRead(nor.Flash()).value)) ==>
              r.Ready? && nor.Flash() == old(nor.Flash()) && nor.powered == old(nor.powered)
  {
    hide MetaRead, ImageValidate, SameOutside, BanksAdjacent, MetaValid, Stamped, Safe;
    ghost var m0 := nor.Flash();
    NothingChanged(m0);
    var now := MetaRead(nor.mem[..]);
    var meta := if now.Some? then now.value else EMPTY_META;
    if now.None? {
      NeverUnreadable(m0, nor.committed, sha);
      if !recovery {
        return Refused(Failure(409, "RECOVERY_REQUIRED"));
      }
      var ok;
      StampedValid(m0, meta);
      StampedContent(m0, meta);
      ok, meta := MetaWrite(nor, meta);
      if !ok {
        return Refused(REPAIR_FAILED);
      }
      SameContentUse(meta, EMPTY_META.(magic := META_MAGIC, format := 1));
    }
    if recovery && Abandoned(nor.mem[..], meta) {
      ghost var m1, found := nor.Flash(), meta;
      ReadValidSlots(m1);
      if meta.trialGeneration > meta.reserved0 {
        meta := meta.(reserved0 := meta.trialGeneration);
      }
      meta := meta.(trialSlot := SLOT_NONE, trialGeneration := 0, trialAttempts := 0);
      assert meta == Retired(found);
      var ok;
      if CanSucceed(m1, 1) {
        RoomForNext(m1);
      }
      ok, meta := WriteTrial(nor, meta, sha);
      SameOutsideTrans(m0, m1, nor.Flash(), META0_OFFSET, META1_OFFSET + SECTOR, META0_OFFSET, META1_OFFSET + SECTOR);
      if !ok {
        return Refused(REPAIR_FAILED);
      }
      SameContentUse(meta, Retired(found));
    }
    return Ready(meta);
  }

  lemma SameContentUse(a: Meta, b: Meta)
    requires Content(a) == Content(b)
    ensures SameUse(a, b)
  {
  }

  /** The middle of `begin`: recovery drops a confirmed slot whose image no longer validates. */
  method DropCorrupt(nor: Nor, recovery: bool, m: Meta, ghost sha: Hash) returns (r: Outcome)
    requires nor.Valid() && MetaRead(nor.Flash()) == Some(m)
    modifies nor.mem, nor`powered, nor`committed, nor`twice
    ensures nor.Valid() && nor.twice == old(nor.twice) && old(nor.committed) <= nor.committed
    ensures SameOutside(old(nor.Flash()), nor.Flash(), META0_OFFSET, META1_OFFSET + SECTOR)
    ensures Safe(old(nor.Flash()), old(nor.committed), sha) ==>
              nor.Flash() == old(nor.Flash()) && nor.committed == old(nor.committed)
    ensures r.Ready? ==> MetaRead(nor.Flash()) == Some(r.meta) && HighWater(r.meta) == HighWater(m)
    ensures r.Ready? ==> r.meta.trialSlot == m.trialSlot && r.meta.confirmedSlot in {m.confirmedSlot, SLOT_NONE}
    ensures r.Refused? ==> r.reply == REPAIR_FAILED
    ensures r.Ready? ==> SameUse(r.meta, Dropped(old(nor.Flash()), recovery, m))
    ensures old(nor.powered && nor.reliable && CanSucceed(nor.Flash(), 1)) ==> r.Ready? && nor.powered
    ensures !recovery || m.confirmedSlot > 1 || old(ImageValidate(nor.Flash(), m.confirmedSlot)) ==>
              r == Ready(m) && nor.Flash() == old(nor.Flash()) && nor.powered == old(nor.powered)
  {
    hide MetaRead, ImageValidate, SameOutside, BanksAdjacent, MetaValid, Stamped, Safe;
    ghost var m0 := nor.Flash();
    NothingChanged(m0);
    ConfirmedBoots(m0, nor.committed, sha);
    var meta := m;
    if recovery && meta.confirmedSlot <= 1 && !ImageValidate(nor.mem[..], meta.confirmedSlot) {
      meta := meta.(confirmedSlot := SLOT_NONE);
      StampedContent(m0, meta);
      ReadValidSlots(m0);
      ReadValidAttempts(m0);
      StampedValid(m0, meta);
      if CanSucceed(m0, 1) {
        RoomForNext(m0);
      }
      var ok;
      ok, meta := MetaWrite(nor, meta);
      if !ok {
        return Refused(REPAIR_FAILED);
      }
      SameContentUse(meta, m.(confirmedSlot := SLOT_NONE, magic := META_MAGIC, format := 1));
    }
    return Ready(meta);
  }

  lemma ReadValidAttempts(mem: seq<byte>)
    requires |mem| == NOR_BYTES && MetaRead(mem).Some?
    ensures MetaRead(mem).value.trialAttempts <= MAX_TRIAL_ATTEMPTS
  {
    hide MetaBody, Crc32;
    ReadValid(mem);
  }

  /** The slot a new upload goes to. */
  function TargetSlot(m: Meta): (slot: u32)
    ensures slot <= 1 && slot != m.confirmedSlot
  {
    if m.confirmedSlot <= 1 then 1 - m.confirmedSlot else 0
  }

  /** A freshly erased target slot starts an upload. */
  lemma UploadStarts(before: seq<byte>, after: seq<byte>, u: Upload, m: Meta, running: u32, sha: Hash)
    requires |before| == |after| == NOR_BYTES && MetaRead(before) == Some(m) && m.trialSlot == SLOT_NONE
    requires u.slot == TargetSlot(m) && u.base == SlotOffset(u.slot) && u.slot != running && HeaderValid(u.header)
    requires u.received == 0 && u.metadataSequence == m.sequence && u.state == RECEIVING
    requires u.header.generation > HighWater(m)
    requires EraseEffect(before, after, u.base, true)
    ensures Uploading(after, u, running, [], sha)
  {
    hide MetaRead, TornErase, HeaderValid, HighWater, SameOutside, PayloadStored;
    RecordsKept(before, after, u.base, u.base as int + SECTOR);
    NothingStored(after, u.slot);
  }

  lemma NothingStored(mem: seq<byte>, slot: u32)
    requires |mem| == NOR_BYTES && slot <= 1
    ensures PayloadStored(mem, slot, [])
  {
  }

  lemma FloorAboveHighWater(mem: seq<byte>, m: Meta)
    requires |mem| == NOR_BYTES
    ensures GenerationFloor(mem, m) >= HighWater(m)
  {
    hide ImageHeaderRead, HeaderAt, HighWater;
  }

  lemma SlotErased(before: seq<byte>, after: seq<byte>, log: seq<Meta>, slot: u32, ok: bool, sha: Hash)
    requires |before| == NOR_BYTES && slot <= 1 && EraseEffect(before, after, SlotOffset(slot), ok)
    requires MetaRead(before).Some? && MetaRead(before).value.trialSlot == SLOT_NONE
    requires MetaRead(before).value.confirmedSlot != slot
    ensures MetaRead(after) == MetaRead(before)
    ensures Safe(before, log, sha) ==> Safe(after, log, sha)
    ensures SameOutside(before, after, SlotOffset(slot), SlotEnd(slot))
  {
    hide MetaRead, TornErase, Safe, SameOutside;
    ErasedInside(before, after, SlotOffset(slot), ok, SlotOffset(slot), SlotEnd(slot));
    RecordsKept(before, after, SlotOffset(slot), SlotEnd(slot));
    if Safe(before, log, sha) {
      SafeAfterSlotWrite(before, after, log, slot, sha);
    }
  }

  /** The request body is an acceptable image header. */
  predicate HeaderOffered(body: seq<byte>)
  {
    |body| == HEADER_BYTES && HeaderValid(HeaderOf(body))
  }

  /** The record in force allows an upload of this image to start right away. */
  predicate Startable(mem: seq<byte>, running: u32, h: Header)
    requires |mem| == NOR_BYTES
  {
    var now := MetaRead(mem);
    && now.Some? && now.value.trialSlot == SLOT_NONE
    && now.value.confirmedSlot <= 1 && ImageValidate(mem, now.value.confirmedSlot)
    && TargetSlot(now.value) != running && h.generation > GenerationFloor(mem, now.value)
  }

  /** The slot that `begin` would erase. */
  function UploadTarget(mem: seq<byte>, recovery: bool): (slot: u32)
    requires |mem| == NOR_BYTES
    ensures slot <= 1
  {
    TargetSlot(Dropped(mem, recovery, Opened(mem, recovery)))
  }

  /** Why `begin` refuses an image whose header is valid; failing flash aside, it refuses for no other reason. */
  function Refusal(mem: seq<byte>, recovery: bool, running: u32, h: Header): (r: Option<Reply>)
    requires |mem| == NOR_BYTES
    ensures r.Some? ==> r.value.Failure? && r.value.code == 409
  {
    var m := Opened(mem, recovery);
    if MetaRead(mem).None? && !recovery then Some(Failure(409, "RECOVERY_REQUIRED"))
    else if m.trialSlot != SLOT_NONE then Some(Failure(409, "TRIAL_PENDING"))
    else if m.confirmedSlot > 1 && !recovery then Some(Failure(409, "RECOVERY_REQUIRED"))
    else if h.generation <= GenerationFloor(mem, m) then Some(Failure(409, "GENERATION_NOT_NEWER"))
    else if UploadTarget(mem, recovery) == running then Some(Failure(409, "ACTIVE_SLOT_PROTECTED"))
    else None
  }

  /** The record found and cleaned up decides on the slot that the flash at the start decides on. */
  lemma TargetKept(m0: seq<byte>, m1: seq<byte>, recovery: bool, found: Meta, kept: Meta)
    requires |m0| == NOR_BYTES && SameOutside(m0, m1, META0_OFFSET, META1_OFFSET + SECTOR)
    requires SameUse(found, Opened(m0, recovery))
    requires |m1| == NOR_BYTES && SameUse(kept, Dropped(m1, recovery, found))
    ensures TargetSlot(kept) == UploadTarget(m0, recovery)
  {
    hide SameOutside, ImageValidate, Opened, HighWater, HeaderAt, ImageHeaderRead, Payload;
    var slot := found.confirmedSlot;
    if slot <= 1 {
      SlotKept(m0, m1, META0_OFFSET, META1_OFFSET + SECTOR, slot);
    }
  }

  const ERASE_FAILED := Failure(500, "HEADER_ERASE_FAILED")

  /** The answer to an acceptable request, on flash that may fail. */
  predicate Answers(mem: seq<byte>, recovery: bool, running: u32, h: Header, r: Reply)
    requires |mem| == NOR_BYTES
  {
    if r.Begun? then Refusal(mem, recovery, running, h) == None && r == Begun(UploadTarget(mem, recovery), CHUNK_BYTES)
    else Refusal(mem, recovery, running, h) == Some(r) || r == REPAIR_FAILED
         || (r == ERASE_FAILED && Refusal(mem, recovery, running, h) == None)
  }

  /** Nothing but the payload area of the slot changed. */
  predicate PayloadOnly(before: seq<byte>, after: seq<byte>, slot: u32)
    requires |before| == NOR_BYTES
  {
    slot <= 1 && SameOutside(before, after, PayloadBase(slot), SlotEnd(slot))
  }

  /** Nothing but the header sector of the slot changed. */
  predicate HeaderOnly(before: seq<byte>, after: seq<byte>, slot: u32)
    requires |before| == NOR_BYTES
  {
    slot <= 1 && SameOutside(before, after, SlotOffset(slot), PayloadBase(slot))
  }

  lemma SlotUnchanged(mem: seq<byte>, slot: u32)
    requires |mem| == NOR_BYTES && slot <= 1
    ensures PayloadOnly(mem, mem, slot) && HeaderOnly(mem, mem, slot)
  {
  }

  /** Nothing but boot records and the header sector of the slot changed. */
  predicate RecordsAndHeader(before: seq<byte>, after: seq<byte>, slot: u32)
    requires |before| == NOR_BYTES && slot <= 1
  {
    && |after| == NOR_BYTES && after[..META0_OFFSET] == before[..META0_OFFSET]
    && after[META1_OFFSET + SECTOR..SlotOffset(slot)] == before[META1_OFFSET + SECTOR..SlotOffset(slot)]
    && after[SlotOffset(slot) as int + SECTOR..] == before[SlotOffset(slot) as int + SECTOR..]
  }

  /** First the records, then the header sector. */
  lemma RecordsThenHeader(m0: seq<byte>, m1: seq<byte>, m2: seq<byte>, slot: u32)
    requires |m0| == NOR_BYTES && slot <= 1 && SameOutside(m0, m1, META0_OFFSET, META1_OFFSET + SECTOR)
    requires |m1| == NOR_BYTES && SameOutside(m1, m2, SlotOffset(slot), SlotOffset(slot) as int + SECTOR)
    ensures RecordsAndHeader(m0, m2, slot)
  {
    var off, end := SlotOffset(slot) as int, SlotOffset(slot) as int + SECTOR;
    SliceOutside(m0, m1, META0_OFFSET, META1_OFFSET + SECTOR, META1_OFFSET + SECTOR, off);
    SliceOutside(m0, m1, META0_OFFSET, META1_OFFSET + SECTOR, end, NOR_BYTES);
    SliceOutside(m1, m2, off, end, 0, META0_OFFSET);
    SliceOutside(m1, m2, off, end, META1_OFFSET + SECTOR, off);
    FromStart(m1, m2, META0_OFFSET);
    ToEnd(m0, m1, end);
  }

  /** Changes to the records alone. */
  lemma RecordsAlone(m0: seq<byte>, m1: seq<byte>, slot: u32)
    requires |m0| == NOR_BYTES && slot <= 1 && SameOutside(m0, m1, META0_OFFSET, META1_OFFSET + SECTOR)
    ensures RecordsAndHeader(m0, m1, slot)
  {
    var off, end := SlotOffset(slot) as int, SlotOffset(slot) as int + SECTOR;
    SliceOutside(m0, m1, META0_OFFSET, META1_OFFSET + SECTOR, META1_OFFSET + SECTOR, off);
    SliceOutside(m0, m1, META0_OFFSET, META1_OFFSET + SECTOR, end, NOR_BYTES);
    ToEnd(m0, m1, end);
  }

  /**
   * What no request changes: stage 0, the factory image, the provisioned key and the settings, the running slot,
   * and on a safe board the confirmed slot; `saved` admits a change of the settings.
   */
  predicate Contained(before: seq<byte>, after: seq<byte>, running: u32, safe: bool, saved: bool)
    requires |before| == NOR_BYTES
  {
    && Protected(before, after) && SlotUntouched(before, after, running)
    && (!saved ==> SettingsUntouched(before, after))
    && (safe && MetaRead(before).Some? ==> SlotUntouched(before, after, MetaRead(before).value.confirmedSlot))
  }

  lemma NothingContained(mem: seq<byte>, running: u32, safe: bool, saved: bool)
    requires |mem| == NOR_BYTES
    ensures Contained(mem, mem, running, safe, saved)
  {
  }

  /** Changes to records. */
  lemma RecordsContained(before: seq<byte>, after: seq<byte>, running: u32, safe: bool)
    requires |before| == NOR_BYTES && SameOutside(before, after, META0_OFFSET, META1_OFFSET + SECTOR)
    ensures Contained(before, after, running, safe, false)
  {
    hide MetaRead, SameOutside, Protected, SlotUntouched;
    LengthKept(before, after, META0_OFFSET, META1_OFFSET + SECTOR);
    ProtectedBy(before, after, META0_OFFSET, META1_OFFSET + SECTOR);
    SliceOutside(before, after, META0_OFFSET, META1_OFFSET + SECTOR,
                 CONFIG0_OFFSET, CONFIG1_OFFSET + CONFIG_BANK_BYTES);
    SlotUntouchedBy(before, after, META0_OFFSET, META1_OFFSET + SECTOR, running);
    if MetaRead(before).Some? {
      SlotUntouchedBy(before, after, META0_OFFSET, META1_OFFSET + SECTOR, MetaRead(before).value.confirmedSlot);
    }
  }

  /** Changes to records and then inside a slot that neither runs nor, on a safe board, is confirmed. */
  lemma SlotContained(m0: seq<byte>, m1: seq<byte>, m2: seq<byte>, lo: nat, hi: nat, slot: u32, running: u32,
                      safe: bool)
    requires |m0| == NOR_BYTES && SameOutside(m0, m1, META0_OFFSET, META1_OFFSET + SECTOR) && slot <= 1
               && slot != running
    requires |m1| == NOR_BYTES && SlotOffset(slot) as int <= lo <= hi <= SlotEnd(slot) && SameOutside(m1, m2, lo, hi)
    requires safe && MetaRead(m0).Some? ==> MetaRead(m0).value.confirmedSlot != slot
    ensures Contained(m0, m2, running, safe, false)
  {
    hide MetaRead, SameOutside, Protected;
    RecordsContained(m0, m1, running, safe);
    LengthKept(m1, m2, lo, hi);
    ProtectedBy(m1, m2, lo, hi);
    SliceOutside(m1, m2, lo, hi, CONFIG0_OFFSET, CONFIG1_OFFSET + CONFIG_BANK_BYTES);
    ProtectedTrans(m0, m1, m2);
    SlotUntouchedBy(m1, m2, lo, hi, running);
    if safe && MetaRead(m0).Some? {
      SlotUntouchedBy(m1, m2, lo, hi, MetaRead(m0).value.confirmedSlot);
    }
  }

  /** Further changes to records and settings. */
  lemma ContainedThenRecords(m0: seq<byte>, m1: seq<byte>, m2: seq<byte>, running: u32, safe: bool, saved: bool)
    requires |m0| == |m1| == |m2| == NOR_BYTES && Contained(m0, m1, running, safe, saved)
    requires OnlyRecords(m1, m2) && (!saved ==> SettingsUntouched(m1, m2))
    ensures Contained(m0, m2, running, safe, saved)
  {
    hide MetaRead, Protected, OnlyRecords;
    OnlyRecordsProtected(m1, m2);
    ProtectedTrans(m0, m1, m2);
    OnlyRecordsRange(m1, m2);
    SlotUntouchedBy(m1, m2, CONFIG0_OFFSET, META1_OFFSET + SECTOR, running);
    if MetaRead(m0).Some? {
      SlotUntouchedBy(m1, m2, CONFIG0_OFFSET, META1_OFFSET + SECTOR, MetaRead(m0).value.confirmedSlot);
    }
  }

  /** The floor depends on the high-water mark and the slots, not on where the record stands. */
  lemma FloorKept(before: seq<byte>, after: seq<byte>, a: Meta, b: Meta)
    requires |before| == NOR_BYTES && SameOutside(before, after, META0_OFFSET, META1_OFFSET + SECTOR)
    requires SameUse(b, a)
    ensures |after| == NOR_BYTES && GenerationFloor(after, b) == GenerationFloor(before, a)
  {
    hide SameOutside, ImageHeaderRead, HeaderAt, HighWater;
    LengthKept(before, after, META0_OFFSET, META1_OFFSET + SECTOR);
    SlotKept(before, after, META0_OFFSET, META1_OFFSET + SECTOR, 0);
    SlotKept(before, after, META0_OFFSET, META1_OFFSET + SECTOR, 1);
  }

  /** On a safe board `begin` never erases the confirmed slot. */
  lemma TargetUnconfirmed(mem: seq<byte>, log: seq<Meta>, recovery: bool, sha: Hash)
    requires |mem| == NOR_BYTES && Safe(mem, log, sha)
    ensures MetaRead(mem).Some? && UploadTarget(mem, recovery) != MetaRead(mem).value.confirmedSlot
  {
    hide Safe, MetaRead, ImageValidate, HeaderAt;
    ConfirmedBoots(mem, log, sha);
  }

  /** After the records, the header sector of the target may have been erased. */
  lemma SlotErasedContained(m0: seq<byte>, m1: seq<byte>, m2: seq<byte>, log: seq<Meta>, slot: u32, ok: bool,
                          recovery: bool, running: u32, sha: Hash)
    requires |m0| == NOR_BYTES && SameOutside(m0, m1, META0_OFFSET, META1_OFFSET + SECTOR)
    requires slot == UploadTarget(m0, recovery) && slot != running
    requires |m1| == NOR_BYTES && (m2 == m1 || EraseEffect(m1, m2, SlotOffset(slot), ok))
    ensures RecordsAndHeader(m0, m2, slot) && Contained(m0, m2, running, Safe(m0, log, sha), false)
  {
    hide SameOutside, RecordsAndHeader, Contained, Safe, MetaRead, UploadTarget, TornErase;
    var off := SlotOffset(slot) as int;
    UnchangedInside(m1, off, off + SECTOR);
    if Safe(m0, log, sha) {
      TargetUnconfirmed(m0, log, recovery, sha);
    }
    RecordsThenHeader(m0, m1, m2, slot);
    SlotContained(m0, m1, m2, off, off + SECTOR, slot, running, Safe(m0, log, sha));
  }

  /** The checks and record repairs of `begin`, up to the choice of the slot. */
  method ChooseSlot(nor: Nor, recovery: bool, running: u32, h: Header, ghost sha: Hash) returns (r: Outcome)
    requires nor.Valid()
    modifies nor.mem, nor`powered, nor`committed, nor`twice
    ensures nor.Valid() && nor.twice == old(nor.twice) && old(nor.committed) <= nor.committed
    ensures SameOutside(old(nor.Flash()), nor.Flash(), META0_OFFSET, META1_OFFSET + SECTOR)
    ensures Safe(old(nor.Flash()), old(nor.committed), sha) ==> Safe(nor.Flash(), nor.committed, sha)
    ensures r.Refused? ==> Refusal(old(nor.Flash()), recovery, running, h) == Some(r.reply) || r.reply == REPAIR_FAILED
    ensures r.Ready? ==> Refusal(old(nor.Flash()), recovery, running, h) == None
    ensures r.Ready? ==>
              MetaRead(nor.Flash()) == Some(r.meta) && r.meta.trialSlot == SLOT_NONE && h.generation > HighWater(r.meta)
    ensures r.Ready? ==> TargetSlot(r.meta) == UploadTarget(old(nor.Flash()), recovery) != running
    ensures old(nor.powered && nor.reliable && CanSucceed(nor.Flash(), 2)) ==>
              r != Refused(REPAIR_FAILED) && (r.Ready? ==> nor.powered)
    ensures old(nor.powered && nor.reliable && Startable(nor.Flash(), running, h)) ==> r.Ready? && nor.powered
  {
    hide Opened, Dropped, SameUse, HighWater, UploadTarget, TargetSlot, MetaRead, ImageValidate, GenerationFloor,
      Safe, SameOutside, CanSucceed;
    ghost var m0 := nor.Flash();
    var found := OpenRecord(nor, recovery, sha);
    ghost var m1 := nor.Flash();
    if found.Refused? {
      return found;
    }
    var meta := found.meta;
    UseAgrees(meta, Opened(m0, recovery));
    if meta.trialSlot != SLOT_NONE {
      return Refused(Failure(409, "TRIAL_PENDING"));
    }
    if meta.confirmedSlot > 1 && !recovery {
      return Refused(Failure(409, "RECOVERY_REQUIRED"));
    }
    FloorKept(m0, m1, Opened(m0, recovery), meta);
    if h.generation <= GenerationFloor(nor.mem[..], meta) {
      return Refused(Failure(409, "GENERATION_NOT_NEWER"));
    }
    FloorAboveHighWater(m1, meta);
    r := DropCorrupt(nor, recovery, meta, sha);
    SameOutsideTrans(m0, m1, nor.Flash(), META0_OFFSET, META1_OFFSET + SECTOR, META0_OFFSET, META1_OFFSET + SECTOR);
    if r.Refused? {
      return;
    }
    TargetKept(m0, m1, recovery, meta, r.meta);
    if TargetSlot(r.meta) == running {
      return Refused(Failure(409, "ACTIVE_SLOT_PROTECTED"));
    }
  }

  lemma UseAgrees(a: Meta, b: Meta)
    requires SameUse(a, b)
    ensures a.trialSlot == b.trialSlot && a.confirmedSlot == b.confirmedSlot
  {
  }

  /** The static `upload` struct and what the handlers read besides it. */
  class Ota {
    const nor: Nor
    const info: BootInfo
    const auth: Auth
    const sha: Hash
    const uid: string
    var upload: Upload
    /** `g100_architecture_ready` */
    var healthy: bool
    ghost var accepted: seq<byte>

    constructor (nor: Nor, info: BootInfo, auth: Auth, sha: Hash, uid: string)
      requires nor.Valid() && auth.Valid()
      ensures Valid() && this.nor == nor && this.info == info && this.auth == auth && this.sha == sha && this.uid == uid
      ensures upload == NO_UPLOAD
    {
      this.nor, this.info, this.auth, this.sha, this.uid := nor, info, auth, sha, uid;
      upload, healthy, accepted := NO_UPLOAD, false, [];
    }

    ghost predicate Valid()
      reads this, nor, nor.mem, info, auth
      ensures Valid() ==> nor.Valid()
    {
      && nor.Valid() && auth.Valid() && upload.state <= RESETTING
      && (Active() ==> Uploading(nor.Flash(), upload, info.selectedSlot, accepted, sha))
    }

    predicate Active()
      reads this
    {
      upload.state == RECEIVING || upload.state == VERIFIED
    }

    /** No upload stands in the way of a new one. */
    predicate Free()
      reads this
    {
      !Active() && upload.state != ACTIVATED
    }

    predicate Recovery()
      reads this, info
    {
      info.selectedSlot == SLOT_FACTORY
    }

    ghost predicate BoardSafe()
      reads this, nor, nor.mem
      requires nor.mem.Length == NOR_BYTES
    {
      Safe(nor.Flash(), nor.committed, sha)
    }

    /** What every request keeps, whatever it asks for and whatever the flash does. */
    twostate predicate Kept()
      reads this, nor, nor.mem, info
      requires nor.mem.Length == NOR_BYTES
    {
      && nor.twice == old(nor.twice) && old(nor.committed) <= nor.committed
      && (old(BoardSafe()) ==> BoardSafe())
      && Contained(old(nor.Flash()), nor.Flash(), info.selectedSlot, old(BoardSafe()), false)
    }

    /**
     * `begin`. On success the target slot has been chosen away from the confirmed and the running slot,
     * and its header sector is erased.
     */
    method Begin(uid: string, body: seq<byte>, now: u32) returns (r: Reply)
      requires Valid()
      modifies this`upload, this`accepted, nor.mem, nor`powered, nor`committed, nor`twice
      ensures Valid() && Kept()
      ensures r.Begun? ==> Active() && |body| == HEADER_BYTES && HeaderOf(body) == upload.header
      ensures r.Begun? ==> r == Begun(upload.slot, CHUNK_BYTES)
      ensures r.Begun? || r.Failure?
      ensures old(Active()) || r.Failure? ==> upload == old(upload) && accepted == old(accepted)
      ensures !old(Free()) || uid != this.uid || !HeaderOffered(body) ==> nor.Flash() == old(nor.Flash())
      ensures r.Begun? && !old(Active()) ==> upload.state == RECEIVING && accepted == []
      ensures uid != this.uid ==> r == Failure(412, "UID_MISMATCH")
      ensures uid == this.uid && !HeaderOffered(body) ==> r == Failure(422, "IMAGE_HEADER_INVALID")
      ensures uid == this.uid && HeaderOffered(body) && old(Active() && HeaderOf(body) == upload.header) ==> r.Begun?
      ensures uid == this.uid && HeaderOffered(body)
                && old((Active() && HeaderOf(body) != upload.header) || upload.state == ACTIVATED)
           ==> r == Failure(409, "UPLOAD_BUSY_ABORT_FIRST")
      ensures uid == this.uid && HeaderOffered(body) && old(Free()) ==>
                Answers(old(nor.Flash()), Recovery(), info.selectedSlot, HeaderOf(body), r)
      ensures old(nor.powered && nor.reliable && CanSucceed(nor.Flash(), 2)) ==> r !in {REPAIR_FAILED, ERASE_FAILED}
      ensures uid == this.uid && HeaderOffered(body)
                && old(Free() && nor.powered && nor.reliable
                      && Startable(nor.Flash(), info.selectedSlot, HeaderOf(body)))
           ==> r.Begun?
      ensures RecordsAndHeader(old(nor.Flash()), nor.Flash(), UploadTarget(old(nor.Flash()), Recovery()))
    {
      hide RecordsAndHeader, Contained, UploadTarget, MetaRead, HeaderValid, Safe, Uploading, CanSucceed, Refusal,
        Startable, HeaderOf;
      NothingContained(nor.Flash(), info.selectedSlot, BoardSafe(), false);
      NothingChanged(nor.Flash());
      RecordsAlone(nor.Flash(), nor.Flash(), UploadTarget(nor.Flash(), Recovery()));
      if uid != this.uid {
        return Failure(412, "UID_MISMATCH");
      }
      if |body| != HEADER_BYTES {
        return Failure(422, "IMAGE_HEADER_INVALID");
      }
      var h := HeaderOf(body);
      if !HeaderValid(h) {
        return Failure(422, "IMAGE_HEADER_INVALID");
      }
      if (upload.state == RECEIVING || upload.state == VERIFIED) && h == upload.header {
        return Begun(upload.slot, CHUNK_BYTES);
      }
      if upload.state == RECEIVING || upload.state == VERIFIED || upload.state == ACTIVATED {
        return Failure(409, "UPLOAD_BUSY_ABORT_FIRST");
      }
      r := StartUpload(h, now);
    }

    /** The part of `begin` after the request has been found acceptable. */
    method StartUpload(h: Header, now: u32) returns (r: Reply)
      requires Valid() && !Active() && HeaderValid(h)
      modifies this`upload, this`accepted, nor.mem, nor`powered, nor`committed, nor`twice
      ensures Valid() && Kept()
      ensures r.Begun? || r.Failure?
      ensures r.Failure? ==> upload == old(upload) && accepted == old(accepted)
      ensures r.Begun? ==> upload.state == RECEIVING && upload.header == h && accepted == []
      ensures r.Begun? ==> r == Begun(upload.slot, CHUNK_BYTES)
      ensures Answers(old(nor.Flash()), Recovery(), info.selectedSlot, h, r)
      ensures old(nor.powered && nor.reliable && CanSucceed(nor.Flash(), 2)) ==> r !in {REPAIR_FAILED, ERASE_FAILED}
      ensures old(nor.powered && nor.reliable && Startable(nor.Flash(), info.selectedSlot, h)) ==> r.Begun?
      ensures RecordsAndHeader(old(nor.Flash()), nor.Flash(), UploadTarget(old(nor.Flash()), Recovery()))
    {
      hide RecordsAndHeader, Contained, UploadTarget, TargetSlot, MetaRead, HeaderValid, ImageValidate, HighWater,
        Safe, EraseEffect, SameOutside, Uploading, WritableImageRange, CanSucceed, Refusal, Startable;
      ghost var m0, log := nor.Flash(), nor.committed;
      var chosen := ChooseSlot(nor, Recovery(), info.selectedSlot, h, sha);
      ghost var m1, log1 := nor.Flash(), nor.committed;
      RecordsAlone(m0, m1, UploadTarget(m0, Recovery()));
      RecordsContained(m0, m1, info.selectedSlot, Safe(m0, log, sha));
      if chosen.Refused? {
        return chosen.reply;
      }
      var meta := chosen.meta;
      var slot := TargetSlot(meta);
      var base := SlotOffset(slot);
      SlotAdmitted(slot);
      var ok := nor.ImageErase(base);
      SlotErasedContained(m0, m1, nor.Flash(), log, slot, ok, Recovery(), info.selectedSlot, sha);
      if EraseEffect(m1, nor.Flash(), base, ok) {
        SlotErased(m1, nor.Flash(), log1, slot, ok, sha);
      }
      if !ok {
        return ERASE_FAILED;
      }
      upload := NO_UPLOAD.(header := h, slot := slot, base := base, metadataSequence := meta.sequence,
                           state := RECEIVING, lastWrite := now);
      accepted := [];
      UploadStarts(m1, nor.Flash(), upload, meta, info.selectedSlot, sha);
      return Begun(slot, CHUNK_BYTES);
    }

    /**
     * `append`. A chunk at the end of the received bytes is stored and verified page by page; a chunk
     * that repeats received bytes is acknowledged without touching the flash.
     */
    method Append(offset: u32, body: seq<byte>, now: u32) returns (r: Reply)
      requires Valid()
      modifies this`upload, this`accepted, nor.mem, nor`powered, nor`committed, nor`twice
      ensures Valid() && Kept()
      ensures Appended(offset, body, old(upload), old(accepted), upload, accepted, r)
      ensures r.Received? ==> upload.lastWrite == now
      ensures if old(Stores(upload, accepted, offset, body)) then
                PayloadOnly(old(nor.Flash()), nor.Flash(), old(upload.slot))
              else nor.Flash() == old(nor.Flash())
      ensures old(Stores(upload, accepted, offset, body) && nor.powered && nor.reliable) ==> r.Received?
    {
      hide MetaRead, HeaderValid, HighWater, Safe, SameOutside, PayloadStored, PayloadBase, Committed, Unnamed,
        Contained, PayloadOnly;
      NothingContained(nor.Flash(), info.selectedSlot, BoardSafe(), false);
      if upload.state != RECEIVING {
        return Failure(409, "NO_ACTIVE_UPLOAD");
      }
      SlotUnchanged(nor.Flash(), upload.slot);
      if !ChunkValid(upload, offset, |body|) {
        return Failure(422, "CHUNK_INVALID");
      }
      PayloadAddress(upload);
      ImageBytesBound(upload.header);
      var address: u32 := upload.base + IMAGE_HEADER_BYTES + offset;
      if offset < upload.received && |body| <= upload.received as int - offset as int {
        StoredSlice(nor.Flash(), upload.slot, accepted, offset, |body|);
        if nor.mem[address..address as int + |body|] == body {
          upload := upload.(lastWrite := now);
          return Received(upload.received);
        }
      }
      if offset != upload.received {
        return Failure(409, "OFFSET_MISMATCH");
      }
      r := Extend(address, body, now);
    }

    /** The part of `append` that stores a chunk at the end of the received bytes. */
    method Extend(address: u32, body: seq<byte>, now: u32) returns (r: Reply)
      requires Valid() && upload.state == RECEIVING
                 && address as int == upload.base as int + IMAGE_HEADER_BYTES + |accepted|
      requires |body| % 4 == 0 && |accepted| + |body| <= upload.header.imageBytes as int
      modifies this`upload, this`accepted, nor.mem, nor`powered, nor`committed, nor`twice
      ensures Valid() && Kept() && PayloadOnly(old(nor.Flash()), nor.Flash(), upload.slot)
                && upload.slot == old(upload.slot)
      ensures r.Received? || r == Failure(500, "PAYLOAD_VERIFY_FAILED")
      ensures r.Received? ==>
                && accepted == old(accepted) + body && r.received == |accepted|
                && upload == old(upload).(received := r.received, lastWrite := now)
      ensures r.Failure? ==> accepted == old(accepted) && upload == old(upload).(state := FAILED)
      ensures old(nor.powered) && nor.reliable ==> r.Received?
    {
      hide MetaRead, HeaderValid, HighWater, Safe, SameOutside, PayloadStored, PayloadBase, Committed, Unnamed,
        Contained;
      ghost var m0, log, u0 := nor.Flash(), nor.committed, upload;
      PayloadAddress(upload);
      ImageBytesBound(upload.header);
      var ok := StoreChunk(nor, upload.slot, address, body, accepted);
      UploadGrows(m0, nor.Flash(), u0, accepted, body, info.selectedSlot, now, sha);
      UploadContained(m0, nor.Flash(), PayloadBase(u0.slot), SlotEnd(u0.slot), u0, info.selectedSlot, accepted,
          Safe(m0, log, sha), sha);
      if Safe(m0, log, sha) {
        SafeAfterUpload(m0, nor.Flash(), log, u0, sha);
      }
      if !ok {
        upload := upload.(state := FAILED);
        return Failure(500, "PAYLOAD_VERIFY_FAILED");
      }
      upload := upload.(received := upload.received + |body|);
      accepted := accepted + body;
      upload := upload.(lastWrite := now);
      return Received(upload.received);
    }

    /**
     * `verify_payload`. The header is committed only over a payload whose CRC and SHA-256 match it, and
     * success means that the target slot boots.
     */
    method VerifyPayload() returns (r: Reply)
      requires Valid()
      modifies this`upload, nor.mem, nor`powered, nor`committed, nor`twice
      ensures Valid() && Kept()
      ensures r == VerifiedReply || r.Failure?
      ensures r == VerifiedReply ==> old(Active()) && upload == old(upload).(state := VERIFIED)
      ensures r.Failure? ==> upload == old(upload) || upload.state == FAILED
      ensures old(upload.state) == VERIFIED ==> r == VerifiedReply && nor.Flash() == old(nor.Flash())
      ensures old(upload.state != VERIFIED && !Complete()) ==>
                r == Failure(409, "UPLOAD_INCOMPLETE") && upload == old(upload) && nor.Flash() == old(nor.Flash())
      ensures old(Complete()) && !Matches(old(upload.header), accepted, sha) ==>
                r.Failure? && nor.Flash() == old(nor.Flash())
      ensures old(Complete()) && ImageHeaderRead(nor.Flash(), old(upload.slot)) ==>
                HeaderAt(nor.Flash(), old(upload.slot)) == old(upload.header)
                    && Matches(old(upload.header), accepted, sha)
      ensures r == VerifiedReply ==> Matches(upload.header, accepted, sha)
      ensures old(Complete() && nor.powered && nor.reliable && Matches(upload.header, accepted, sha)
                && VectorsValid(accepted))
           ==> r == VerifiedReply
      ensures old(Active()) ==> HeaderOnly(old(nor.Flash()), nor.Flash(), old(upload.slot))
    {
      hide MetaRead, HeaderValid, Safe, SameOutside, PayloadStored, Crc32, ImageValidate, HeaderAt, ImageHeaderRead,
        VectorsValid, Unnamed, HighWater, PayloadBase, Contained;
      ghost var m0, log, u0 := nor.Flash(), nor.committed, upload;
      NothingContained(m0, info.selectedSlot, BoardSafe(), false);
      if Active() {
        SlotUnchanged(m0, upload.slot);
      }
      if upload.state == VERIFIED {
        VerifiedMatches(m0, upload, info.selectedSlot, accepted, sha);
        return VerifiedReply;
      }
      if upload.state != RECEIVING || upload.received != upload.header.imageBytes {
        return Failure(409, "UPLOAD_INCOMPLETE");
      }
      ReceivingNotBootable(m0, upload, info.selectedSlot, accepted, sha);
      PayloadAddress(upload);
      ImageBytesBound(upload.header);
      StoredSlice(m0, upload.slot, accepted, 0, |accepted|);
      var p: int := upload.base as int + IMAGE_HEADER_BYTES;
      assert accepted[0..|accepted|] == accepted;
      var hashed := HashPayload(nor.mem[p..p + upload.header.imageBytes], sha, nor.reliable);
      if hashed.HashFault? {
        return Failure(500, hashed.reason);
      }
      if hashed.crc != upload.header.imageCrc || hashed.digest != upload.header.sha256 {
        upload := upload.(state := FAILED);
        return Failure(422, "PAYLOAD_DIGEST_MISMATCH");
      }
      r := CommitUpload();
    }

    /** The part of `verify_payload` after the hashes have matched. */
    method CommitUpload() returns (r: Reply)
      requires Valid() && Complete() && Matches(upload.header, accepted, sha)
      modifies this`upload, nor.mem, nor`powered, nor`committed, nor`twice
      ensures Valid() && Kept() && HeaderOnly(old(nor.Flash()), nor.Flash(), old(upload.slot))
      ensures r == VerifiedReply || r == Failure(500, "HEADER_COMMIT_FAILED")
      ensures r == VerifiedReply ==> upload == old(upload).(state := VERIFIED)
      ensures r.Failure? ==> upload.state == FAILED
      ensures ImageHeaderRead(nor.Flash(), old(upload.slot)) ==>
                HeaderAt(nor.Flash(), old(upload.slot)) == old(upload.header)
      ensures old(nor.powered) && nor.reliable && VectorsValid(accepted) ==> r == VerifiedReply
    {
      hide MetaRead, HeaderValid, Safe, SameOutside, PayloadStored, Crc32, ImageValidate, HeaderAt, ImageHeaderRead,
        VectorsValid, Unnamed, HighWater, PayloadBase, Contained;
      ghost var m0, log, u0 := nor.Flash(), nor.committed, upload;
      PayloadAddress(upload);
      ImageBytesBound(upload.header);
      HeaderSector(m0, upload, info.selectedSlot, accepted, sha);
      var ok, seen := CommitHeader(nor, upload.slot, upload.header, accepted);
      HeaderSectorKept(m0, nor.Flash(), u0.slot, accepted);
      UploadContained(m0, nor.Flash(), SlotOffset(u0.slot), PayloadBase(u0.slot), u0, info.selectedSlot, accepted,
          Safe(m0, log, sha), sha);
      if Safe(m0, log, sha) {
        SafeAfterCommit(m0, nor.Flash(), log, u0, sha);
      }
      upload := upload.(header := seen);
      ReadableIfValid(nor.Flash(), u0.slot);
      if !ok {
        upload := upload.(state := FAILED);
        return Failure(500, "HEADER_COMMIT_FAILED");
      }
      upload := upload.(state := VERIFIED);
      CommitEstablished(m0, nor.Flash(), u0, info.selectedSlot, accepted, sha);
      return VerifiedReply;
    }

    /** All announced bytes have been received. */
    predicate Complete()
      reads this
    {
      upload.state == RECEIVING && upload.received == upload.header.imageBytes
    }

    /**
     * `activate`. On success the verified slot is the recorded trial, and the high-water mark has risen
     * to its generation.
     */
    method Activate(now: u32) returns (r: Reply)
      requires Valid()
      modifies this`upload, nor.mem, nor`powered, nor`committed, nor`twice
      ensures Valid() && Kept()
      ensures ActivateEffect(old(upload), upload, r)
      ensures r == ResetPending ==> upload.resetAt == (now + 800) % TWO32
      ensures r == ResetPending ==>
                TrialRecorded(old(nor.Flash()), nor.Flash(), upload.slot, upload.header.generation)
      ensures old(upload.state) != VERIFIED ==> nor.Flash() == old(nor.Flash())
      ensures old(Activatable(nor.Flash(), upload) && nor.powered && nor.reliable) ==> r == ResetPending
      ensures MayReplace(old(nor.Flash()), nor.Flash(), Activates)
      ensures SameOutside(old(nor.Flash()), nor.Flash(), META0_OFFSET, META1_OFFSET + SECTOR)
    {
      hide MetaRead, HeaderValid, Safe, SameOutside, PayloadStored, ImageValidate, HeaderAt, ImageHeaderRead,
        HighWater, PayloadBase, BanksAdjacent, Stamped, NextSequence, Activates, Crc32, Payload, MetaBody, Contained,
        OnlyRecords;
      ghost var m0, log, u0 := nor.Flash(), nor.committed, upload;
      NothingContained(m0, info.selectedSlot, BoardSafe(), false);
      NothingChanged(m0);
      if upload.state != VERIFIED {
        return Failure(409, "IMAGE_NOT_VERIFIED");
      }
      upload := upload.(header := HeaderAt(nor.mem[..], upload.slot));
      assert upload == u0;
      if !ImageValidate(nor.mem[..], upload.slot) {
        return Failure(409, "IMAGE_NOT_VERIFIED");
      }
      var now' := MetaRead(nor.mem[..]);
      if now'.None? || now'.value.sequence != upload.metadataSequence
        || now'.value.confirmedSlot == upload.slot || now'.value.trialSlot != SLOT_NONE {
        return Failure(409, "BOOT_METADATA_CHANGED");
      }
      var meta := now'.value.(trialSlot := upload.slot, trialGeneration := upload.header.generation,
          trialAttempts := 0);
      ghost var wanted := meta;
      ActivationLegal(m0, now'.value, wanted, upload.slot, upload.header.generation);
      var ok;
      ok, meta := MetaWrite(nor, meta);
      RecordsContained(m0, nor.Flash(), info.selectedSlot, Safe(m0, log, sha));
      if Safe(m0, log, sha) {
        ActivatedPresent(m0, log, wanted, sha);
        SafeAfterLegalWrite(m0, nor.Flash(), log, wanted, sha);
      }
      if !ok {
        OnlyRecordsBy(m0, nor.Flash(), META0_OFFSET, META1_OFFSET + SECTOR);
        RecordWriteKeepsUpload(m0, nor.Flash(), upload, info.selectedSlot, accepted, sha);
        return Failure(500, "TRIAL_METADATA_WRITE_FAILED");
      }
      upload := upload.(state := ACTIVATED, resetAt := (now + 800) % TWO32);
      return ResetPending;
    }

    /** The hash in the header of the running image, if that can be read. */
    function RunningSha(): Option<Digest>
      requires nor.mem.Length == NOR_BYTES
      reads this, nor, nor.mem, info
    {
      if info.selectedSlot <= SLOT_FACTORY && ImageHeaderRead(nor.mem[..], info.selectedSlot)
      then Some(HeaderAt(nor.mem[..], info.selectedSlot).sha256) else None
    }

    /** `status_json`; `random` is the hardware generator's output, used by the first challenge. */
    method ReadStatus(random: Option<Digest>) returns (s: Status)
      requires Valid()
      modifies auth`nonce, auth`sequence, auth`ready
      ensures Valid()
      ensures Announces(s)
      ensures old(auth.ready) ==> auth.ready && auth.nonce == old(auth.nonce) && auth.sequence == old(auth.sequence)
      ensures s.uid == uid && s.uploadState == upload.state && s.received == upload.received
                && s.targetSlot == upload.slot
      ensures s.recovery == Recovery() && s.runningSlot == info.selectedSlot && s.runningGeneration == info.generation
      ensures s.bootConfirmed == info.confirmed && s.healthy == healthy && s.imageBytes == upload.header.imageBytes
      ensures s.runningSha == RunningSha()
      ensures s.metadataValid == MetaRead(nor.Flash()).Some?
      ensures var m := if s.metadataValid then MetaRead(nor.Flash()).value else EMPTY_META;
              && s.confirmedSlot == m.confirmedSlot && s.confirmedGeneration == m.confirmedGeneration
              && s.trialSlot == m.trialSlot && s.trialGeneration == m.trialGeneration
                    && s.metadataSequence == m.sequence
              && s.generationFloor == GenerationFloor(nor.Flash(), m)
    {
      hide MetaRead, Uploading, GenerationFloor, HeaderAt, ImageHeaderRead;
      var now := MetaRead(nor.mem[..]);
      var m := if now.Some? then now.value else EMPTY_META;
      var ready := auth.Challenge(nor.mem[..], random);
      var running := RunningSha();
      s := Status(uid, Recovery(), ready, auth.nonce, auth.sequence, now.Some?, m.confirmedSlot, m.confirmedGeneration,
                  m.sequence, m.trialSlot, m.trialGeneration, GenerationFloor(nor.mem[..], m), info.selectedSlot,
                  info.generation, running, info.confirmed, healthy, upload.state, upload.slot, upload.received,
                  upload.header.imageBytes);
    }

    /** The running image is healthy and the digest is the one its header carries. */
    predicate Identified(digest: seq<byte>)
      requires nor.mem.Length == NOR_BYTES
      reads this, nor, nor.mem, info
    {
      && info.selectedSlot <= 1 && ImageHeaderRead(nor.mem[..], info.selectedSlot)
      && digest == HeaderAt(nor.mem[..], info.selectedSlot).sha256 && healthy
    }

    /** The `confirm` route: only the running image, identified by its hash, may be confirmed. */
    method Confirm(digest: seq<byte>) returns (ok: bool, reason: string)
      requires Valid()
      modifies nor.mem, nor`powered, nor`committed, nor`twice, info`confirmed, info`metadataSequence
      ensures Valid() && Kept()
      ensures MayReplace(old(nor.Flash()), nor.Flash(), Confirms)
      ensures ok ==> info.confirmed && old(Identified(digest))
      ensures ok && info.trial ==> Replaces(old(nor.Flash()), nor.Flash(), Confirms)
      ensures !ok ==> reason == if old(Identified(digest)) then "CONFIRM_FAILED" else "RUNNING_IMAGE_NOT_READY"
      ensures !ok ==> info.confirmed == old(info.confirmed)
      ensures !old(Identified(digest)) ==> !ok && nor.Flash() == old(nor.Flash())
      ensures old(Identified(digest) && info.magic == INFO_MAGIC && !info.trial) ==> ok
      ensures old(Identified(digest) && Confirmable(nor.Flash(), info) && NextSequence(nor.Flash()) != 0
                && nor.powered && nor.reliable)
           ==> ok
      ensures SameOutside(old(nor.Flash()), nor.Flash(), META0_OFFSET, META1_OFFSET + SECTOR)
    {
      hide MetaRead, HeaderAt, ImageHeaderRead, Safe, Confirms, SameOutside, Contained, NextSequence;
      ghost var m0, safe := nor.Flash(), BoardSafe();
      NothingChanged(m0);
      NothingContained(m0, info.selectedSlot, safe, false);
      if info.selectedSlot > 1 || !ImageHeaderRead(nor.mem[..], info.selectedSlot)
        || digest != HeaderAt(nor.mem[..], info.selectedSlot).sha256 || !healthy {
        return false, "RUNNING_IMAGE_NOT_READY";
      }
      if Active() {
        UploadNotRunning(m0, upload, info.selectedSlot, accepted, sha);
      }
      ok := BootConfirm(nor, info, sha);
      RecordsContained(m0, nor.Flash(), info.selectedSlot, safe);
      return ok, "CONFIRM_FAILED";
    }

    /** The routes of `g100_ota_handle` behind authentication; `data` is the body after the authenticator. */
    method Dispatch(action: string, data: seq<byte>, now: u32, random: Option<Digest>) returns (r: Reply)
      requires Valid()
      modifies this`upload, this`accepted, nor.mem, nor`powered, nor`committed, nor`twice,
        info`confirmed, info`metadataSequence, auth`nonce, auth`sequence, auth`ready
      ensures Valid() && Kept() && ChallengeKept()
      ensures Routed(action, data, old(upload), old(accepted), upload, accepted, r)
      ensures !Writes(action, data) ==> nor.Flash() == old(nor.Flash())
      ensures Stamps(action, data, upload, now, r)
      ensures action == "confirm" && |data| == 32 ==> Confirming(data, r)
      ensures !(action == "confirm" && |data| == 32) ==> info.confirmed == old(info.confirmed)
      ensures action == "activate" && data == [] && r == ResetPending ==>
                TrialRecorded(old(nor.Flash()), nor.Flash(), upload.slot, upload.header.generation)
    {
      hide MetaRead, Safe, Uploading, HeaderOf, HeaderValid, HighWater, GenerationFloor, ImageValidate, VectorsValid,
        Crc32, Matches, Replaces, ImageHeaderRead, HeaderAt, Startable, Unnamed, Complete, RunningTrial, NextSequence,
        DecimalValue, AllDigits, Current, Contained, Confirms, RecordsAndHeader, Answers, UploadTarget;
      if action == "status" && data == [] {
        NothingContained(nor.Flash(), info.selectedSlot, BoardSafe(), false);
        var s := ReadStatus(random);
        return StatusReply(s);
      }
      if BEGIN <= action {
        r := Begin(action[|BEGIN|..], data, now);
        return;
      }
      if CHUNK <= action {
        var off := ParseUint(action[|CHUNK|..]);
        if off.None? {
          NothingContained(nor.Flash(), info.selectedSlot, BoardSafe(), false);
          return Failure(400, "OFFSET_INVALID");
        }
        r := Append(off.value, data, now);
        return;
      }
      if action == "finish" && data == [] {
        r := VerifyPayload();
        return;
      }
      if action == "activate" && data == [] {
        r := Activate(now);
        return;
      }
      r := DispatchControl(action, data, now, random);
    }

    /** A challenge in use stays in use. */
    twostate predicate ChallengeKept()
      reads auth
    {
      old(auth.ready) ==> auth.ready && auth.nonce == old(auth.nonce) && auth.sequence == old(auth.sequence)
    }

    /** What the `confirm` route leaves and answers. */
    twostate predicate Confirming(digest: seq<byte>, r: Reply)
      requires nor.mem.Length == NOR_BYTES
      reads this, nor, nor.mem, info
    {
      && MayReplace(old(nor.Flash()), nor.Flash(), Confirms)
      && (r.StatusReply? ==> info.confirmed && old(Identified(digest)))
      && (r.StatusReply? && info.trial ==> Replaces(old(nor.Flash()), nor.Flash(), Confirms))
      && (!r.StatusReply? ==> info.confirmed == old(info.confirmed))
      && (!old(Identified(digest)) <==> r == Failure(409, "RUNNING_IMAGE_NOT_READY"))
    }

    /** The routes that end an upload, confirm the running image or ask for a reset. */
    method DispatchControl(action: string, data: seq<byte>, now: u32, random: Option<Digest>) returns (r: Reply)
      requires Valid()
      modifies this`upload, this`accepted, nor.mem, nor`powered, nor`committed, nor`twice,
        info`confirmed, info`metadataSequence, auth`nonce, auth`sequence, auth`ready
      ensures Valid() && Kept() && ChallengeKept()
      ensures ControlEffect(action, data, old(upload), old(accepted), upload, accepted, r)
      ensures action == "recovery" && data == [] ==> upload.resetAt == (now + 800) % TWO32
      ensures if action == "confirm" && |data| == 32 then Confirming(data, r)
              else nor.Flash() == old(nor.Flash()) && info.confirmed == old(info.confirmed)
    {
      hide MetaRead, Safe, Uploading, HeaderOf, HeaderValid, HighWater, GenerationFloor, ImageValidate, VectorsValid,
        Crc32, Matches, Replaces, ImageHeaderRead, HeaderAt, Startable, Unnamed, Complete, RunningTrial, NextSequence,
        Current, Contained, Confirms;
      NothingContained(nor.Flash(), info.selectedSlot, BoardSafe(), false);
      if action == "abort" && data == [] && upload.state != ACTIVATED {
        upload, accepted := NO_UPLOAD, [];
        var s := ReadStatus(random);
        return StatusReply(s);
      }
      if action == "confirm" && |data| == 32 {
        var ok, reason := Confirm(data);
        if !ok {
          return Failure(if reason == "CONFIRM_FAILED" then 500 else 409, reason);
        }
        var s := ReadStatus(random);
        return StatusReply(s);
      }
      if action == "recovery" && data == [] {
        upload := upload.(state := RESETTING, resetAt := (now + 800) % TWO32);
        return ResetPending;
      }
      return Failure(404, "FIRMWARE_ROUTE_NOT_FOUND");
    }

    /** A ready status announces the nonce and the sequence number of the next request. */
    predicate Announces(s: Status)
      reads this, auth
    {
      s.authReady ==> auth.ready && s.nonce == auth.nonce && s.sequence == auth.sequence && s.sequence != SEQUENCE_MAX
    }

    /**
     * `g100_ota_handle`. `None` means that the path belongs to another service. Only an authentic POST
     * changes anything but the authentication state, and it uses up one sequence number.
     */
    method Handle(verb: string, path: string, body: seq<byte>, now: u32, random: Option<Digest>)
      returns (r: Option<Reply>)
      requires Valid()
      modifies this`upload, this`accepted, nor.mem, nor`powered, nor`committed, nor`twice,
        info`confirmed, info`metadataSequence, auth
      ensures Valid() && Kept()
      ensures r.None? <==> !(PREFIX <= path)
      ensures verb != "POST" || !old(auth.Authentic(nor.Flash(), path, body)) || r.None? ==>
                && upload == old(upload) && accepted == old(accepted) && nor.Flash() == old(nor.Flash())
                && info.confirmed == old(info.confirmed) && auth.accepts == old(auth.accepts)
                && (old(auth.ready) ==> auth.sequence == old(auth.sequence))
      ensures PREFIX <= path && verb == "POST" && !old(auth.Authentic(nor.Flash(), path, body)) ==>
                r == Some(Failure(401, "AUTHENTICATION_FAILED")) && !auth.accepted
      ensures PREFIX <= path && verb == "POST" && old(auth.Authentic(nor.Flash(), path, body)) ==>
                && Routed(path[|PREFIX|..], body[AUTH_BYTES..], old(upload), old(accepted), upload, accepted, r.value)
                && auth.accepted && auth.acceptedSequence == old(auth.sequence)
                      && auth.sequence == old(auth.sequence) + 1
      ensures PREFIX <= path && verb == "GET" && path[|PREFIX|..] == "status" ==>
                r.value.StatusReply? && auth.accepted == old(auth.accepted) && Announces(r.value.status)
      ensures old(auth.ready) ==> auth.ready && auth.nonce == old(auth.nonce)
    {
      hide MetaRead, Safe, Uploading, Routed, Provision, Contained, Confirming, TrialRecorded, Writes, Stamps,
        Current, Message;
      NothingContained(nor.Flash(), info.selectedSlot, BoardSafe(), false);
      if !(PREFIX <= path) {
        return None;
      }
      var action := path[|PREFIX|..];
      if action == "status" && verb == "GET" {
        var s := ReadStatus(random);
        return Some(StatusReply(s));
      }
      if verb != "POST" {
        return Some(Failure(405, "METHOD_NOT_ALLOWED"));
      }
      var authentic := auth.Request(nor.mem[..], path, body);
      if !authentic {
        return Some(Failure(401, "AUTHENTICATION_FAILED"));
      }
      var reply := Dispatch(action, body[AUTH_BYTES..], now, random);
      return Some(reply);
    }

    /** Recovery has waited long enough and no upload keeps it. */
    predicate Leaving(now: u32)
      reads this, info
    {
      Recovery() && now >= 20000 && upload.state in {IDLE, FAILED}
    }

    /**
     * `g100_ota_process`. `backup` says whether the backup register can be written, which a request to
     * boot the application needs; `checked` is the recovery build's own flag.
     */
    method Process(now: u32, backup: bool, checked: bool) returns (a: ResetAction, checked': bool)
      requires Valid()
      modifies this`upload
      ensures Valid()
      ensures upload == if old(Active() && Elapsed(now, upload.lastWrite) > 60000) then old(upload).(state := IDLE)
                else old(upload)
      ensures a == SystemReset <==> old(upload.state == RESETTING && Due(now, upload.resetAt))
      ensures a == ApplicationReset <==>
                backup && (old(upload.state == ACTIVATED && Due(now, upload.resetAt))
                    || (Leaving(now) && !checked && Bootable(nor.Flash())))
      ensures checked' == (checked || (Leaving(now) && MetaRead(nor.Flash()).Some?))
      ensures old(BoardSafe()) ==> Bootable(nor.Flash())
    {
      hide MetaRead, Uploading, Safe, ImageValidate, HeaderAt;
      checked' := checked;
      ConfirmedBoots(nor.Flash(), nor.committed, sha);
      if upload.state == ACTIVATED && Due(now, upload.resetAt) && backup {
        return ApplicationReset, checked';
      }
      if upload.state == RESETTING && Due(now, upload.resetAt) {
        return SystemReset, checked';
      }
      if Active() && Elapsed(now, upload.lastWrite) > 60000 {
        upload := upload.(state := IDLE);
      }
      if Recovery() && now >= 20000 && (upload.state == IDLE || upload.state == FAILED) {
        var m := MetaRead(nor.mem[..]);
        if !checked' && m.Some? {
          checked' := true;
          if ((m.value.trialSlot <= 1 && ImageValidate(nor.mem[..], m.value.trialSlot))
              || (m.value.confirmedSlot <= 1 && ImageValidate(nor.mem[..], m.value.confirmedSlot))) && backup {
            return ApplicationReset, checked';
          }
        }
      }
      return NoReset, checked';
    }
  }

  datatype ResetAction = NoReset | SystemReset | ApplicationReset

  const PREFIX := "/api/v1/firmware/"
  const BEGIN := "begin?uid="
  const CHUNK := "chunk?offset="

  function WithState(u: Upload, state: u32): Upload
  {
    u.(state := state)
  }

  predicate InProgress(u: Upload)
  {
    u.state == RECEIVING || u.state == VERIFIED
  }

  predicate BeginEffect(data: seq<byte>, u: Upload, accepted: seq<byte>, u': Upload, accepted': seq<byte>, r: Reply)
  {
    && (r.Begun? || r.Failure?)
    && (r.Begun? ==>
          InProgress(u') && |data| == HEADER_BYTES && HeaderOf(data) == u'.header && r.chunkBytes == CHUNK_BYTES)
    && (r.Begun? && !InProgress(u) ==> u'.state == RECEIVING && accepted' == [])
    && (InProgress(u) || !r.Begun? ==> u' == u && accepted' == accepted)
  }

  predicate ChunkEffect(text: string, data: seq<byte>, u: Upload, accepted: seq<byte>, u': Upload,
                        accepted': seq<byte>, r: Reply)
  {
    if text != [] && AllDigits(text) && DecimalValue(text) < TWO32
    then Appended(DecimalValue(text), data, u, accepted, u', accepted', r)
    else r == Failure(400, "OFFSET_INVALID") && u' == u && accepted' == accepted
  }

  /** Only a verified upload is activated, and only its state and the time of the reset change. */
  predicate ActivateEffect(u: Upload, u': Upload, r: Reply)
  {
    && (r == ResetPending || r.Failure?)
    && (r == ResetPending ==> u.state == VERIFIED && u' == u.(state := ACTIVATED, resetAt := u'.resetAt))
    && (r.Failure? ==> u' == u)
    && (u.state != VERIFIED ==> r == Failure(409, "IMAGE_NOT_VERIFIED"))
  }

  /** The routes that end an upload, confirm the running image or ask for a reset; any other route is unknown. */
  predicate ControlEffect(action: string, data: seq<byte>, u: Upload, accepted: seq<byte>, u': Upload,
                          accepted': seq<byte>, r: Reply)
  {
    if action == "abort" && data == [] && u.state != ACTIVATED then u' == NO_UPLOAD && accepted' == [] && r.StatusReply?
    else
      && accepted' == accepted
      && if action == "confirm" && |data| == 32 then
           u' == u && (r.StatusReply? || r == Failure(409, "RUNNING_IMAGE_NOT_READY")
               || r == Failure(500, "CONFIRM_FAILED"))
         else if action == "recovery" && data == [] then
           r == ResetPending && u' == u.(state := RESETTING, resetAt := u'.resetAt)
         else u' == u && r == Failure(404, "FIRMWARE_ROUTE_NOT_FOUND")
  }

  /** How an authenticated request changes the upload, and what its reply says about it. */
  predicate Routed(action: string, data: seq<byte>, u: Upload, accepted: seq<byte>, u': Upload, accepted': seq<byte>,
                   r: Reply)
  {
    if BEGIN <= action then BeginEffect(data, u, accepted, u', accepted', r)
    else if CHUNK <= action then ChunkEffect(action[|CHUNK|..], data, u, accepted, u', accepted', r)
    else if action == "finish" && data == [] then
      && accepted' == accepted && (r == VerifiedReply || r.Failure?)
      && (r == VerifiedReply ==> InProgress(u) && u' == WithState(u, VERIFIED))
      && (r != VerifiedReply ==> u' == u || u'.state == FAILED)
    else if action == "activate" && data == [] then accepted' == accepted && ActivateEffect(u, u', r)
    else if action == "status" && data == [] then
      accepted' == accepted && u' == u && r.StatusReply? && r.status.uploadState == u.state
    else ControlEffect(action, data, u, accepted, u', accepted', r)
  }

  /** An accepted request for a reset sets its time, 800 ms from now. */
  predicate Stamps(action: string, data: seq<byte>, u': Upload, now: u32, r: Reply)
  {
    r == ResetPending && ((action == "activate" && data == []) || (action == "recovery" && data == [])) ==>
      u'.resetAt == (now + 800) % TWO32
  }

  /** The routes that may write the flash. */
  predicate Writes(action: string, data: seq<byte>)
  {
    || BEGIN <= action || CHUNK <= action || (action == "finish" && data == []) || (action == "activate" && data == [])
    || (action == "confirm" && |data| == 32)
  }

  /** A record that the upload relies on never names the running slot as its trial. */
  lemma UploadNotRunning(mem: seq<byte>, u: Upload, running: u32, accepted: seq<byte>, sha: Hash)
    requires |mem| == NOR_BYTES && Uploading(mem, u, running, accepted, sha) && running <= 1
    ensures MetaRead(mem).Some? && MetaRead(mem).value.trialSlot != running
  {
    hide MetaRead, PayloadStored, HeaderValid, Committed;
  }

  /** A chunk the service can take at all. */
  predicate ChunkValid(u: Upload, offset: u32, count: nat)
  {
    && 0 < count <= CHUNK_BYTES && count % 4 == 0 && offset % 4 == 0
    && offset <= u.header.imageBytes && count <= u.header.imageBytes as int - offset as int
  }

  /** The chunk repeats bytes that have been received. */
  predicate Repeats(accepted: seq<byte>, offset: u32, body: seq<byte>)
  {
    offset as int + |body| <= |accepted| && accepted[offset..offset as int + |body|] == body
  }

  /** The chunk is to be stored at the end of the received bytes. */
  predicate Stores(u: Upload, accepted: seq<byte>, offset: u32, data: seq<byte>)
  {
    u.state == RECEIVING && ChunkValid(u, offset, |data|) && offset as int == |accepted|
  }

  /** What `append` does with each chunk, apart from the flash and the clock. */
  predicate Appended(offset: u32, data: seq<byte>, u: Upload, accepted: seq<byte>, u': Upload, accepted': seq<byte>,
                     r: Reply)
  {
    if u.state != RECEIVING then r == Failure(409, "NO_ACTIVE_UPLOAD") && u' == u && accepted' == accepted
    else if !ChunkValid(u, offset, |data|) then r == Failure(422, "CHUNK_INVALID") && u' == u && accepted' == accepted
    else if Repeats(accepted, offset, data) then
      r.Received? && r.received == |accepted| && accepted' == accepted && u' == u.(lastWrite := u'.lastWrite)
    else if offset as int != |accepted| then r == Failure(409, "OFFSET_MISMATCH") && u' == u && accepted' == accepted
    else if r.Received? then
      accepted' == accepted + data && r.received == |accepted'|
          && u' == u.(received := r.received, lastWrite := u'.lastWrite)
    else r == Failure(500, "PAYLOAD_VERIFY_FAILED") && accepted' == accepted && u' == WithState(u, FAILED)
  }

  /** Once acknowledged, the chunk stands in the received bytes at its offset. */
  lemma AcknowledgedStored(offset: u32, data: seq<byte>, u: Upload, accepted: seq<byte>, u': Upload,
                          accepted': seq<byte>, r: Reply)
    requires Appended(offset, data, u, accepted, u', accepted', r) && r.Received?
    ensures Repeats(accepted', offset, data) && r.received == |accepted'| && accepted <= accepted'
  {
  }

  lemma ImageBytesBound(h: Header)
    requires HeaderValid(h)
    ensures 1024 <= h.imageBytes <= IMAGE_MAX && h.imageBytes % 4 == 0
  {
  }

  lemma PayloadAddress(u: Upload)
    requires u.slot <= 1 && u.base == SlotOffset(u.slot)
    ensures u.base as int + IMAGE_HEADER_BYTES == PayloadBase(u.slot)
    ensures PayloadBase(u.slot) + IMAGE_MAX == SlotEnd(u.slot) <= NOR_BYTES
  {
  }

  lemma StoredSlice(mem: seq<byte>, slot: u32, accepted: seq<byte>, offset: nat, count: nat)
    requires |mem| == NOR_BYTES && slot <= 1 && |accepted| <= IMAGE_MAX && PayloadStored(mem, slot, accepted)
    requires offset + count <= |accepted|
    ensures mem[PayloadBase(slot) + offset..PayloadBase(slot) + offset + count] == accepted[offset..offset + count]
  {
    SubSlice(mem, PayloadBase(slot), PayloadBase(slot) + |accepted|, offset, offset + count);
  }

  /** The write loop of `append`. */
  method StoreChunk(nor: Nor, slot: u32, address: u32, body: seq<byte>, ghost accepted: seq<byte>) returns (ok: bool)
    requires nor.Valid() && slot <= 1 && |accepted| + |body| <= IMAGE_MAX
               && address as int == PayloadBase(slot) + |accepted|
    requires PayloadStored(nor.Flash(), slot, accepted)
    modifies nor.mem, nor`powered, nor`committed, nor`twice
    ensures nor.Valid() && nor.twice == old(nor.twice) && nor.committed == old(nor.committed)
    ensures SameOutside(old(nor.Flash()), nor.Flash(), PayloadBase(slot), SlotEnd(slot))
    ensures ok ==> PayloadStored(nor.Flash(), slot, accepted + body)
    ensures old(nor.powered) && nor.reliable ==> ok
  {
    hide MetaRead, SameOutside, PayloadStored, PayloadBase, SlotEnd;
    ghost var m0 := nor.Flash();
    PayloadInside(slot, |accepted|, 0);
    UnchangedInside(m0, PayloadBase(slot), SlotEnd(slot));
    assert accepted + body[..0] == accepted;
    var pos := 0;
    while pos < |body|
      invariant pos <= |body|
      invariant nor.Valid() && nor.twice == old(nor.twice) && nor.committed == old(nor.committed)
      invariant SameOutside(m0, nor.Flash(), PayloadBase(slot), SlotEnd(slot))
      invariant PayloadStored(nor.Flash(), slot, accepted + body[..pos])
      invariant old(nor.powered) && nor.reliable ==> nor.powered
    {
      var at: u32 := address + pos;
      var count := PAGE - at % PAGE;
      if count > |body| - pos {
        count := |body| - pos;
      }
      ghost var m1 := nor.Flash();
      ok := StorePage(nor, slot, at, body[pos..pos + count], accepted + body[..pos]);
      SameOutsideTrans(m0, m1, nor.Flash(), PayloadBase(slot), SlotEnd(slot), PayloadBase(slot), SlotEnd(slot));
      if !ok {
        return;
      }
      assert accepted + body[..pos] + body[pos..pos + count] == accepted + body[..pos + count];
      pos := pos + count;
    }
    assert body[..|body|] == body;
    return true;
  }

  /** Writing payload bytes of an upload keeps what the upload relies on. */
  lemma UploadGrows(before: seq<byte>, after: seq<byte>, u: Upload, accepted: seq<byte>, body: seq<byte>,
                    running: u32, now: u32, sha: Hash)
    requires |before| == NOR_BYTES && Uploading(before, u, running, accepted, sha) && u.state == RECEIVING
    requires |accepted| + |body| <= u.header.imageBytes as int && |body| % 4 == 0
    requires SameOutside(before, after, PayloadBase(u.slot), SlotEnd(u.slot))
    ensures |after| == NOR_BYTES && MetaRead(after) == MetaRead(before)
    ensures PayloadStored(after, u.slot, accepted + body) ==>
              Uploading(after, u.(received := |accepted| + |body|, lastWrite := now), running, accepted + body, sha)
  {
    hide MetaRead, HeaderValid, SameOutside, PayloadStored, Committed;
    PayloadKeepsRecords(before, after, u.slot);
    PayloadInSlot(before, after, u.slot);
  }

  lemma SafeAfterUpload(before: seq<byte>, after: seq<byte>, log: seq<Meta>, u: Upload, sha: Hash)
    requires |before| == NOR_BYTES && Safe(before, log, sha) && u.slot <= 1
               && Unnamed(before, u.slot, u.metadataSequence, u.header.generation)
    requires SameOutside(before, after, PayloadBase(u.slot), SlotEnd(u.slot))
    ensures |after| == NOR_BYTES && Safe(after, log, sha)
  {
    hide MetaRead, Safe, SameOutside, HighWater;
    PayloadKeepsRecords(before, after, u.slot);
    PayloadInSlot(before, after, u.slot);
    SafeAfterSlotWrite(before, after, log, u.slot, sha);
  }

  lemma SlotAdmitted(slot: u32)
    requires slot <= 1
    ensures WritableImageRange(SlotOffset(slot), SECTOR) && SlotOffset(slot) % SECTOR == 0
  {
  }

  // ---------------------------------------------------------------- verify

  datatype Hashed = HashFault(reason: string) | Hashes(digest: Digest, crc: u32)

  /** The hash loop of `verify_payload`: SHA-256 and CRC side by side, 4 KiB at a time. */
  method HashPayload(p: seq<byte>, sha: Hash, reliable: bool) returns (r: Hashed)
    ensures r.Hashes? ==> r.digest == sha(p) && r.crc == Crc32(p)
    ensures reliable ==> r.Hashes?
  {
    hide Fold, Finish;
    NothingFolded(0xFFFF_FFFF);
    var fault: bool := *;
    if fault && !reliable {
      return HashFault("HASH_START_FAILED");
    }
    var absorbed: seq<byte> := [];
    var crc: bv32 := 0xFFFF_FFFF;
    var off := 0;
    while off < |p|
      invariant off <= |p| && absorbed == p[..off] && crc == Fold(0xFFFF_FFFF, p[..off])
    {
      var n := if |p| - off > 4096 then 4096 else |p| - off;
      fault := *;
      if fault && !reliable {
        return HashFault("HASH_UPDATE_FAILED");
      }
      absorbed := absorbed + p[off..off + n];
      crc := AddBytes(crc, p[off..off + n]);
      FoldConcat(0xFFFF_FFFF, p[..off], p[off..off + n]);
      assert p[..off] + p[off..off + n] == p[..off + n];
      off := off + n;
    }
    assert p[..|p|] == p;
    fault := *;
    if fault && !reliable {
      return HashFault("HASH_FINISH_FAILED");
    }
    return Hashes(sha(absorbed), Finish(crc));
  }

  /** While an upload is being received its slot holds no readable header, so it cannot boot. */
  lemma ReceivingNotBootable(mem: seq<byte>, u: Upload, running: u32, accepted: seq<byte>, sha: Hash)
    requires |mem| == NOR_BYTES && Uploading(mem, u, running, accepted, sha) && u.state == RECEIVING
    ensures !ImageHeaderRead(mem, u.slot)
  {
    hide MetaRead, HeaderValid, PayloadStored, Unnamed, Crc32, HeaderBody;
    SubSlice(mem, u.base, u.base as int + SECTOR, 0, 4);
    UnprogrammedMagic(mem, u.slot);
  }

  lemma UnprogrammedMagic(mem: seq<byte>, slot: u32)
    requires |mem| == NOR_BYTES && slot <= 1 && mem[SlotOffset(slot)..SlotOffset(slot) + 4] == Erased(4)
    ensures !ImageHeaderRead(mem, slot)
  {
    hide HeaderBody, Crc32;
    var off := SlotOffset(slot);
    SubSlice(mem, off, off + HEADER_BYTES, 0, 4);
    ErasedWord(mem[off..off + HEADER_BYTES], 0);
  }

  /** A readable header over a verified body is the whole header. */
  lemma HeaderComplete(mem: seq<byte>, slot: u32, h: Header)
    requires |mem| == NOR_BYTES && slot <= 1 && h.magic == IMAGE_MAGIC
    requires mem[SlotOffset(slot) + 4..SlotOffset(slot) + HEADER_BYTES] == HeaderBytes(h)[4..]
    requires ImageHeaderRead(mem, slot) || mem[SlotOffset(slot)..SlotOffset(slot) + 4] == HeaderBytes(h)[..4]
    ensures HeaderAt(mem, slot) == h
  {
    hide HeaderBytes, HeaderBody, Crc32;
    var off := SlotOffset(slot);
    var s := mem[off..off + HEADER_BYTES];
    HeaderMagicBytes(h);
    SubSlice(mem, off, off + HEADER_BYTES, 0, 4);
    SubSlice(mem, off, off + HEADER_BYTES, 4, HEADER_BYTES);
    if ImageHeaderRead(mem, slot) {
      WordBytesOfWord(s);
    }
    assert s == s[..4] + s[4..] == HeaderBytes(h)[..4] + HeaderBytes(h)[4..] == HeaderBytes(h);
    HeaderRoundTrip(h);
  }

  lemma HeaderMagicBytes(h: Header)
    ensures HeaderBytes(h)[..4] == WordBytes(h.magic)
  {
    assert HeaderBytes(h)[..4] == Encode(HeaderFront(h))[..4];
  }

  /** Part of the commit word is not the commit word. */
  lemma PartialImageMagic(mem: seq<byte>, slot: u32, done: nat)
    requires |mem| == NOR_BYTES && slot <= 1 && done < 4
    requires mem[SlotOffset(slot)..SlotOffset(slot) + 4] == WordBytes(IMAGE_MAGIC)[..done] + Erased(4 - done)
    ensures !ImageHeaderRead(mem, slot)
  {
    hide HeaderBody, Crc32;
    var off := SlotOffset(slot);
    SubSlice(mem, off, off + HEADER_BYTES, 0, 4);
    assert mem[off..off + HEADER_BYTES][3] == mem[off..off + 4][3] == 0xFF;
  }

  /** A write inside the header sector of a slot. */
  lemma HeaderSectorKept(before: seq<byte>, after: seq<byte>, slot: u32, accepted: seq<byte>)
    requires |before| == NOR_BYTES && slot <= 1 && |accepted| <= IMAGE_MAX
    requires SameOutside(before, after, SlotOffset(slot), PayloadBase(slot))
    ensures |after| == NOR_BYTES && MetaRead(after) == MetaRead(before)
    ensures SameOutside(before, after, SlotOffset(slot), SlotEnd(slot))
    ensures PayloadStored(after, slot, accepted) == PayloadStored(before, slot, accepted)
  {
    hide MetaRead, SameOutside, SectorEnd, Erased, PayloadStored;
    LengthKept(before, after, SlotOffset(slot), PayloadBase(slot));
    RecordsKept(before, after, SlotOffset(slot), PayloadBase(slot));
    SameOutsideTrans(before, before, after, SlotOffset(slot), SlotEnd(slot), SlotOffset(slot), PayloadBase(slot));
    StoredKept(before, after, SlotOffset(slot), PayloadBase(slot), slot, accepted);
  }

  /** A write that ends before the payload leaves it as stored. */
  lemma StoredKept(before: seq<byte>, after: seq<byte>, lo: nat, hi: nat, slot: u32, accepted: seq<byte>)
    requires |before| == |after| == NOR_BYTES && slot <= 1 && |accepted| <= IMAGE_MAX
    requires lo <= hi <= PayloadBase(slot) && SameOutside(before, after, lo, hi)
    ensures PayloadStored(after, slot, accepted) == PayloadStored(before, slot, accepted)
  {
    hide SameOutside, SectorEnd, Erased, PayloadBase;
    var p := PayloadBase(slot);
    SectorEndBound(slot, |accepted|);
    SliceOutside(before, after, lo, hi, p, p + |accepted|);
    SliceOutside(before, after, lo, hi, p + |accepted|, p + SectorEnd(|accepted|));
  }

  lemma SectorEndBound(slot: u32, n: nat)
    requires slot <= 1 && n <= IMAGE_MAX
    ensures n <= SectorEnd(n) && PayloadBase(slot) + SectorEnd(n) <= NOR_BYTES
  {
    Rounding(n, IMAGE_MAX);
  }

  /** The first step of the commit: the header without its magic. */
  lemma HeaderBodyProgrammed(before: seq<byte>, slot: u32, h: Header, done: nat)
    requires |before| == NOR_BYTES && slot <= 1 && done <= HEADER_BYTES - 4
    requires before[SlotOffset(slot)..PayloadBase(slot)] == Erased(SECTOR)
    ensures var data := HeaderBytes(h)[4..];
            var after := ProgramEffect(before, SlotOffset(slot) + 4, data, done);
            && SameOutside(before, after, SlotOffset(slot), PayloadBase(slot))
            && after[SlotOffset(slot)..SlotOffset(slot) + 4] == Erased(4)
            && (done == |data| ==> after[SlotOffset(slot) + 4..SlotOffset(slot) + HEADER_BYTES] == data)
  {
    hide ProgramEffect, Overwrite, HeaderBytes, SameOutside;
    var off, data := SlotOffset(slot), HeaderBytes(h)[4..];
    FreeCells(before, off, SECTOR, 4);
    FreeCells(before, off + 4, SECTOR - 4, |data|);
    ProgramFree(before, off + 4, data, done);
    var after := Overwrite(before, off + 4, data[..done]);
    OverwriteFrame(before, off + 4, data[..done]);
    OverwriteInside(before, off + 4, data[..done], off, PayloadBase(slot));
    SliceOutside(before, after, off + 4, off + 4 + done, off, off + 4);
  }

  /** The second step: the magic. */
  lemma HeaderMagicProgrammed(before: seq<byte>, slot: u32, h: Header, done: nat)
    requires |before| == NOR_BYTES && slot <= 1 && done <= 4 && h.magic == IMAGE_MAGIC
    requires before[SlotOffset(slot)..SlotOffset(slot) + 4] == Erased(4)
    requires before[SlotOffset(slot) + 4..SlotOffset(slot) + HEADER_BYTES] == HeaderBytes(h)[4..]
    ensures var after := ProgramEffect(before, SlotOffset(slot), HeaderBytes(h)[..4], done);
            && SameOutside(before, after, SlotOffset(slot), PayloadBase(slot))
            && (if done == 4 then HeaderAt(after, slot) == h else !ImageHeaderRead(after, slot))
  {
    hide ProgramEffect, Overwrite, HeaderBytes, SameOutside, HeaderAt, ImageHeaderRead;
    var off, data := SlotOffset(slot), HeaderBytes(h)[..4];
    ProgramFree(before, off, data, done);
    var after := Overwrite(before, off, data[..done]);
    OverwriteFrame(before, off, data[..done]);
    OverwriteInside(before, off, data[..done], off, PayloadBase(slot));
    OverwriteInside(before, off, data[..done], off, off + 4);
    SliceOutside(before, after, off, off + 4, off + 4, off + HEADER_BYTES);
    HeaderMagicBytes(h);
    if done == 4 {
      HeaderComplete(after, slot, h);
    } else {
      FreeCells(before, off, 4, done);
      SliceOutside(before, after, off, off + done, off + done, off + 4);
      assert after[off..off + 4] == after[off..off + done] + after[off + done..off + 4];
      PartialImageMagic(after, slot, done);
    }
  }

  /** A complete header over a matching payload validates. */
  lemma CommittedValidates(mem: seq<byte>, slot: u32, h: Header, accepted: seq<byte>)
    requires |mem| == NOR_BYTES && slot <= 1 && HeaderValid(h) && HeaderAt(mem, slot) == h
    requires |accepted| == h.imageBytes as int && PayloadStored(mem, slot, accepted)
    ensures ImageHeaderRead(mem, slot) && Payload(mem, slot) == accepted
    ensures ImageValidate(mem, slot) <==> VectorsValid(accepted) && Crc32(accepted) == h.imageCrc
  {
    hide HeaderOf, HeaderBody, Crc32, VectorsValid;
  }

  /**
   * The commit of `verify_payload`: the header without its magic, read back; then the magic; then the
   * whole image is validated. At no point is there a readable header other than the complete one.
   */
  method CommitHeader(nor: Nor, slot: u32, h: Header, ghost accepted: seq<byte>) returns (ok: bool, seen: Header)
    requires nor.Valid() && slot <= 1 && HeaderValid(h) && |accepted| == h.imageBytes as int
    requires nor.Flash()[SlotOffset(slot)..PayloadBase(slot)] == Erased(SECTOR)
    requires PayloadStored(nor.Flash(), slot, accepted)
    modifies nor.mem, nor`powered, nor`committed, nor`twice
    ensures nor.Valid() && nor.twice == old(nor.twice) && nor.committed == old(nor.committed)
    ensures SameOutside(old(nor.Flash()), nor.Flash(), SlotOffset(slot), PayloadBase(slot))
    ensures ImageHeaderRead(nor.Flash(), slot) ==> HeaderAt(nor.Flash(), slot) == h
    ensures ok ==> ImageValidate(nor.Flash(), slot) && seen == h
    ensures old(nor.powered) && nor.reliable && VectorsValid(accepted) && Crc32(accepted) == h.imageCrc ==> ok
  {
    hide MetaRead, ProgramEffect, HeaderBytes, SameOutside, HeaderAt, ImageHeaderRead, ImageValidate, Crc32,
      VectorsValid, PayloadStored, WritableImageRange, OnePage;
    seen := h;
    var head := HeaderBytes(h);
    var base := SlotOffset(slot);
    HeaderGuards(slot, head);
    ghost var m0 := nor.Flash();
    ghost var done;
    FreeCells(m0, base, SECTOR, 4);
    FreeCells(m0, base + 4, SECTOR - 4, HEADER_BYTES - 4);
    UnchangedInside(m0, base, PayloadBase(slot));
    UnprogrammedMagic(m0, slot);
    ok, done := nor.ImageProgram(base + 4, head[4..]);
    ghost var m1 := nor.Flash();
    HeaderBodyProgrammed(m0, slot, h, done);
    HeaderSectorKept(m0, m1, slot, accepted);
    UnprogrammedMagic(m1, slot);
    ok := ok && nor.mem[base + 4..base as int + HEADER_BYTES] == head[4..];
    if !ok {
      return;
    }
    ok, done := nor.ImageProgram(base, head[..4]);
    ghost var m2 := nor.Flash();
    HeaderMagicProgrammed(m1, slot, h, done);
    UnchangedInside(m1, base, PayloadBase(slot));
    HeaderSectorKept(m1, m2, slot, accepted);
    SameOutsideTrans(m0, m1, m2, base, PayloadBase(slot), base, PayloadBase(slot));
    if ok {
      if HeaderAt(m2, slot) == h {
        CommittedValidates(m2, slot, h, accepted);
      }
      ReadableIfValid(m2, slot);
      seen := HeaderAt(nor.mem[..], slot);
      ok := ImageValidate(nor.mem[..], slot);
    }
  }

  lemma HeaderGuards(slot: u32, head: seq<byte>)
    requires slot <= 1 && |head| == HEADER_BYTES
    ensures OnePage(SlotOffset(slot) + 4, head[4..]) && WritableImageRange(SlotOffset(slot) + 4, HEADER_BYTES - 4)
    ensures OnePage(SlotOffset(slot), head[..4]) && WritableImageRange(SlotOffset(slot), 4)
  {
  }

  /** The payload is the one the header describes. */
  predicate Matches(h: Header, payload: seq<byte>, sha: Hash)
  {
    |payload| == h.imageBytes as int && Crc32(payload) == h.imageCrc && sha(payload) == h.sha256
  }

  lemma VerifiedMatches(mem: seq<byte>, u: Upload, running: u32, accepted: seq<byte>, sha: Hash)
    requires |mem| == NOR_BYTES && Uploading(mem, u, running, accepted, sha) && u.state == VERIFIED
    ensures Matches(u.header, accepted, sha)
    ensures ImageHeaderRead(mem, u.slot) && HeaderAt(mem, u.slot) == u.header
  {
    hide MetaRead, Crc32, Unnamed, VectorsValid, HeaderOf, HeaderBody;
    CommittedValidates(mem, u.slot, u.header, accepted);
  }

  lemma HeaderSector(mem: seq<byte>, u: Upload, running: u32, accepted: seq<byte>, sha: Hash)
    requires |mem| == NOR_BYTES && Uploading(mem, u, running, accepted, sha) && u.state == RECEIVING
    ensures mem[SlotOffset(u.slot)..PayloadBase(u.slot)] == Erased(SECTOR)
  {
    hide MetaRead, HeaderValid, PayloadStored;
  }

  lemma SafeAfterCommit(before: seq<byte>, after: seq<byte>, log: seq<Meta>, u: Upload, sha: Hash)
    requires |before| == NOR_BYTES && Safe(before, log, sha) && u.slot <= 1
    requires Unnamed(before, u.slot, u.metadataSequence, u.header.generation)
    requires SameOutside(before, after, SlotOffset(u.slot), PayloadBase(u.slot))
    ensures |after| == NOR_BYTES && Safe(after, log, sha)
  {
    hide MetaRead, Safe, SameOutside, HighWater, PayloadStored;
    HeaderSectorKept(before, after, u.slot, []);
    SafeAfterSlotWrite(before, after, log, u.slot, sha);
  }

  /** A committed header over the received payload ends the receiving phase. */
  lemma CommitEstablished(before: seq<byte>, after: seq<byte>, u: Upload, running: u32, accepted: seq<byte>, sha: Hash)
    requires |before| == NOR_BYTES && Uploading(before, u, running, accepted, sha) && u.state == RECEIVING
    requires SameOutside(before, after, SlotOffset(u.slot), PayloadBase(u.slot))
    requires |accepted| == u.header.imageBytes as int && Matches(u.header, accepted, sha)
    requires |after| == NOR_BYTES && ImageValidate(after, u.slot) && HeaderAt(after, u.slot) == u.header
    ensures Uploading(after, u.(state := VERIFIED), running, accepted, sha)
  {
    hide MetaRead, HeaderValid, SameOutside, PayloadStored, Crc32, HeaderAt, VectorsValid, ImageHeaderRead,
      ImageValidate;
    ImageBytesBound(u.header);
    HeaderSectorKept(before, after, u.slot, accepted);
    CommittedValidates(after, u.slot, u.header, accepted);
  }

  /** Writes to the slot of an upload reach neither the running nor the confirmed slot. */
  lemma UploadContained(before: seq<byte>, after: seq<byte>, lo: nat, hi: nat, u: Upload, running: u32,
                        accepted: seq<byte>, safe: bool, sha: Hash)
    requires |before| == NOR_BYTES && Uploading(before, u, running, accepted, sha) && u.state == RECEIVING
    requires SlotOffset(u.slot) as int <= lo <= hi <= SlotEnd(u.slot) && SameOutside(before, after, lo, hi)
    ensures Contained(before, after, running, safe, false)
  {
    hide MetaRead, HeaderValid, SameOutside, PayloadStored, Committed, HighWater, Contained;
    NothingChanged(before);
    SlotContained(before, before, after, lo, hi, u.slot, running, safe);
  }

  /** The record that `activate` writes is a legal successor. */
  lemma ActivationLegal(mem: seq<byte>, now: Meta, m: Meta, slot: u32, generation: u32)
    requires |mem| == NOR_BYTES && MetaRead(mem) == Some(now) && slot <= 1
    requires now.trialSlot == SLOT_NONE && now.confirmedSlot != slot && generation > HighWater(now)
    requires m == now.(trialSlot := slot, trialGeneration := generation, trialAttempts := 0)
    ensures Activates(now, m)
    ensures Stamped(mem, m).sequence != 0 ==>
              Activates(now, Stamped(mem, m)) && Stamped(mem, m).sequence == now.sequence + 1
              && Stamped(mem, m).trialSlot == slot && Stamped(mem, m).trialGeneration == generation
    ensures NextSequence(mem) != 0 ==> MetaValid(Stamped(mem, m))
    ensures MetaValid(Stamped(mem, m)) ==> Stamped(mem, m).sequence != 0
  {
    hide MetaRead, Stamped, NextSequence, MetaBody, Crc32;
    ReadValidSlots(mem);
    StampedContent(mem, m);
    StampedValid(mem, m);
    if Stamped(mem, m).sequence != 0 {
      StampedSucceeds(mem, m);
    }
  }

  lemma ActivatedPresent(mem: seq<byte>, log: seq<Meta>, m: Meta, sha: Hash)
    requires |mem| == NOR_BYTES && Safe(mem, log, sha) && m.trialSlot <= 1
    requires m.confirmedSlot == MetaRead(mem).value.confirmedSlot
    requires m.confirmedGeneration == MetaRead(mem).value.confirmedGeneration
    requires Verified(mem, m.trialSlot, m.trialGeneration, sha)
    requires MetaRead(mem).Some? && Activates(MetaRead(mem).value, m)
    ensures Legal(mem, m, sha) && BanksAdjacent(mem)
  {
    hide MetaRead, Verified, BanksAdjacent, History, Activates;
  }

  /** A write to records or settings that left the record in force does not disturb the upload. */
  lemma RecordWriteKeepsUpload(before: seq<byte>, after: seq<byte>, u: Upload, running: u32, accepted: seq<byte>,
                          sha: Hash)
    requires |before| == NOR_BYTES && Uploading(before, u, running, accepted, sha) && OnlyRecords(before, after)
    requires MetaRead(after) == MetaRead(before) || (u.state == VERIFIED && Recorded(after, u.slot, u.metadataSequence))
    ensures Uploading(after, u, running, accepted, sha)
  {
    hide MetaRead, HeaderValid, HighWater, ImageValidate, HeaderAt, ImageHeaderRead, Payload, PayloadStored,
      OnlyRecords;
    OnlyRecordsRange(before, after);
    SlotKept(before, after, CONFIG0_OFFSET, META1_OFFSET + SECTOR, u.slot);
    ReadableIfValid(before, u.slot);
    SliceOutside(before, after, CONFIG0_OFFSET, META1_OFFSET + SECTOR, u.base, u.base as int + SECTOR);
    ImageBytesBound(u.header);
    StoredKept(before, after, CONFIG0_OFFSET, META1_OFFSET + SECTOR, u.slot, accepted);
  }
}
