/**
 * What every run of the update system keeps. The flash of a provisioned board always holds a readable
 * record whose confirmed slot boots; the records that have been in force form a history whose
 * generations only grow and whose trials are bounded.
 */
module BootSafety {
  import opened Arithmetic
  import opened Crc
  import opened Bytes
  import opened BootFormat
  import opened BoardMemory
  import opened BootState

  type Hash = seq<byte> -> Digest

  /** The highest generation this record knows to have been used. */
  function HighWater(m: Meta): u32
  {
    Max(m.confirmedGeneration, Max(m.trialGeneration, m.reserved0))
  }

  // ---------------------------------------------------------------- transitions between records

  /** What a record says, without its sequence number and checksum. */
  function Content(m: Meta): Meta
  {
    m.(sequence := 0, crc := 0)
  }

  function WithoutTrial(m: Meta): Meta
  {
    m.(trialSlot := SLOT_NONE, trialGeneration := 0, trialAttempts := 0)
  }

  predicate Activates(a: Meta, b: Meta)
  {
    && a.trialSlot == SLOT_NONE && b.trialSlot <= 1 && b.trialSlot != a.confirmedSlot
    && b.trialGeneration > HighWater(a)
    && Content(b) == Content(a.(trialSlot := b.trialSlot, trialGeneration := b.trialGeneration, trialAttempts := 0))
  }

  predicate Attempts(a: Meta, b: Meta)
  {
    && a.trialSlot <= 1 && a.trialAttempts < MAX_TRIAL_ATTEMPTS
    && Content(b) == Content(a.(trialAttempts := a.trialAttempts + 1))
  }

  predicate Confirms(a: Meta, b: Meta)
  {
    && a.trialSlot <= 1
    && Content(b) == Content(WithoutTrial(a.(confirmedSlot := a.trialSlot, confirmedGeneration := a.trialGeneration)))
  }

  predicate Retires(a: Meta, b: Meta)
  {
    && a.trialSlot <= 1
    && Content(b) == Content(WithoutTrial(a.(reserved0 := Max(a.trialGeneration, a.reserved0))))
  }

  /** The only ways in which one record succeeds another. */
  predicate MetaStep(a: Meta, b: Meta)
  {
    b.sequence == a.sequence + 1 && (Activates(a, b) || Attempts(a, b) || Confirms(a, b) || Retires(a, b))
  }

  /** A recorded trial is newer than everything else the record knows, and is not the confirmed slot. */
  predicate TrialFresh(m: Meta)
  {
    m.trialSlot == SLOT_NONE
    || (m.trialSlot <= 1 && m.trialSlot != m.confirmedSlot && m.trialAttempts <= MAX_TRIAL_ATTEMPTS
        && m.trialGeneration > Max(m.confirmedGeneration, m.reserved0))
  }

  /** A history that starts from a provisioned record. */
  predicate History(log: seq<Meta>)
  {
    && log != [] && TrialFresh(log[0])
    && forall i :: 0 < i < |log| ==> MetaStep(log[i - 1], log[i])
  }

  lemma {:induction false} HistoryFresh(log: seq<Meta>, i: nat)
    requires History(log) && i < |log|
    ensures TrialFresh(log[i])
  {
    if i > 0 {
      HistoryFresh(log, i - 1);
      assert MetaStep(log[i - 1], log[i]);
    }
  }

  /** The high-water mark never decreases. */
  lemma {:induction false} HighWaterMonotone(log: seq<Meta>, i: nat, j: nat)
    requires History(log) && i <= j < |log|
    ensures HighWater(log[i]) <= HighWater(log[j])
  {
    if i < j {
      HighWaterMonotone(log, i, j - 1);
      HistoryFresh(log, j - 1);
      assert MetaStep(log[j - 1], log[j]);
    }
  }

  /** No generation is ever activated twice, whatever was confirmed, retired or rolled back in between. */
  lemma ActivationsIncrease(log: seq<Meta>, i: nat, j: nat)
    requires History(log) && 0 < i < j < |log|
    requires Activates(log[i - 1], log[i]) && Activates(log[j - 1], log[j])
    ensures log[i].trialGeneration < log[j].trialGeneration
    ensures HighWater(log[j - 1]) < HighWater(log[j])
  {
    HighWaterMonotone(log, i, j - 1);
  }

  /** How many trial boots of generation `g` the history has committed. */
  function TrialBoots(log: seq<Meta>, g: u32): nat
  {
    if |log| < 2 then 0 else
    var a, b := log[|log| - 2], log[|log| - 1];
    TrialBoots(log[..|log| - 1], g) + if Attempts(a, b) && b.trialGeneration == g then 1 else 0
  }

  lemma {:induction false} TrialBootsCounted(log: seq<Meta>, g: u32)
    requires History(log)
    ensures var m := log[|log| - 1];
            && (m.trialSlot <= 1 && m.trialGeneration == g ==> TrialBoots(log, g) <= m.trialAttempts)
            && (g > HighWater(m) ==> TrialBoots(log, g) == 0)
            && TrialBoots(log, g) <= MAX_TRIAL_ATTEMPTS
  {
    if |log| >= 2 {
      var front := log[..|log| - 1];
      forall i | 0 < i < |front|
        ensures MetaStep(front[i - 1], front[i])
      {
        assert MetaStep(log[i - 1], log[i]);
      }
      TrialBootsCounted(front, g);
      HistoryFresh(log, |log| - 2);
      assert MetaStep(log[|log| - 2], log[|log| - 1]);
    }
  }

  /** Each generation is given at most G100_MAX_TRIAL_ATTEMPTS trial boots, over any run. */
  lemma BoundedTrials(log: seq<Meta>, g: u32)
    requires History(log)
    ensures TrialBoots(log, g) <= MAX_TRIAL_ATTEMPTS
  {
    TrialBootsCounted(log, g);
  }

  lemma HistoryExtended(log: seq<Meta>, m: Meta)
    requires History(log) && MetaStep(log[|log| - 1], m)
    ensures History(log + [m])
  {
  }

  // ---------------------------------------------------------------- flash

  /** The slot boots: its image passes every check, has the recorded generation and the hash it claims. */
  predicate Verified(mem: seq<byte>, slot: u32, generation: u32, sha: Hash)
    requires |mem| == NOR_BYTES
  {
    && ImageValidate(mem, slot)
    && HeaderAt(mem, slot).generation == generation
    && HeaderAt(mem, slot).sha256 == sha(Payload(mem, slot))
  }

  /** The images that a record names are there. */
  predicate ImagesPresent(mem: seq<byte>, m: Meta, sha: Hash)
    requires |mem| == NOR_BYTES
  {
    && m.confirmedSlot <= 1 && Verified(mem, m.confirmedSlot, m.confirmedGeneration, sha)
    && (m.trialSlot != SLOT_NONE ==> m.trialSlot <= 1 && Verified(mem, m.trialSlot, m.trialGeneration, sha))
  }

  /** The never-bricked invariant of a provisioned board. */
  predicate Safe(mem: seq<byte>, log: seq<Meta>, sha: Hash)
    requires |mem| == NOR_BYTES
  {
    var now := MetaRead(mem);
    && now.Some? && ImagesPresent(mem, now.value, sha) && BanksAdjacent(mem)
    && History(log) && log[|log| - 1] == now.value
  }

  /** A change outside the metadata sectors leaves the records alone. */
  lemma RecordsKept(before: seq<byte>, after: seq<byte>, lo: nat, hi: nat)
    requires |before| == NOR_BYTES && lo <= hi <= NOR_BYTES && SameOutside(before, after, lo, hi)
    requires hi <= META0_OFFSET || META1_OFFSET + META_BYTES <= lo
    ensures MetaLatest(after) == MetaLatest(before) && MetaRead(after) == MetaRead(before)
    ensures BanksAdjacent(after) == BanksAdjacent(before)
  {
    hide MetaValid, MetaOf;
    SliceOutside(before, after, lo, hi, META0_OFFSET, META0_OFFSET + META_BYTES);
    SliceOutside(before, after, lo, hi, META1_OFFSET, META1_OFFSET + META_BYTES);
    assert Bank(after, 0) == Bank(before, 0) && Bank(after, 1) == Bank(before, 1);
  }

  /** A change outside a slot leaves its image alone. */
  lemma SlotKept(before: seq<byte>, after: seq<byte>, lo: nat, hi: nat, slot: u32)
    requires |before| == NOR_BYTES && lo <= hi <= NOR_BYTES && SameOutside(before, after, lo, hi)
    requires slot <= SLOT_FACTORY && (hi <= SlotOffset(slot) as int || SlotEnd(slot) <= lo)
    ensures HeaderAt(after, slot) == HeaderAt(before, slot)
    ensures ImageHeaderRead(after, slot) == ImageHeaderRead(before, slot)
    ensures ImageHeaderRead(before, slot) ==> Payload(after, slot) == Payload(before, slot)
    ensures ImageValidate(after, slot) == ImageValidate(before, slot)
  {
    hide HeaderOf, VectorsValid, Crc32, HeaderBody, SameOutside;
    var off := SlotOffset(slot);
    SliceOutside(before, after, lo, hi, off, off + HEADER_BYTES);
    if ImageHeaderRead(before, slot) {
      var p := off + IMAGE_HEADER_BYTES;
      SliceOutside(before, after, lo, hi, p, p + HeaderAt(before, slot).imageBytes);
    }
  }

  /** Images outside the range of a write are still there. */
  lemma ImagesKept(before: seq<byte>, after: seq<byte>, lo: nat, hi: nat, m: Meta, sha: Hash)
    requires |before| == NOR_BYTES && lo <= hi <= NOR_BYTES && SameOutside(before, after, lo, hi)
    requires ImagesPresent(before, m, sha)
    requires hi <= SlotOffset(m.confirmedSlot) as int || SlotEnd(m.confirmedSlot) <= lo
    requires m.trialSlot <= 1 ==> hi <= SlotOffset(m.trialSlot) as int || SlotEnd(m.trialSlot) <= lo
    ensures ImagesPresent(after, m, sha)
  {
    hide ImageValidate, SameOutside, HeaderAt, ImageHeaderRead, Payload;
    SlotKept(before, after, lo, hi, m.confirmedSlot);
    ReadableIfValid(before, m.confirmedSlot);
    if m.trialSlot <= 1 {
      SlotKept(before, after, lo, hi, m.trialSlot);
      ReadableIfValid(before, m.trialSlot);
    }
  }

  lemma ReadableIfValid(mem: seq<byte>, slot: u32)
    requires |mem| == NOR_BYTES
    ensures ImageValidate(mem, slot) ==> ImageHeaderRead(mem, slot)
  {
  }

  /** The stamped record succeeds the record in force. */
  lemma StampedSucceeds(mem: seq<byte>, m: Meta)
    requires |mem| == NOR_BYTES && MetaRead(mem).Some? && Stamped(mem, m).sequence != 0
    ensures var now, r := MetaRead(mem).value, Stamped(mem, m);
            && now.magic == META_MAGIC && now.format == 1 && MetaValid(now)
            && r.sequence == now.sequence + 1
            && Content(r) == Content(m.(magic := META_MAGIC, format := 1))
  {
    hide BankBytes, MetaOf, MetaBody, Crc32;
  }

  /** Stamping changes nothing that a record says. */
  lemma StampedContent(mem: seq<byte>, m: Meta)
    requires |mem| == NOR_BYTES
    ensures Content(Stamped(mem, m)) == Content(m.(magic := META_MAGIC, format := 1))
    ensures Stamped(mem, m).sequence == NextSequence(mem)
  {
    hide NextSequence, MetaBody;
  }

  /** The record in force is valid. */
  lemma ReadValid(mem: seq<byte>)
    requires |mem| == NOR_BYTES && MetaRead(mem).Some?
    ensures MetaValid(MetaRead(mem).value)
  {
    hide BankBytes, MetaOf, MetaBody, Crc32;
  }

  /** A record with legal slots and attempts is accepted unless the sequence numbers are exhausted. */
  lemma StampedValid(mem: seq<byte>, m: Meta)
    requires |mem| == NOR_BYTES
    requires (m.confirmedSlot <= 1 || m.confirmedSlot == SLOT_NONE) && (m.trialSlot <= 1 || m.trialSlot == SLOT_NONE)
    requires m.trialAttempts <= MAX_TRIAL_ATTEMPTS
    ensures Stamped(mem, m).sequence == NextSequence(mem)
    ensures NextSequence(mem) != 0 ==> MetaValid(Stamped(mem, m))
  {
    hide BankBytes, MetaOf, Crc32;
    var s := m.(magic := META_MAGIC, format := 1, sequence := NextSequence(mem));
    assert MetaBody(s.(crc := Crc32(MetaBody(s)))) == MetaBody(s);
  }

  lemma LengthKept(before: seq<byte>, after: seq<byte>, lo: nat, hi: nat)
    requires lo <= hi <= |before| && SameOutside(before, after, lo, hi)
    ensures |after| == |before|
  {
  }

  /** The metadata sectors lie below the slots that a record can name. */
  lemma BelowSlots(mem: seq<byte>, m: Meta, sha: Hash)
    requires |mem| == NOR_BYTES && ImagesPresent(mem, m, sha)
    ensures m.confirmedSlot <= 1 && META1_OFFSET + SECTOR <= SlotOffset(m.confirmedSlot) as int
    ensures m.trialSlot <= 1 ==> META1_OFFSET + SECTOR <= SlotOffset(m.trialSlot) as int
  {
  }

  /** A metadata write of a legal successor keeps the board safe, whether or not it took effect. */
  lemma SafeAfterMetaWrite(before: seq<byte>, after: seq<byte>, log: seq<Meta>, r: Meta, sha: Hash)
    requires |before| == |after| == NOR_BYTES && Safe(before, log, sha)
    requires SameOutside(before, after, META0_OFFSET, META1_OFFSET + SECTOR)
    requires BanksAdjacent(after)
    requires MetaRead(after) == MetaRead(before) || MetaRead(after) == Some(r)
    requires MetaRead(after) == Some(r) ==>
               r == MetaRead(before).value || (MetaStep(MetaRead(before).value, r) && ImagesPresent(before, r, sha))
    ensures Safe(after, Witness(log, after), sha)
  {
    hide MetaRead, ImagesPresent, BanksAdjacent, MetaStep, SameOutside;
    var now := MetaRead(before).value;
    BelowSlots(before, now, sha);
    ImagesKept(before, after, META0_OFFSET, META1_OFFSET + SECTOR, now, sha);
    if MetaRead(after) != MetaRead(before) {
      BelowSlots(before, r, sha);
      ImagesKept(before, after, META0_OFFSET, META1_OFFSET + SECTOR, r, sha);
      HistoryExtended(log, r);
    }
  }

  /** `m` is a legal successor of the record in force, and the images it names are there. */
  predicate Legal(mem: seq<byte>, m: Meta, sha: Hash)
    requires |mem| == NOR_BYTES
  {
    var now := MetaRead(mem);
    && now.Some? && ImagesPresent(mem, m, sha)
    && (Activates(now.value, m) || Attempts(now.value, m) || Confirms(now.value, m) || Retires(now.value, m))
  }

  /** `g100_meta_write` of a legal successor keeps the board safe. */
  lemma SafeAfterLegalWrite(before: seq<byte>, after: seq<byte>, log: seq<Meta>, m: Meta, sha: Hash)
    requires |before| == |after| == NOR_BYTES && Safe(before, log, sha) && Legal(before, m, sha)
    requires SameOutside(before, after, META0_OFFSET, META1_OFFSET + SECTOR)
    requires BanksAdjacent(after)
    requires var r := Stamped(before, m);
             MetaRead(after) == MetaRead(before) || (MetaValid(r) && MetaRead(after) == Some(r))
    ensures Safe(after, Witness(log, after), sha)
  {
    hide MetaRead, Verified, BanksAdjacent, SameOutside, History, Stamped, MetaBody;
    var r := Stamped(before, m);
    if MetaRead(after) != MetaRead(before) {
      StampedSucceeds(before, m);
    }
    SafeAfterMetaWrite(before, after, log, r, sha);
  }

  /** Writing the slot that no record names keeps the board safe. */
  lemma SafeAfterSlotWrite(before: seq<byte>, after: seq<byte>, log: seq<Meta>, slot: u32, sha: Hash)
    requires |before| == NOR_BYTES && Safe(before, log, sha) && slot <= 1
    requires MetaRead(before).value.trialSlot == SLOT_NONE && MetaRead(before).value.confirmedSlot != slot
    requires SameOutside(before, after, SlotOffset(slot), SlotEnd(slot))
    ensures Safe(after, log, sha)
  {
    hide MetaRead, Verified, BanksAdjacent, MetaStep, History, SameOutside;
    assert |after| == NOR_BYTES by { LengthKept(before, after, SlotOffset(slot), SlotEnd(slot)); }
    RecordsKept(before, after, SlotOffset(slot), SlotEnd(slot));
    ImagesKept(before, after, SlotOffset(slot), SlotEnd(slot), MetaRead(before).value, sha);
  }
}
