/** Confirming a trial (boot_state.c) and choosing what to boot (boot_policy.c). */
module BootPolicy {
  import opened Arithmetic
  import opened Bytes
  import opened Crc
  import opened BootFormat
  import opened BoardMemory
  import opened BootState
  import opened BootSafety

  const INFO_MAGIC: u32 := 0x3149_4247

  /** The hand-off block that stage 0 leaves in RAM; its flag bits are separate fields here. */
  class BootInfo {
    var magic: u32
    var selectedSlot: u32
    var generation: u32
    var metadataSequence: u32
    var confirmed: bool
    var trial: bool
    var fallback: bool
    var degraded: bool

    constructor ()
      ensures magic == INFO_MAGIC && selectedSlot == SLOT_NONE && generation == 0 && metadataSequence == 0
      ensures !confirmed && !trial && !fallback && !degraded
    {
      magic, selectedSlot, generation, metadataSequence := INFO_MAGIC, SLOT_NONE, 0, 0;
      confirmed, trial, fallback, degraded := false, false, false, false;
    }
  }

  /** The running image is the trial that the record in force describes. */
  predicate RunningTrial(mem: seq<byte>, slot: u32, generation: u32)
    requires |mem| == NOR_BYTES
  {
    var now := MetaRead(mem);
    now.Some? && now.value.trialSlot == slot && now.value.trialGeneration == generation
  }

  /** `g100_boot_confirm` has a trial to confirm. */
  ghost predicate Confirmable(mem: seq<byte>, info: BootInfo)
    requires |mem| == NOR_BYTES
    reads info
  {
    info.magic == INFO_MAGIC && info.trial && RunningTrial(mem, info.selectedSlot, info.generation)
  }

  /** The record in force was replaced by its successor under `step`. */
  ghost predicate Replaces(before: seq<byte>, after: seq<byte>, step: (Meta, Meta) -> bool)
    requires |before| == |after| == NOR_BYTES
  {
    var a, b := MetaRead(before), MetaRead(after);
    a.Some? && b.Some? && b.value.sequence == a.value.sequence + 1 && step(a.value, b.value)
  }

  /** The record in force is still there, or its successor under `step`. */
  ghost predicate MayReplace(before: seq<byte>, after: seq<byte>, step: (Meta, Meta) -> bool)
    requires |before| == |after| == NOR_BYTES
  {
    MetaRead(after) == MetaRead(before) || Replaces(before, after, step)
  }

  /** Once confirmed, the trial's image is the confirmed image. */
  lemma ConfirmedPresent(mem: seq<byte>, now: Meta, r: Meta, sha: Hash)
    requires |mem| == NOR_BYTES && ImagesPresent(mem, now, sha) && Confirms(now, r)
    ensures ImagesPresent(mem, r, sha)
  {
    hide Verified;
  }

  /**
   * `g100_boot_confirm`. A running trial becomes the confirmed image in one atomic step; the flag that
   * marks the boot as a trial stays set, so that a second call fails.
   */
  method BootConfirm(nor: Nor, info: BootInfo, ghost sha: Hash) returns (ok: bool)
    requires nor.Valid()
    modifies nor.mem, nor`powered, nor`committed, nor`twice, info`confirmed, info`metadataSequence
    ensures nor.Valid() && nor.twice == old(nor.twice) && nor.committed == Witness(old(nor.committed), nor.Flash())
    ensures SameOutside(old(nor.Flash()), nor.Flash(), META0_OFFSET, META1_OFFSET + SECTOR)
    ensures Safe(old(nor.Flash()), old(nor.committed), sha) && info.selectedSlot <= 1
        ==> Safe(nor.Flash(), nor.committed, sha)
    ensures !old(Confirmable(nor.Flash(), info)) ==> nor.Flash() == old(nor.Flash())
    ensures MetaRead(nor.Flash()) == MetaRead(old(nor.Flash()))
         || (info.selectedSlot <= 1 ==> Replaces(old(nor.Flash()), nor.Flash(), Confirms))
    ensures ok ==> info.magic == INFO_MAGIC && info.confirmed
    ensures ok ==> (info.trial ==>
              old(Confirmable(nor.Flash(), info)) && MetaRead(nor.Flash()) != MetaRead(old(nor.Flash())))
    ensures !ok ==> info.confirmed == old(info.confirmed) && info.metadataSequence == old(info.metadataSequence)
    ensures info.magic == INFO_MAGIC && !info.trial ==> ok
    ensures ok && info.trial && info.selectedSlot <= 1 ==> !Confirmable(nor.Flash(), info)
    ensures old(Confirmable(nor.Flash(), info) && NextSequence(nor.Flash()) != 0 && nor.powered && nor.reliable)
        ==> info.selectedSlot <= 1 ==> ok
  {
    hide MetaRead, Stamped, SameOutside, BanksAdjacent, ImagesPresent, History, NextSequence, MetaBody;
    ghost var m0, log := nor.Flash(), nor.committed;
    NothingChanged(m0);
    if info.magic != INFO_MAGIC {
      return false;
    }
    if !info.trial {
      info.confirmed := true;
      return true;
    }
    var now := MetaRead(nor.mem[..]);
    if now.None? || now.value.trialSlot != info.selectedSlot || now.value.trialGeneration != info.generation {
      return false;
    }
    var meta := now.value.(
      confirmedSlot := info.selectedSlot, confirmedGeneration := info.generation,
      trialSlot := SLOT_NONE, trialGeneration := 0, trialAttempts := 0);
    ghost var wanted := meta;
    if info.selectedSlot <= 1 {
      StampedValid(m0, wanted);
    }
    ok, meta := MetaWrite(nor, meta);
    if Safe(m0, log, sha) && info.selectedSlot <= 1 {
      ConfirmedPresent(m0, now.value, wanted, sha);
      SafeAfterLegalWrite(m0, nor.Flash(), log, wanted, sha);
    }
    if meta.sequence != 0 {
      StampedSucceeds(m0, wanted);
    }
    if ok {
      info.metadataSequence := meta.sequence;
      info.confirmed := true;
    }
  }

  /** A trial that is due another attempt. */
  predicate TrialDue(mem: seq<byte>, m: Meta)
    requires |mem| == NOR_BYTES
  {
    && m.trialSlot <= 1 && m.trialAttempts < MAX_TRIAL_ATTEMPTS
    && ImageValidate(mem, m.trialSlot) && HeaderAt(mem, m.trialSlot).generation == m.trialGeneration
  }

  /** Retiring or counting a trial does not change which images must be there. */
  lemma StillPresent(mem: seq<byte>, m: Meta, r: Meta, sha: Hash)
    requires |mem| == NOR_BYTES && ImagesPresent(mem, m, sha)
    requires Attempts(m, r) || Retires(m, r)
    ensures ImagesPresent(mem, r, sha)
  {
    hide Verified;
  }

  lemma ReadValidSlots(mem: seq<byte>)
    requires |mem| == NOR_BYTES && MetaRead(mem).Some?
    ensures var m := MetaRead(mem).value;
            && m.magic == META_MAGIC && m.format == 1
            && (m.confirmedSlot <= 1 || m.confirmedSlot == SLOT_NONE) && (m.trialSlot <= 1 || m.trialSlot == SLOT_NONE)
  {
    ReadValid(mem);
  }

  /** A metadata write that counts or retires the trial keeps a safe board safe. */
  lemma AfterLegalWrite(before: seq<byte>, after: seq<byte>, log: seq<Meta>, m: Meta, sha: Hash)
    requires |before| == |after| == NOR_BYTES
    requires SameOutside(before, after, META0_OFFSET, META1_OFFSET + SECTOR)
    requires BanksAdjacent(before) ==> BanksAdjacent(after)
    requires MetaRead(before).Some? && (Attempts(MetaRead(before).value, m) || Retires(MetaRead(before).value, m))
    requires var r := Stamped(before, m);
             MetaRead(after) == MetaRead(before) || (MetaValid(r) && MetaRead(after) == Some(r))
    ensures Safe(before, log, sha) ==> Safe(after, Witness(log, after), sha)
  {
    hide MetaRead, Stamped, SameOutside, BanksAdjacent, History, Attempts, Retires, ImagesPresent, MetaValid;
    if Safe(before, log, sha) {
      StillPresent(before, MetaRead(before).value, m, sha);
      SafeAfterLegalWrite(before, after, log, m, sha);
    }
  }

  /** Writes a record that counts or retires the trial in force. */
  method WriteTrial(nor: Nor, m: Meta, ghost sha: Hash) returns (ok: bool, r: Meta)
    requires nor.Valid() && MetaRead(nor.Flash()).Some? && m.magic == META_MAGIC && m.format == 1
    requires Attempts(MetaRead(nor.Flash()).value, m) || Retires(MetaRead(nor.Flash()).value, m)
    modifies nor.mem, nor`powered, nor`committed, nor`twice
    ensures nor.Valid() && nor.twice == old(nor.twice) && old(nor.committed) <= nor.committed
    ensures SameOutside(old(nor.Flash()), nor.Flash(), META0_OFFSET, META1_OFFSET + SECTOR)
    ensures BanksAdjacent(old(nor.Flash())) ==> BanksAdjacent(nor.Flash())
    ensures Safe(old(nor.Flash()), old(nor.committed), sha) ==> Safe(nor.Flash(), nor.committed, sha)
    ensures Content(r) == Content(m) && r.magic == META_MAGIC && r.format == 1
    ensures MetaRead(nor.Flash()) == MetaRead(old(nor.Flash())) || MetaRead(nor.Flash()) == Some(r)
    ensures ok ==> MetaRead(nor.Flash()) == Some(r) && r.sequence == MetaRead(old(nor.Flash())).value.sequence + 1
    ensures Attempts(MetaRead(old(nor.Flash())).value, m) ==> Attempts(MetaRead(old(nor.Flash())).value, r)
    ensures ok ==> nor.committed == old(nor.committed) + [r]
    ensures old(NextSequence(nor.Flash()) != 0 && nor.powered && nor.reliable) ==> ok && nor.powered
  {
    hide MetaRead, Stamped, SameOutside, BanksAdjacent, History, NextSequence, MetaBody, ImagesPresent;
    ghost var m0, log := nor.Flash(), nor.committed;
    ReadValidSlots(m0);
    StampedContent(m0, m);
    StampedValid(m0, m);
    ok, r := MetaWrite(nor, m);
    AfterLegalWrite(m0, nor.Flash(), log, m, sha);
    if r.sequence != 0 {
      StampedSucceeds(m0, m);
    }
  }

  /** The two records agree on everything but the number of attempts. */
  predicate SameButAttempts(a: Meta, b: Meta)
  {
    Content(a.(trialAttempts := 0)) == Content(b.(trialAttempts := 0))
  }

  /** The record that gives the trial up and remembers its generation. */
  function Retired(m: Meta): Meta
  {
    WithoutTrial(m.(reserved0 := Max(m.trialGeneration, m.reserved0)))
  }

  /** The second part of `g100_select_application`: the trial is given up. */
  method RetireTrial(nor: Nor, info: BootInfo, m: Meta, ghost sha: Hash) returns (r: Meta)
    requires nor.Valid() && MetaRead(nor.Flash()).Some? && m.trialSlot <= 1 && m.magic == META_MAGIC && m.format == 1
    requires SameButAttempts(MetaRead(nor.Flash()).value, m)
    modifies nor.mem, nor`powered, nor`committed, nor`twice, info`metadataSequence, info`fallback, info`degraded
    ensures nor.Valid() && nor.twice == old(nor.twice) && old(nor.committed) <= nor.committed
    ensures SameOutside(old(nor.Flash()), nor.Flash(), META0_OFFSET, META1_OFFSET + SECTOR)
    ensures Safe(old(nor.Flash()), old(nor.committed), sha) ==> Safe(nor.Flash(), nor.committed, sha)
    ensures Content(r) == Content(Retired(m))
    ensures MetaRead(nor.Flash()) == MetaRead(old(nor.Flash())) || MetaRead(nor.Flash()) == Some(r)
    ensures old(NextSequence(nor.Flash()) != 0 && nor.powered && nor.reliable) ==> MetaRead(nor.Flash()) == Some(r)
    ensures r.confirmedSlot == m.confirmedSlot && r.confirmedGeneration == m.confirmedGeneration
    ensures MetaRead(nor.Flash()).Some? && MetaRead(nor.Flash()).value.confirmedSlot == m.confirmedSlot
    ensures MetaRead(nor.Flash()).value.confirmedGeneration == m.confirmedGeneration
  {
    hide MetaRead, SameOutside, BanksAdjacent, Safe, NextSequence, Retires, Attempts, Content, Current;
    r := m;
    if r.trialGeneration > r.reserved0 {
      r := r.(reserved0 := r.trialGeneration);
    }
    r := r.(trialSlot := SLOT_NONE, trialGeneration := 0, trialAttempts := 0);
    assert r == Retired(m);
    ContentKept(MetaRead(nor.Flash()).value, m);
    RetireLegal(MetaRead(nor.Flash()).value, m, r);
    var ok;
    ok, r := WriteTrial(nor, r, sha);
    if !ok {
      info.degraded := true;
    }
    ContentSlots(r, Retired(m));
    info.metadataSequence := r.sequence;
    info.fallback := true;
  }

  lemma ContentKept(a: Meta, b: Meta)
    requires SameButAttempts(a, b)
    ensures a.confirmedSlot == b.confirmedSlot && a.confirmedGeneration == b.confirmedGeneration
              && a.trialSlot == b.trialSlot
  {
  }

  lemma ContentSlots(a: Meta, b: Meta)
    requires Content(a) == Content(b)
    ensures a.confirmedSlot == b.confirmedSlot && a.confirmedGeneration == b.confirmedGeneration
    ensures a.trialSlot == b.trialSlot && HighWater(a) == HighWater(b)
  {
  }

  /** The slot holds a valid image of this generation. */
  predicate Holds(mem: seq<byte>, slot: u32, generation: u32)
    requires |mem| == NOR_BYTES
  {
    slot <= SLOT_FACTORY && ImageValidate(mem, slot) && HeaderAt(mem, slot).generation == generation
  }

  /** One more attempt of the trial of this generation has been committed. */
  predicate AttemptCommitted(log: seq<Meta>, log': seq<Meta>, generation: u32)
  {
    && log != [] && |log'| == |log| + 1 && log <= log'
    && Attempts(log[|log| - 1], log'[|log|]) && log'[|log|].trialGeneration == generation
  }

  /**
   * `g100_select_application`. A due trial is handed out only after the attempt has been committed; any
   * other trial is retired and the confirmed image is handed out. On a provisioned board there is always
   * something to hand out.
   */
  method SelectApplication(nor: Nor, info: BootInfo, ghost sha: Hash) returns (slot: u32, image: Option<Header>)
    requires nor.Valid() && !info.trial
    modifies nor.mem, nor`powered, nor`committed, nor`twice, info`metadataSequence, info`trial, info`fallback,
      info`degraded
    ensures nor.Valid() && nor.twice == old(nor.twice) && old(nor.committed) <= nor.committed
    ensures SameOutside(old(nor.Flash()), nor.Flash(), META0_OFFSET, META1_OFFSET + SECTOR)
    ensures slot == SLOT_NONE || slot <= 1
    ensures slot <= 1 ==> image == Some(HeaderAt(nor.Flash(), slot)) && Holds(nor.Flash(), slot, image.value.generation)
    ensures Safe(old(nor.Flash()), old(nor.committed), sha) ==> Safe(nor.Flash(), nor.committed, sha) && slot <= 1
    ensures info.trial ==> MetaRead(nor.Flash()).Some? && slot == MetaRead(nor.Flash()).value.trialSlot && slot <= 1
    ensures info.trial ==> image.Some? && AttemptCommitted(old(nor.committed), nor.committed, image.value.generation)
    ensures !info.trial && slot <= 1 ==>
              MetaRead(old(nor.Flash())).Some? && slot == MetaRead(old(nor.Flash())).value.confirmedSlot
              && HeaderAt(nor.Flash(), slot).generation == MetaRead(old(nor.Flash())).value.confirmedGeneration
    ensures MetaRead(old(nor.Flash())).Some? && !TrialDue(old(nor.Flash()), MetaRead(old(nor.Flash())).value)
        ==> !info.trial
    ensures old(MetaRead(nor.Flash()).Some? && TrialDue(nor.Flash(), MetaRead(nor.Flash()).value)
                && NextSequence(nor.Flash()) != 0 && nor.powered && nor.reliable)
        ==> info.trial
  {
    hide MetaRead, ImageValidate, HeaderAt, SameOutside, BanksAdjacent, Safe, NextSequence, MetaValid, Retires,
      Attempts;
    ghost var m0 := nor.Flash();
    NothingChanged(m0);
    image := None;
    var now := MetaRead(nor.mem[..]);
    if now.None? {
      NeverUnreadable(m0, nor.committed, sha);
      return SLOT_NONE, image;
    }
    var meta := now.value;
    ReadValidSlots(m0);
    info.metadataSequence := meta.sequence;
    if meta.trialSlot <= 1 && meta.trialAttempts < MAX_TRIAL_ATTEMPTS && ImageValidate(nor.mem[..], meta.trialSlot)
      && HeaderAt(nor.mem[..], meta.trialSlot).generation == meta.trialGeneration {
      image := Some(HeaderAt(nor.mem[..], meta.trialSlot));
      var ok;
      CountLegal(meta);
      ok, meta := WriteTrial(nor, meta.(trialAttempts := meta.trialAttempts + 1), sha);
      SlotKept(m0, nor.Flash(), META0_OFFSET, META1_OFFSET + SECTOR, now.value.trialSlot);
      if ok {
        info.trial := true;
        info.metadataSequence := meta.sequence;
        return meta.trialSlot, image;
      }
      info.degraded := true;
    }
    if meta.trialSlot != SLOT_NONE {
      ghost var m1 := nor.Flash();
      meta := RetireTrial(nor, info, meta, sha);
      SameOutsideTrans(m0, m1, nor.Flash(), META0_OFFSET, META1_OFFSET + SECTOR, META0_OFFSET, META1_OFFSET + SECTOR);
    }
    ConfirmedBoots(nor.Flash(), nor.committed, sha);
    if meta.confirmedSlot <= 1 && ImageValidate(nor.mem[..], meta.confirmedSlot) {
      image := Some(HeaderAt(nor.mem[..], meta.confirmedSlot));
      if image.value.generation == meta.confirmedGeneration {
        return meta.confirmedSlot, image;
      }
    }
    return SLOT_NONE, image;
  }

  /** Clearing the trial of a record that differs from the one in force only in its attempts retires it. */
  lemma RetireLegal(now: Meta, before: Meta, m: Meta)
    requires now.trialSlot <= 1
    requires SameButAttempts(now, before)
    requires Content(m) == Content(Retired(before))
    ensures Retires(now, m)
  {
  }

  lemma CountLegal(now: Meta)
    requires now.trialSlot <= 1 && now.trialAttempts < MAX_TRIAL_ATTEMPTS
    ensures Attempts(now, now.(trialAttempts := now.trialAttempts + 1))
  {
  }

  lemma NeverUnreadable(mem: seq<byte>, log: seq<Meta>, sha: Hash)
    requires |mem| == NOR_BYTES
    ensures Safe(mem, log, sha) ==> MetaRead(mem).Some?
  {
  }

  /** The confirmed image of a safe board boots. */
  lemma ConfirmedBoots(mem: seq<byte>, log: seq<Meta>, sha: Hash)
    requires |mem| == NOR_BYTES
    ensures Safe(mem, log, sha) ==>
              var m := MetaRead(mem);
              && m.Some? && m.value.confirmedSlot <= 1 && ImageValidate(mem, m.value.confirmedSlot)
              && HeaderAt(mem, m.value.confirmedSlot).generation == m.value.confirmedGeneration
  {
    hide MetaRead, ImageValidate, HeaderAt;
  }
}
