/**
 * The whole board over any run: requests, timer ticks, resets and power cuts, in any order and with any
 * flash fault (bootloader/main.c together with the services).
 */
module Board {
  import opened Bytes
  import opened BootFormat
  import opened BoardMemory
  import opened BootState
  import opened BootSafety
  import opened BootPolicy
  import opened OtaAuth
  import opened OtaUpdate
  import opened ConfigFormat
  import opened ConfigStore

  // ---------------------------------------------------------------- trial hand-offs

  /** Each hand-off of a trial follows its own committed attempt, at the recorded place in the history. */
  predicate HandoffsRecorded(log: seq<Meta>, handoffs: seq<nat>)
  {
    && (forall i :: 0 <= i < |handoffs| ==> 0 < handoffs[i] < |log| && Attempts(log[handoffs[i] - 1], log[handoffs[i]]))
    && (forall i, j :: 0 <= i < j < |handoffs| ==> handoffs[i] < handoffs[j])
  }

  /** How often a trial image of generation `g` has been given control. */
  function HandoffsOf(log: seq<Meta>, handoffs: seq<nat>, g: u32): nat
    requires HandoffsRecorded(log, handoffs)
  {
    if handoffs == [] then 0 else
    var last := |handoffs| - 1;
    HandoffsOf(log, handoffs[..last], g) + if log[handoffs[last]].trialGeneration == g then 1 else 0
  }

  lemma {:induction false} HandoffsPrefix(log: seq<Meta>, handoffs: seq<nat>, g: u32)
    requires |log| > 0 && HandoffsRecorded(log, handoffs)
    requires forall i :: 0 <= i < |handoffs| ==> handoffs[i] < |log| - 1
    ensures HandoffsRecorded(log[..|log| - 1], handoffs)
    ensures HandoffsOf(log[..|log| - 1], handoffs, g) == HandoffsOf(log, handoffs, g)
  {
    var front := log[..|log| - 1];
    assert HandoffsRecorded(front, handoffs);
    if handoffs != [] {
      HandoffsPrefix(log, handoffs[..|handoffs| - 1], g);
    }
  }

  lemma {:induction false} HandoffsCounted(log: seq<Meta>, handoffs: seq<nat>, g: u32)
    requires log != [] && HandoffsRecorded(log, handoffs)
    ensures HandoffsOf(log, handoffs, g) <= TrialBoots(log, g)
    decreases |log|
  {
    if handoffs != [] {
      var last := |handoffs| - 1;
      var front := log[..|log| - 1];
      if handoffs[last] == |log| - 1 {
        HandoffsPrefix(log, handoffs[..last], g);
        HandoffsCounted(front, handoffs[..last], g);
      } else {
        HandoffsPrefix(log, handoffs, g);
        HandoffsCounted(front, handoffs, g);
      }
    }
  }

  /** A trial image gets control at most G100_MAX_TRIAL_ATTEMPTS times, whatever happens in between. */
  lemma TrialsBounded(log: seq<Meta>, handoffs: seq<nat>, g: u32)
    requires History(log) && HandoffsRecorded(log, handoffs)
    ensures HandoffsOf(log, handoffs, g) <= MAX_TRIAL_ATTEMPTS
  {
    HandoffsCounted(log, handoffs, g);
    BoundedTrials(log, g);
  }

  lemma HandoffRecorded(log: seq<Meta>, handoffs: seq<nat>, m: Meta, n: Meta)
    requires HandoffsRecorded(log, handoffs) && log != [] && log[|log| - 1] == m && Attempts(m, n)
    ensures HandoffsRecorded(log + [n], handoffs + [|log|])
  {
  }

  lemma HandoffsKept(log: seq<Meta>, log': seq<Meta>, handoffs: seq<nat>)
    requires HandoffsRecorded(log, handoffs) && log <= log'
    ensures HandoffsRecorded(log', handoffs)
  {
  }

  // ---------------------------------------------------------------- the board

  /** Slot selection in stage 0 (main.c): recovery first unless the application was requested. */
  method SelectImage(nor: Nor, i: BootInfo, sha: Hash, requested: bool) returns (selected: u32)
    requires nor.Valid() && !i.trial
    modifies nor.mem, nor`powered, nor`committed, nor`twice, i
    ensures nor.Valid() && nor.twice == old(nor.twice) && old(nor.committed) <= nor.committed
    ensures SameOutside(old(nor.Flash()), nor.Flash(), META0_OFFSET, META1_OFFSET + SECTOR)
    ensures Safe(old(nor.Flash()), old(nor.committed), sha) ==>
              Safe(nor.Flash(), nor.committed, sha) && selected != SLOT_NONE
    ensures selected != SLOT_NONE ==> i.selectedSlot == selected && Holds(nor.Flash(), selected, i.generation)
    ensures Safe(old(nor.Flash()), old(nor.committed), sha)
              && (requested || !old(ImageValidate(nor.Flash(), SLOT_FACTORY)))
        ==> selected <= 1
    ensures i.trial && selected != SLOT_NONE ==> AttemptCommitted(old(nor.committed), nor.committed, i.generation)
  {
    hide MetaRead, Safe, ImageValidate, HeaderAt, SameOutside, AttemptCommitted, TrialDue, NextSequence, SlotOffset;
    NothingChanged(nor.Flash());
    var image := None;
    selected := SLOT_NONE;
    if !requested && ImageValidate(nor.mem[..], SLOT_FACTORY) {
      selected, image, i.fallback := SLOT_FACTORY, Some(HeaderAt(nor.mem[..], SLOT_FACTORY)), true;
    }
    if selected == SLOT_NONE {
      selected, image := SelectApplication(nor, i, sha);
    }
    if selected == SLOT_NONE && ImageValidate(nor.mem[..], SLOT_FACTORY) {
      selected, image, i.fallback := SLOT_FACTORY, Some(HeaderAt(nor.mem[..], SLOT_FACTORY)), true;
    }
    if selected != SLOT_NONE {
      i.selectedSlot, i.generation := selected, image.value.generation;
    }
  }

  datatype Event =
    | Request(verb: string, path: string, body: seq<byte>, random: Option<Digest>)
    | Tick(backup: bool)
    | SaveSettings(settings: seq<byte>, instances: seq<byte>)
    | Cut

  /** The upload is untouched or no longer in progress. */
  predicate Undisturbed(u: Upload, accepted: seq<byte>, u': Upload, accepted': seq<byte>)
  {
    (u' == u && accepted' == accepted) || !InProgress(u')
  }

  /** A response; the authenticator is the X-G100-MAC header. */
  datatype Response = Response(reply: Reply, mac: Option<Digest>)

  /** Whether the board carried out an authenticated request, and what it left. */
  datatype Trace = Untouched | Processed(upload: Upload, accepted: seq<byte>, reply: Reply, mem: seq<byte>)

  /** The request was routed, and left what the trace says. */
  predicate RequestRouted(verb: string, path: string, body: seq<byte>, u: Upload, accepted: seq<byte>, t: Trace)
    requires t.Processed?
  {
    && PREFIX <= path && verb == "POST" && |body| >= AUTH_BYTES
    && Routed(path[|PREFIX|..], body[AUTH_BYTES..], u, accepted, t.upload, t.accepted, t.reply)
  }

  /** An upload in progress is backed by the flash contents of the trace. */
  ghost predicate Snapshot(t: Trace, sha: Hash)
    requires t.Processed?
  {
    && |t.mem| == NOR_BYTES
    && (InProgress(t.upload) ==> exists running :: Uploading(t.mem, t.upload, running, t.accepted, sha))
  }

  lemma SnapshotTaken(t: Trace, running: u32, sha: Hash)
    requires t.Processed? && |t.mem| == NOR_BYTES
    requires InProgress(t.upload) ==> Uploading(t.mem, t.upload, running, t.accepted, sha)
    ensures Snapshot(t, sha)
  {
    hide Uploading;
  }

  predicate Announced(auth: Auth, s: Status)
    reads auth
  {
    s.authReady ==> auth.ready && s.nonce == auth.nonce && s.sequence == auth.sequence
  }

  class Board {
    const nor: Nor
    const sha: Hash
    const hmac: Hmac
    const uid: Uid
    const uidText: string
    var info: BootInfo
    var auth: Auth
    var ota: Ota
    /** Stage 0 has handed over to an image; otherwise it has stopped in its own recovery loop. */
    var running: bool
    var checked: bool
    ghost var handoffs: seq<nat>
    /** Boots that started nothing although power stayed on and the copy to SDRAM was faithful. */
    ghost var deadBoots: nat

    ghost predicate Valid()
      reads this, nor, nor.mem, info, auth, ota
    {
      && ota.nor == nor && ota.info == info && ota.auth == auth && ota.sha == sha
      && ota.Valid() && HandoffsRecorded(nor.committed, handoffs)
    }

    ghost predicate Provisioned()
      reads this, nor, nor.mem
      requires nor.Valid()
    {
      Safe(nor.Flash(), nor.committed, sha)
    }

    constructor (nor: Nor, sha: Hash, hmac: Hmac, uid: Uid, uidText: string)
      requires nor.Valid()
      ensures this.nor == nor && this.sha == sha && Valid() && !running && handoffs == [] && deadBoots == 0
      ensures fresh(info) && fresh(auth) && fresh(ota)
    {
      var i := new BootInfo();
      var a := new Auth(uid, hmac);
      var o := new Ota(nor, i, a, sha, uidText);
      this.nor, this.sha, this.hmac, this.uid, this.uidText := nor, sha, hmac, uid, uidText;
      info, auth, ota := i, a, o;
      running, checked, handoffs, deadBoots := false, false, [], 0;
    }

    /** A trial is handed over only after its attempt has been committed, and the hand-off is recorded there. */
    twostate predicate HandedOver()
      reads this, nor, info
    {
      if running && info.trial then
        AttemptCommitted(old(nor.committed), nor.committed, info.generation)
        && handoffs == old(handoffs) + [|nor.committed| - 1]
      else handoffs == old(handoffs)
    }

    /**
     * A reset: RAM is lost, and stage 0 selects and starts an image. `requested` says that the reset was
     * a software reset with the boot-application mark set, `copyOk` that the copy in SDRAM is faithful.
     */
    method Boot(requested: bool, copyOk: bool)
      requires Valid()
      modifies this, nor, nor.mem
      ensures Valid() && nor.twice == old(nor.twice) && old(nor.committed) <= nor.committed
      ensures fresh(info) && fresh(auth) && fresh(ota)
      ensures old(Provisioned()) ==> Provisioned() && deadBoots == old(deadBoots)
      ensures old(Provisioned()) && (requested || !old(ImageValidate(nor.Flash(), SLOT_FACTORY))) && running
          ==> info.selectedSlot <= 1
      ensures running ==> Holds(nor.Flash(), info.selectedSlot, info.generation)
      ensures OnlyRecords(old(nor.Flash()), nor.Flash()) && SettingsUntouched(old(nor.Flash()), nor.Flash())
      ensures !InProgress(ota.upload)
      ensures HandedOver()
    {
      hide MetaRead, Safe, ImageValidate, OnlyRecords, SameOutside, AttemptCommitted, HandoffsRecorded, Holds;
      nor.powered := true;
      ghost var log := nor.committed;
      var i := new BootInfo();
      ghost var m0 := nor.Flash();
      var selected := SelectImage(nor, i, sha, requested);
      OnlyRecordsBy(m0, nor.Flash(), META0_OFFSET, META1_OFFSET + SECTOR);
      SliceOutside(m0, nor.Flash(), META0_OFFSET, META1_OFFSET + SECTOR,
                   CONFIG0_OFFSET, CONFIG1_OFFSET + CONFIG_BANK_BYTES);
      HandOver(i, selected, copyOk, log);
      checked := false;
      Restart(i);
    }

    /** The end of stage 0: control passes to the selected image, if its copy can be trusted. */
    method HandOver(i: BootInfo, selected: u32, copyOk: bool, ghost log: seq<Meta>)
      requires HandoffsRecorded(log, handoffs) && log <= nor.committed
      requires i.trial && selected != SLOT_NONE ==> AttemptCommitted(log, nor.committed, i.generation)
      modifies this`running, this`handoffs, this`deadBoots
      ensures running == (selected != SLOT_NONE && copyOk && nor.powered)
      ensures HandoffsRecorded(nor.committed, handoffs)
      ensures running && i.trial ==> |nor.committed| == |log| + 1 && handoffs == old(handoffs) + [|log|]
      ensures !(running && i.trial) ==> handoffs == old(handoffs)
      ensures selected != SLOT_NONE ==> deadBoots == old(deadBoots)
    {
      HandoffsKept(log, nor.committed, handoffs);
      running := selected != SLOT_NONE && copyOk && nor.powered;
      if selected == SLOT_NONE && copyOk && nor.powered {
        deadBoots := deadBoots + 1;
      }
      if running && i.trial {
        assert nor.committed == log + [nor.committed[|log|]];
        HandoffRecorded(log, handoffs, log[|log| - 1], nor.committed[|log|]);
        handoffs := handoffs + [|log|];
      }
    }

    /** The services start with fresh RAM. */
    method Restart(i: BootInfo)
      requires nor.Valid() && HandoffsRecorded(nor.committed, handoffs)
      modifies this`info, this`auth, this`ota
      ensures Valid() && info == i && fresh(auth) && fresh(ota) && !InProgress(ota.upload)
    {
      hide MetaRead, HandoffsRecorded, Uploading;
      var a := new Auth(uid, hmac);
      var o := new Ota(nor, i, a, sha, uidText);
      info, auth, ota := i, a, o;
    }

    /** The services are the ones that were running, or run afresh after a reset. */
    twostate predicate SameOrRestarted()
      reads this
    {
      (info == old(info) || fresh(info)) && (auth == old(auth) || fresh(auth)) && (ota == old(ota) || fresh(ota))
    }

    /** Nobody with the key has done anything to the upload, the slots or the challenge. */
    twostate predicate LeftAlone()
      requires nor.mem.Length == NOR_BYTES
      reads this, nor, nor.mem, auth, ota
    {
      && Undisturbed(old(ota.upload), old(ota.accepted), ota.upload, ota.accepted)
      && OnlyRecords(old(nor.Flash()), nor.Flash())
      && (auth == old(auth) && old(auth.ready) ==>
            auth.ready && auth.nonce == old(auth.nonce) && auth.sequence == old(auth.sequence))
    }

    /** The board still is what the request left, apart from records and settings, or the upload is over. */
    ghost predicate Carried(t: Trace)
      requires nor.mem.Length == NOR_BYTES
      reads this, nor, nor.mem, ota
    {
      t.Processed? ==>
        && Snapshot(t, sha) && OnlyRecords(t.mem, nor.Flash())
        && Undisturbed(t.upload, t.accepted, ota.upload, ota.accepted)
    }

    /** Ticks, power cuts, saved settings, and requests that nobody with the key has made. */
    predicate Stranger(e: Event)
      requires nor.Valid()
      reads this, nor, nor.mem, auth
    {
      e.Request? ==> e.verb != "POST" || !auth.Authentic(nor.Flash(), e.path, e.body)
    }

    /** One event, and the reset it may lead to. The environment decides about faults and health. */
    method Step(e: Event, now: u32)
      requires Valid()
      modifies this, nor, nor.mem, info, auth, ota
      ensures Valid() && nor.twice == old(nor.twice) && old(nor.committed) <= nor.committed
      ensures SameOrRestarted()
      ensures old(Provisioned()) ==> Provisioned() && deadBoots == old(deadBoots)
      ensures old(handoffs) <= handoffs
      ensures Contained(old(nor.Flash()), nor.Flash(), old(info.selectedSlot), old(Provisioned()), e.SaveSettings?)
      ensures old(Stranger(e)) ==> LeftAlone()
    {
      hide MetaRead, Safe, HandoffsRecorded, Uploading, Current, Holds, AttemptCommitted, OnlyRecords, Contained;
      ghost var m0, before, safe := nor.Flash(), info.selectedSlot, Provisioned();
      nor.reliable := *;
      ota.healthy := *;
      var copyOk: bool := *;
      var action := Serve(e, now);
      ghost var m1 := nor.Flash();
      Settle(action, copyOk);
      ContainedThenRecords(m0, m1, nor.Flash(), before, safe, e.SaveSettings?);
      if OnlyRecords(m0, m1) {
        OnlyRecordsTrans(m0, m1, nor.Flash());
      }
    }

    /** The reset that was asked for, and the one that follows the loss of power. */
    method Settle(action: ResetAction, copyOk: bool)
      requires Valid()
      modifies this, nor, nor.mem
      ensures Valid() && nor.twice == old(nor.twice) && old(nor.committed) <= nor.committed && old(handoffs) <= handoffs
      ensures old(Provisioned()) ==> Provisioned() && deadBoots == old(deadBoots)
      ensures OnlyRecords(old(nor.Flash()), nor.Flash()) && SettingsUntouched(old(nor.Flash()), nor.Flash())
      ensures (ota == old(ota) && info == old(info) && auth == old(auth))
           || (fresh(ota) && fresh(info) && fresh(auth) && !InProgress(ota.upload))
    {
      hide MetaRead, Safe, HandoffsRecorded, Uploading, Holds, AttemptCommitted, OnlyRecords, InProgress;
      ghost var m0 := nor.Flash();
      NoRecordChanged(m0);
      if action != NoReset {
        Boot(action == ApplicationReset, copyOk);
      }
      ghost var m1 := nor.Flash();
      if !nor.powered {
        Boot(false, copyOk);
        OnlyRecordsTrans(m0, m1, nor.Flash());
      }
    }

    /** What the running services do with an event. */
    method Serve(e: Event, now: u32) returns (action: ResetAction)
      requires Valid()
      modifies this`checked, nor.mem, nor, info, auth, ota
      ensures Valid() && nor.twice == old(nor.twice) && old(nor.committed) <= nor.committed
      ensures old(Provisioned()) ==> Provisioned()
      ensures Contained(old(nor.Flash()), nor.Flash(), old(info.selectedSlot), old(Provisioned()), e.SaveSettings?)
      ensures old(Stranger(e)) ==> LeftAlone()
    {
      hide MetaRead, Safe, HandoffsRecorded, Uploading, Contained, OnlyRecords;
      ghost var log := nor.committed;
      NoRecordChanged(nor.Flash());
      NothingContained(nor.Flash(), info.selectedSlot, Provisioned(), e.SaveSettings?);
      action := NoReset;
      match e {
        case Request(verb, path, body, random) =>
          if running {
            var reply := ota.Handle(verb, path, body, now, random);
            HandoffsKept(log, nor.committed, handoffs);
          }
        case Tick(backup) =>
          if running {
            action, checked := ota.Process(now, backup, checked);
          }
        case SaveSettings(settings, instances) =>
          if running && 0 !in settings && 0 !in instances {
            StoreSettings(settings, instances);
          }
        case Cut =>
          action := SystemReset;
      }
    }

    /** The settings service saves its texts on the same flash. */
    method StoreSettings(settings: seq<byte>, instances: seq<byte>)
      requires Valid() && 0 !in settings && 0 !in instances
      modifies nor.mem, nor`powered, nor`committed, nor`twice
      ensures Valid() && nor.twice == old(nor.twice) && nor.committed == old(nor.committed)
      ensures old(Provisioned()) ==> Provisioned()
      ensures OnlyRecords(old(nor.Flash()), nor.Flash())
      ensures Contained(old(nor.Flash()), nor.Flash(), info.selectedSlot, old(Provisioned()), true)
    {
      hide MetaRead, Safe, HandoffsRecorded, Uploading, Contained, OnlyRecords, InBank, ConfigRead, SameOutside,
        Current;
      ghost var m0, log, safe := nor.Flash(), nor.committed, Provisioned();
      var ok;
      ghost var landed;
      ok, landed := Save(nor, settings, instances);
      BankWriteKeeps(m0, nor.Flash(), ConfigTarget(m0));
      OnlyRecordsBy(m0, nor.Flash(), CONFIG0_OFFSET, CONFIG1_OFFSET + CONFIG_BANK_BYTES);
      NothingContained(m0, info.selectedSlot, safe, true);
      ContainedThenRecords(m0, m0, nor.Flash(), info.selectedSlot, safe, true);
      if safe {
        ConfigKeepsSafe(m0, nor.Flash(), log, sha);
      }
      if ota.Active() {
        RecordWriteKeepsUpload(m0, nor.Flash(), ota.upload, info.selectedSlot, ota.accepted, sha);
      }
    }

    /** The running services answer one HTTP request (http_api.c signs replies to accepted POSTs). */
    method Answer(verb: string, path: string, body: seq<byte>, now: u32, random: Option<Digest>,
                  render: Reply -> seq<byte>)
      returns (r: Option<Response>, ghost t: Trace)
      requires Valid()
      modifies nor, nor.mem, info, auth, ota
      ensures Valid() && (old(Provisioned()) ==> Provisioned())
      ensures t.Untouched? ==>
                && ota.upload == old(ota.upload) && ota.accepted == old(ota.accepted) && nor.Flash() == old(nor.Flash())
                && (old(auth.ready) ==>
                      auth.ready && auth.nonce == old(auth.nonce) && auth.sequence == old(auth.sequence))
      ensures t.Processed? ==>
                && t.upload == ota.upload && t.accepted == ota.accepted && t.mem == nor.Flash()
                && RequestRouted(verb, path, body, old(ota.upload), old(ota.accepted), t)
                && auth.ready && auth.nonce == old(auth.nonce) && auth.sequence == old(auth.sequence) + 1
      ensures r.Some? && r.value.mac.Some? ==> t.Processed? && r.value.reply == t.reply
      ensures r.Some? && verb == "GET" && path == PREFIX + "status" ==>
                t.Untouched? && r.value.reply.StatusReply? && ota.Announces(r.value.reply.status)
    {
      hide MetaRead, Safe, HandoffsRecorded, Uploading, Routed, Provision, Current;
      r, t := None, Untouched;
      ghost var log := nor.committed;
      var reply := ota.Handle(verb, path, body, now, random);
      HandoffsKept(log, nor.committed, handoffs);
      if reply.Some? {
        var mac := None;
        if verb == "POST" {
          mac := auth.Response(nor.mem[..], render(reply.value));
        }
        r := Some(Response(reply.value, mac));
        if verb == "POST" && old(auth.Authentic(nor.Flash(), path, body)) {
          t := Processed(ota.upload, ota.accepted, reply.value, nor.Flash());
        }
      }
    }

    /** One HTTP exchange. No response comes back when the board is off or loses power over it. */
    method Exchange(verb: string, path: string, body: seq<byte>, now: u32, random: Option<Digest>,
                    render: Reply -> seq<byte>)
      returns (r: Option<Response>, ghost t: Trace)
      requires Valid()
      modifies this, nor, nor.mem, info, auth, ota
      ensures Valid() && (old(Provisioned()) ==> Provisioned())
      ensures (ota == old(ota) && info == old(info) && auth == old(auth)) || (fresh(ota) && fresh(info) && fresh(auth))
      ensures r.Some? ==> auth == old(auth)
      ensures t.Untouched? ==> LeftAlone()
      ensures t.Processed? ==>
                && RequestRouted(verb, path, body, old(ota.upload), old(ota.accepted), t)
                && Carried(t)
                && (auth == old(auth) ==>
                      auth.ready && auth.nonce == old(auth.nonce) && auth.sequence == old(auth.sequence) + 1)
      ensures r.Some? && r.value.mac.Some? ==> t.Processed? && r.value.reply == t.reply
      ensures r.Some? && verb == "GET" && path == PREFIX + "status" ==>
                t.Untouched? && r.value.reply.StatusReply? && Announced(auth, r.value.reply.status)
    {
      hide MetaRead, Safe, HandoffsRecorded, Uploading, OnlyRecords, RequestRouted;
      r, t := None, Untouched;
      NoRecordChanged(nor.Flash());
      if !running {
        return;
      }
      r, t := Answer(verb, path, body, now, random, render);
      NoRecordChanged(nor.Flash());
      if t.Processed? {
        SnapshotTaken(t, ota.info.selectedSlot, sha);
      }
      if !nor.powered {
        var copyOk: bool := *;
        Settle(NoReset, copyOk);
        r := None;
      }
    }

    /**
     * Any run. A provisioned board stays provisioned and never fails to start an image, no byte of flash
     * is programmed twice between erases, every trial hand-off stays recorded in the history, and stage 0,
     * the factory image and the provisioned key are never written, nor are the settings unless they are saved.
     */
    method Run(events: seq<(Event, u32)>)
      requires Valid()
      modifies this, nor, nor.mem, info, auth, ota
      ensures Valid() && nor.twice == old(nor.twice) && old(nor.committed) <= nor.committed
      ensures old(Provisioned()) ==> Provisioned() && deadBoots == old(deadBoots)
      ensures old(Provisioned()) ==> forall g: u32 :: HandoffsOf(nor.committed, handoffs, g) <= MAX_TRIAL_ATTEMPTS
      ensures old(handoffs) <= handoffs
      ensures Protected(old(nor.Flash()), nor.Flash())
      ensures (forall k :: 0 <= k < |events| ==> !events[k].0.SaveSettings?) ==>
                nor.Flash()[..META0_OFFSET] == old(nor.Flash())[..META0_OFFSET]
    {
      hide MetaRead, HandoffsRecorded, Uploading, Protected, SlotUntouched;
      ghost var m0 := nor.Flash();
      NothingContained(m0, info.selectedSlot, Provisioned(), false);
      for k := 0 to |events|
        invariant Valid() && nor.twice == old(nor.twice) && old(nor.committed) <= nor.committed
        invariant SameOrRestarted()
        invariant old(Provisioned()) ==> Provisioned() && deadBoots == old(deadBoots)
        invariant old(handoffs) <= handoffs
        invariant Protected(m0, nor.Flash())
        invariant (forall i :: 0 <= i < k ==> !events[i].0.SaveSettings?) ==> SettingsUntouched(m0, nor.Flash())
      {
        ghost var m1 := nor.Flash();
        Step(events[k].0, events[k].1);
        ProtectedTrans(m0, m1, nor.Flash());
      }
      if SettingsUntouched(m0, nor.Flash()) {
        BelowRecords(m0, nor.Flash());
      }
      if old(Provisioned()) {
        forall g: u32
          ensures HandoffsOf(nor.committed, handoffs, g) <= MAX_TRIAL_ATTEMPTS
        {
          TrialsBounded(nor.committed, handoffs, g);
        }
      }
    }
  }
}
