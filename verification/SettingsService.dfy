/** The settings candidate, apply, confirm and rollback machine (rj_api.c), on top of the settings store. */
module SettingsService {
  import opened Arithmetic
  import opened Bytes
  import opened BootFormat
  import opened ConfigFormat
  import opened BoardMemory
  import opened BootState
  import opened ConfigStore
  import opened Text

  const APPLY_DELAY_MS := 2000
  const CONFIRM_WINDOW_MS := 60000
  const CANDIDATE_LIFE_MS := 900000

  function CandidateEtag(revision: u32): (tag: string)
    ensures tag != ""
  {
    "\"candidate-" + Decimal(revision) + "\""
  }

  function OperationId(bootId: string, revision: u32): string
  {
    "settings-" + (if |bootId| > 12 then bootId[..12] else bootId) + "-" + Decimal(revision)
  }

  /** Texts come from C strings: no NUL inside. */
  predicate IsText(s: seq<byte>)
  {
    0 !in s
  }

  /** The store is empty or holds the pair. */
  ghost predicate StoreAgrees(mem: seq<byte>, settings: seq<byte>, instances: seq<byte>)
    requires |mem| == NOR_BYTES
  {
    ConfigRead(mem).None? || Stored(mem, settings, instances)
  }

  /** The pair that goes live at a start: the one stored, or the defaults of the device. */
  ghost function Live(mem: seq<byte>, defaults: seq<byte>): (seq<byte>, seq<byte>)
    requires |mem| == NOR_BYTES
  {
    var now := ConfigRead(mem);
    if now.Some? then (now.value.settings, now.value.instances) else (defaults, BRACKETS)
  }

  /** A record in force is within bounds and numbered. */
  lemma ReadStorable(mem: seq<byte>)
    requires |mem| == NOR_BYTES && ConfigRead(mem).Some?
    ensures Storable(ConfigRead(mem).value.settings, ConfigRead(mem).value.instances)
              && ConfigRead(mem).value.sequence != 0
    ensures IsText(ConfigRead(mem).value.settings) && IsText(ConfigRead(mem).value.instances)
  {
    hide ConfigHeaderOf, ConfigBody, Later;
  }

  predicate Increasing(s: seq<nat>)
  {
    forall i, j :: 0 <= i < j < |s| ==> s[i] < s[j]
  }

  lemma AppendIncreasing(s: seq<nat>, x: nat)
    requires Increasing(s) && forall a :: a in s ==> a < x
    ensures Increasing(s + [x]) && x in s + [x] && forall a :: a in s + [x] ==> a <= x
  {
    assert (s + [x])[|s|] == x;
    forall i | 0 <= i < |s| ensures s[i] < x {
      assert s[i] in s;
    }
  }

  /** Bodies that have the expected fields and no others; a missing or mistyped field is `None`. */
  datatype CandidateBody = CandidateBody(baseRevision: Option<int>, settings: Option<seq<byte>>)
  datatype InstancesBody = InstancesBody(baseRevision: Option<int>, instances: Option<seq<byte>>)
  datatype ApplyBody = ApplyBody(candidateId: Option<string>, revision: Option<int>, timeout: Option<int>)
  datatype ConfirmBody = ConfirmBody(operationId: Option<string>, candidateId: Option<string>)

  class Service {
    const nor: Nor
    const bootId: string
    /** `settings_valid` and `validate_instances` */
    const settingsValid: seq<byte> -> bool
    const instancesValid: seq<byte> -> bool
    const defaults: seq<byte>

    var settings: seq<byte>
    var candidate: seq<byte>
    var instances: seq<byte>
    var settingsRevision: u32
    var candidateRevision: u32
    var instancesRevision: u32
    var candidateAt: u32
    var applyAt: u32
    var candidateValid: bool
    var pending: nat
    var operationId: string
    var operationState: string
    var applyKey: string
    var applyRevision: u32
    /** The settings that the network runs with. */
    var network: seq<byte>

    /** How many candidates have been put, and which of them have been applied, oldest first. */
    ghost var puts: nat
    ghost var applied: seq<nat>
    /** The commit word of a save that reported failure landed, for a pair that is not the one in use. */
    ghost var unreported: bool

    ghost predicate Valid()
      reads this, nor, nor.mem
    {
      Consistent() && (unreported <==> !StoreAgrees(nor.Flash(), settings, instances))
    }

    /** What holds whatever the store does. */
    ghost predicate Consistent()
      reads this, nor, nor.mem
    {
      && nor.Valid() && !settingsValid([]) && IsText(defaults) && pending <= 2
      && IsText(settings) && IsText(candidate) && IsText(instances)
      && (candidate != [] ==> settingsValid(candidate)) && (candidateValid ==> candidate != [])
      && (pending != 0 ==> candidateValid && applyRevision == candidateRevision)
      && network == (if pending == 2 then candidate else settings)
      && (pending == 1 <==> operationState == "queued") && (pending == 2 <==> operationState == "awaiting_confirmation")
      && candidateRevision == puts % TWO32
      && Increasing(applied) && (forall a :: a in applied ==> a <= puts)
      && (candidate != [] && pending != 2 ==> forall a :: a in applied ==> a < puts)
      && (pending == 2 ==> puts in applied)
    }

    /** `rj_api_init`, with the defaults of this device. */
    constructor (nor: Nor, bootId: string, settingsValid: seq<byte> -> bool, instancesValid: seq<byte> -> bool,
                 defaults: seq<byte>)
      requires nor.Valid() && IsText(defaults) && !settingsValid([])
      ensures Valid() && this.nor == nor && pending == 0 && candidate == [] && network == settings && !unreported
      ensures this.settingsValid == settingsValid && this.instancesValid == instancesValid && this.defaults == defaults
      ensures applied == [] && (settings, instances) == Live(nor.Flash(), defaults)
    {
      hide ConfigRead, Stored, Current, ConfigRecord, ConfigLatest, BankRecord, Elapsed, Decimal, CandidateEtag,
        OperationId;
      var saved := Load(nor.mem[..], SETTINGS_MAX, Some(INSTANCES_MAX));
      if ConfigRead(nor.mem[..]).Some? {
        ReadStorable(nor.mem[..]);
      }
      StoredRead(nor.mem[..]);
      this.nor, this.bootId, this.settingsValid, this.instancesValid := nor, bootId, settingsValid, instancesValid;
      this.defaults := defaults;
      settings := if saved.Some? then saved.value.0 else defaults;
      instances := if saved.Some? then saved.value.1 else BRACKETS;
      network := if saved.Some? then saved.value.0 else defaults;
      var revision: u32 := if saved.Some? then ConfigRead(nor.mem[..]).value.sequence else 0;
      settingsRevision, instancesRevision, candidateRevision := revision, revision, 0;
      candidate, candidateValid, pending, candidateAt, applyAt := [], false, 0, 0, 0;
      operationId, operationState, applyKey, applyRevision := "", "", "", 0;
      puts, applied, unreported := 0, [], false;
    }

    /** `rj_api_process` */
    method Process(now: u32)
      requires Valid()
      modifies this
      ensures Valid() && settings == old(settings) && instances == old(instances) && puts == old(puts)
      ensures candidate == old(candidate) || (candidate == [] && pending == 0 && !candidateValid)
      ensures old(pending) == 1 ==>
                if Elapsed(now, old(applyAt)) >= APPLY_DELAY_MS
                then pending == 2 && network == candidate == old(candidate) && applyAt == now
                    && applied == old(applied) + [puts]
                else pending == 1 && network == settings && applyAt == old(applyAt)
      ensures old(pending) == 2 ==>
                if Elapsed(now, old(applyAt)) >= CONFIRM_WINDOW_MS
                then pending == 0 && network == settings && candidate == [] && operationState == "rolled_back"
                else pending == 2 && network == candidate == old(candidate) && applyAt == old(applyAt)
      ensures old(pending) == 0 ==> pending == 0 && network == settings
      ensures (applied == old(applied) || (old(pending) == 1 && applied == old(applied) + [puts]))
                && unreported == old(unreported)
      ensures old(pending) == 0 && old(candidate) != [] ==>
                (candidate == [] <==> Elapsed(now, old(candidateAt)) >= CANDIDATE_LIFE_MS)
    {
      hide Current, Increasing, StoreAgrees, ConfigRead, Stored, Elapsed, Decimal, CandidateEtag, InBank, Accepted;
      if pending == 1 && Elapsed(now, applyAt) >= APPLY_DELAY_MS {
        AppendIncreasing(applied, puts);
        TakeEffect(now);
      } else if pending == 2 && Elapsed(now, applyAt) >= CONFIRM_WINDOW_MS {
        RollBack();
      }
      if candidate != [] && pending == 0 && Elapsed(now, candidateAt) >= CANDIDATE_LIFE_MS {
        candidate := [];
        candidateValid := false;
      }
    }

    /** The candidate takes effect, to be confirmed within the window. */
    method TakeEffect(now: u32)
      modifies this`network, this`pending, this`applyAt, this`operationState, this`applied
      ensures network == candidate && pending == 2 && applyAt == now && operationState == "awaiting_confirmation"
      ensures applied == old(applied) + [puts]
    {
      network, pending, applyAt, operationState := candidate, 2, now, "awaiting_confirmation";
      applied := applied + [puts];
    }

    /** The candidate was not confirmed in time. */
    method RollBack()
      modifies this`network, this`pending, this`candidate, this`candidateValid, this`operationState
      ensures network == settings && pending == 0 && candidate == [] && !candidateValid
                && operationState == "rolled_back"
    {
      network, pending, candidate, candidateValid, operationState := settings, 0, [], false, "rolled_back";
    }

    /** What no call but an applied change's end may touch while a change is pending. */
    twostate predicate Untouched()
      reads this
    {
      && settings == old(settings) && candidate == old(candidate) && candidateRevision == old(candidateRevision)
      && candidateValid == old(candidateValid) && candidateAt == old(candidateAt) && network == old(network)
      && pending == old(pending) && operationState == old(operationState) && puts == old(puts)
            && applied == old(applied)
    }

    /** Why a candidate is not taken, if the checks find a reason. */
    function PutRefusal(ifMatch: string, ifNoneMatch: string, body: Option<CandidateBody>): (r: Option<nat>)
      reads this
      ensures r.Some? ==> r.value in {409, 412, 422, 428}
    {
      if pending != 0 then Some(409)
      else if candidate != [] && ifMatch == "" then Some(428)
      else if candidate != [] && ifMatch != CandidateEtag(candidateRevision) then Some(412)
      else if candidate == [] && ifNoneMatch != "*" then Some(428)
      else if body.None? || body.value.baseRevision != Some(settingsRevision as int) then Some(409)
      else if body.value.settings.None? || |body.value.settings.value| >= SETTINGS_MAX
          || !settingsValid(body.value.settings.value)
      then Some(422)
      else None
    }

    /** Creating or replacing the candidate. */
    method PutCandidate(ifMatch: string, ifNoneMatch: string, body: Option<CandidateBody>, now: u32)
      returns (status: nat)
      requires Valid() && (body.Some? && body.value.settings.Some? ==> IsText(body.value.settings.value))
      modifies this
      ensures Valid() && settings == old(settings) && instances == old(instances) && network == old(network)
      ensures unreported == old(unreported) && applied == old(applied)
      ensures status !in {200, 201} ==> Untouched()
      ensures status in {200, 201} ==>
                && old(pending) == 0 && pending == 0 && body.Some? && body.value.settings == Some(candidate)
                      && !candidateValid
                && body.value.baseRevision == Some(settingsRevision as int) && settingsValid(candidate)
                      && puts == old(puts) + 1
                && candidateRevision == (old(candidateRevision) + 1) % TWO32 && candidateAt == now
                && (status == 201 <==> old(candidate) == [])
                && (if old(candidate) == [] then ifNoneMatch == "*"
                      else ifMatch == CandidateEtag(old(candidateRevision)))
    {
      hide Current, Increasing, StoreAgrees, ConfigRead, Stored, Elapsed, Decimal, CandidateEtag, InBank, Accepted,
        IsText;
      var refusal := PutRefusal(ifMatch, ifNoneMatch, body);
      if refusal.Some? {
        return refusal.value;
      }
      status := if candidate != [] then 200 else 201;
      Take(body.value.settings.value, now);
    }

    /** The text becomes the candidate, under the next revision. */
    method Take(text: seq<byte>, now: u32)
      modifies this`candidate, this`candidateRevision, this`candidateAt, this`candidateValid, this`puts
      ensures candidate == text && candidateRevision == (old(candidateRevision) + 1) % TWO32
      ensures candidateAt == now && !candidateValid && puts == old(puts) + 1
    {
      candidate, candidateRevision, candidateAt, candidateValid := text, (candidateRevision + 1) % TWO32, now, false;
      puts := puts + 1;
    }

    /** Withdrawing the candidate. */
    method DeleteCandidate(ifMatch: string) returns (status: nat)
      requires Valid()
      modifies this
      ensures Valid() && settings == old(settings) && instances == old(instances) && network == old(network)
      ensures applied == old(applied) && puts == old(puts) && pending == old(pending) && unreported == old(unreported)
      ensures status != 204 ==> Untouched()
      ensures status == 204 <==>
                old(pending) == 0 && old(candidate) != [] && ifMatch == CandidateEtag(candidateRevision)
      ensures status == 204 ==> candidate == [] && !candidateValid
    {
      hide Current, Increasing, StoreAgrees, ConfigRead, Stored, Elapsed, Decimal, CandidateEtag, InBank, Accepted;
      if pending != 0 {
        return 409;
      }
      if candidate != [] {
        if ifMatch == "" {
          return 428;
        }
        if ifMatch != CandidateEtag(candidateRevision) {
          return 412;
        }
      } else {
        return 404;
      }
      candidate := [];
      candidateValid := false;
      return 204;
    }

    /** Validating the candidate. */
    method ValidateCandidate(ifMatch: string) returns (status: nat)
      requires Valid()
      modifies this
      ensures Valid() && settings == old(settings) && instances == old(instances) && network == old(network)
      ensures applied == old(applied) && puts == old(puts) && pending == old(pending) && candidate == old(candidate)
      ensures unreported == old(unreported)
      ensures status == 200 <==> candidate != [] && ifMatch == CandidateEtag(candidateRevision)
      ensures candidateValid == if status == 200 then settingsValid(candidate) else old(candidateValid)
    {
      hide Current, Increasing, StoreAgrees, ConfigRead, Stored, Elapsed, Decimal, CandidateEtag, InBank, Accepted;
      if candidate == [] {
        return 404;
      }
      if ifMatch == "" {
        return 428;
      }
      if ifMatch != CandidateEtag(candidateRevision) {
        return 412;
      }
      candidateValid := settingsValid(candidate);
      return 200;
    }

    /** What `apply` answers without queueing anything, if its checks end it. */
    function ApplyAnswer(key: string, body: Option<ApplyBody>): Option<nat>
      reads this
    {
      if body.None? || body.value.candidateId != Some("settings-candidate") || body.value.timeout != Some(60) then
          Some(422)
      else if |key| < 16 || |key| > 64 then Some(400)
      else if applyKey != "" && applyKey == key then
        if body.value.revision != Some(applyRevision as int) then Some(409) else Some(202)
      else if body.value.revision != Some(candidateRevision as int) then Some(422)
      else if candidate == [] || !candidateValid then Some(422)
      else if pending != 0 then Some(409)
      else None
    }

    /** Asking for the candidate to be applied; a repeated key is answered without a second application. */
    method Apply(key: string, body: Option<ApplyBody>, now: u32) returns (status: nat)
      requires Valid()
      modifies this
      ensures Valid() && settings == old(settings) && instances == old(instances) && network == old(network)
      ensures candidate == old(candidate) && applied == old(applied) && puts == old(puts)
                && unreported == old(unreported)
      ensures status != 202 || (old(applyKey) != "" && key == old(applyKey)) ==> Untouched()
      ensures status == 202 && !(old(applyKey) != "" && key == old(applyKey)) ==>
                && old(pending) == 0 && pending == 1 && candidate != [] && candidateValid && applyAt == now
                      && applyKey == key
                && body.Some? && body.value.revision == Some(candidateRevision as int)
                      && applyRevision == candidateRevision
    {
      hide Current, Increasing, StoreAgrees, ConfigRead, Stored, Elapsed, Decimal, CandidateEtag, OperationId, InBank,
        Accepted, IsText;
      var answer := ApplyAnswer(key, body);
      if answer.Some? {
        return answer.value;
      }
      Queue(key, now);
      return 202;
    }

    /** The candidate will be applied when the delay is over. */
    method Queue(key: string, now: u32)
      modifies this`applyKey, this`applyRevision, this`applyAt, this`operationId, this`operationState, this`pending
      ensures applyKey == key && applyRevision == candidateRevision && applyAt == now
      ensures operationId == OperationId(bootId, candidateRevision) && operationState == "queued" && pending == 1
    {
      applyKey, applyRevision, applyAt := key, candidateRevision, now;
      operationId, operationState, pending := OperationId(bootId, candidateRevision), "queued", 1;
    }

    /** Confirming the applied change: it is stored, and only then becomes the settings. */
    method Confirm(body: Option<ConfirmBody>, reached: bool) returns (status: nat)
      requires Valid()
      modifies this, nor.mem, nor`powered, nor`committed, nor`twice
      ensures Valid() && instances == old(instances) && network == old(network)
      ensures applied == old(applied) && puts == old(puts)
      ensures status != 200 || old(operationState) == "succeeded" ==> Untouched()
      ensures status == 200 && old(operationState) != "succeeded" ==>
                && old(pending) == 2 && pending == 0 && reached
                && settings == old(candidate) == network && candidate == [] && operationState == "succeeded"
                && Stored(nor.Flash(), settings, instances) && !unreported
                && settingsRevision == (old(settingsRevision) + 1) % TWO32
      ensures status == 500 && unreported && !old(unreported) ==> Stored(nor.Flash(), candidate, instances)
      ensures nor.twice == old(nor.twice)
                && (old(nor.powered) && nor.reliable ==> nor.powered && (unreported ==> old(unreported)))
    {
      hide Current, Increasing, StoreAgrees, ConfigRead, Stored, Elapsed, Decimal, CandidateEtag, OperationId, InBank,
        Accepted;
      if body.None? || body.value.operationId != Some(operationId)
          || body.value.candidateId != Some("settings-candidate") {
        return 409;
      }
      if operationState == "succeeded" {
        return 200;
      }
      if pending != 2 {
        return 409;
      }
      if !reached {
        return 403;
      }
      var ok, _ := SaveTexts(candidate, instances);
      if !ok {
        return 500;
      }
      Adopt();
      return 200;
    }

    /** The stored candidate becomes the settings. */
    method Adopt()
      requires Consistent() && pending == 2 && !unreported && StoreAgrees(nor.Flash(), candidate, instances)
      modifies this`settings, this`candidate, this`candidateValid, this`settingsRevision, this`pending,
        this`operationState
      ensures Valid() && pending == 0 && settings == old(candidate) && candidate == [] && operationState == "succeeded"
      ensures settingsRevision == (old(settingsRevision) + 1) % TWO32
    {
      hide Current, Increasing, StoreAgrees, ConfigRead;
      KeepCandidate();
    }

    method KeepCandidate()
      modifies this`settings, this`candidate, this`candidateValid, this`settingsRevision, this`pending,
        this`operationState
      ensures settings == old(candidate) && candidate == [] && !candidateValid && pending == 0
                && operationState == "succeeded"
      ensures settingsRevision == (old(settingsRevision) + 1) % TWO32
    {
      settings, candidate, candidateValid, settingsRevision := candidate, [], false, (settingsRevision + 1) % TWO32;
      pending, operationState := 0, "succeeded";
    }

    /**
     * A save, and what it means for the store's agreement with the texts in use. After a failure they agree
     * exactly when they did before, unless the commit word landed; then exactly when the pair is the one in use.
     */
    method SaveTexts(s: seq<byte>, i: seq<byte>) returns (ok: bool, ghost landed: bool)
      requires nor.Valid() && IsText(s) && IsText(i) && (unreported <==> !StoreAgrees(nor.Flash(), settings, instances))
      modifies this`unreported, nor.mem, nor`powered, nor`committed, nor`twice
      ensures nor.Valid() && (ok ==> Stored(nor.Flash(), s, i) && StoreAgrees(nor.Flash(), s, i) && !unreported)
      ensures !ok ==> (unreported <==> !StoreAgrees(nor.Flash(), settings, instances))
      ensures !ok ==> (StoreAgrees(nor.Flash(), settings, instances) <==>
                if landed && Storable(s, i) then (s, i) == (settings, instances) else !old(unreported))
      ensures !ok && unreported && !old(unreported) ==> Stored(nor.Flash(), s, i)
      ensures nor.twice == old(nor.twice)
      ensures old(nor.powered) && nor.reliable ==> nor.powered && (unreported ==> old(unreported))
    {
      hide ConfigRead, InBank;
      ghost var m0 := nor.Flash();
      ok, landed := Save(nor, s, i);
      ghost var m1 := nor.Flash();
      if ConfigRead(m1).Some? {
        ReadStorable(m1);
      }
      unreported := !ok && if landed && Storable(s, i) then (s, i) != (settings, instances) else unreported;
    }

    /** Replacing the protocol instances. */
    method PutInstances(body: Option<InstancesBody>) returns (status: nat)
      requires Valid() && (body.Some? && body.value.instances.Some? ==> IsText(body.value.instances.value))
      modifies this, nor.mem, nor`powered, nor`committed, nor`twice
      ensures Valid() && Untouched()
      ensures status != 200 ==> instances == old(instances) && instancesRevision == old(instancesRevision)
      ensures status == 200 ==>
                && pending == 0 && body.Some? && body.value.instances == Some(instances) && instancesValid(instances)
                && body.value.baseRevision == Some(old(instancesRevision) as int)
                && instancesRevision == (old(instancesRevision) + 1) % TWO32
                && Stored(nor.Flash(), settings, instances) && !unreported
      ensures nor.twice == old(nor.twice)
                && (old(nor.powered) && nor.reliable ==> nor.powered && (unreported ==> old(unreported)))
    {
      hide Current, Increasing, StoreAgrees, ConfigRead, Stored, Elapsed, Decimal, CandidateEtag, InBank, Accepted;
      if body.None? {
        return 422;
      }
      if body.value.baseRevision != Some(instancesRevision as int) {
        return 409;
      }
      if body.value.instances.None? || !instancesValid(body.value.instances.value) {
        return 422;
      }
      if |body.value.instances.value| >= INSTANCES_MAX {
        return 413;
      }
      if pending != 0 {
        return 409;
      }
      var ok, _ := SaveTexts(settings, body.value.instances.value);
      if !ok {
        return 500;
      }
      instances := body.value.instances.value;
      instancesRevision := (instancesRevision + 1) % TWO32;
      return 200;
    }
  }

  /** What may reach the service: its clock and its requests; saves may meet any flash failure. */
  datatype Call =
    | Tick(now: u32)
    | Put(ifMatch: string, ifNoneMatch: string, candidate: Option<CandidateBody>, now: u32)
    | Delete(ifMatch: string)
    | Validate(ifMatch: string)
    | Apply(key: string, apply: Option<ApplyBody>, now: u32)
    | Confirm(confirm: Option<ConfirmBody>, reached: bool)
    | PutInstances(instances: Option<InstancesBody>)
    | Restart(bootId: string)

  /** The texts in a request body come from a C string. */
  predicate FromText(c: Call)
  {
    && (c.Put? && c.candidate.Some? && c.candidate.value.settings.Some? ==> IsText(c.candidate.value.settings.value))
    && (c.PutInstances? && c.instances.Some? && c.instances.value.instances.Some? ==>
          IsText(c.instances.value.instances.value))
  }

  /**
   * Any run, across restarts. The network runs with the settings or with the one validated candidate awaiting
   * confirmation, every candidate is applied at most once, and the store is empty or holds exactly the pair
   * in use, unless the last save to land was for another pair and reported failure.
   */
  method Run(s: Service, calls: seq<Call>) returns (t: Service)
    requires s.Valid() && forall k :: 0 <= k < |calls| ==> FromText(calls[k])
    modifies s, s.nor.mem, s.nor`powered, s.nor`committed, s.nor`twice
    ensures t.Valid() && t.nor == s.nor && s.nor.twice == old(s.nor.twice)
    ensures t.network == if t.pending == 2 then t.candidate else t.settings
    ensures t.pending == 2 ==> t.settingsValid(t.candidate)
    ensures Increasing(t.applied)
    ensures (forall k :: 0 <= k < |calls| ==> !calls[k].Restart?) ==> t == s && old(s.applied) <= t.applied
    ensures t.unreported <==> !StoreAgrees(t.nor.Flash(), t.settings, t.instances)
    ensures old(s.nor.powered) && s.nor.reliable && !old(s.unreported) ==> !t.unreported
  {
    hide Current, Increasing, StoreAgrees, ConfigRead, Stored, FromText, Live;
    t := s;
    for k := 0 to |calls|
      invariant t.Valid() && (t == s || fresh(t)) && t.nor == s.nor && s.nor.twice == old(s.nor.twice)
      invariant (forall i :: 0 <= i < k ==> !calls[i].Restart?) ==> t == s && old(s.applied) <= t.applied
      invariant old(s.nor.powered) && s.nor.reliable ==> s.nor.powered && (t.unreported ==> old(s.unreported))
    {
      t := Serve(t, calls[k]);
    }
  }

  method Serve(s: Service, c: Call) returns (t: Service)
    requires s.Valid() && FromText(c)
    modifies s, s.nor.mem, s.nor`powered, s.nor`committed, s.nor`twice
    ensures t.Valid() && t.nor == s.nor && s.nor.twice == old(s.nor.twice)
    ensures if c.Restart? then fresh(t) && (t.settings, t.instances) == Live(s.nor.Flash(), s.defaults)
            else t == s && old(s.applied) <= t.applied
    ensures old(s.nor.powered) && s.nor.reliable ==> s.nor.powered && (t.unreported ==> old(s.unreported))
  {
    hide Current, Increasing, StoreAgrees, ConfigRead, Stored, IsText, Live;
    t := s;
    match c
    case Tick(now) => s.Process(now);
    case Put(m, n, body, now) => var _ := s.PutCandidate(m, n, body, now);
    case Delete(m) => var _ := s.DeleteCandidate(m);
    case Validate(m) => var _ := s.ValidateCandidate(m);
    case Apply(key, body, now) => var _ := s.Apply(key, body, now);
    case Confirm(body, reached) => var _ := s.Confirm(body, reached);
    case PutInstances(body) => var _ := s.PutInstances(body);
    case Restart(bootId) =>
      s.nor.powered := true;
      t := new Service(s.nor, bootId, s.settingsValid, s.instancesValid, s.defaults);
  }

  /** A restart after a save, cut short or not: the new pair goes live exactly when its commit word landed. */
  method RestartAfterSave(s: Service, settings: seq<byte>, instances: seq<byte>, bootId: string)
    returns (t: Service, ghost landed: bool)
    requires s.Valid() && IsText(settings) && IsText(instances)
    modifies s, s.nor.mem, s.nor`powered, s.nor`committed, s.nor`twice
    ensures t.Valid() && !t.unreported && t.nor == s.nor
    ensures (t.settings, t.instances) ==
              if landed && Storable(settings, instances) then (settings, instances)
                  else Live(old(s.nor.Flash()), s.defaults)
  {
    hide Current, ConfigRead, InBank;
    var ok;
    ok, landed := Save(s.nor, settings, instances);
    s.nor.powered := true;
    t := new Service(s.nor, bootId, s.settingsValid, s.instancesValid, s.defaults);
  }

  /** A failed save whose commit word landed ends the agreement with any other pair in use. */
  lemma AgreementLost(s: seq<byte>, i: seq<byte>, settings: seq<byte>, instances: seq<byte>)
    requires Storable(s, i) && IsText(s) && IsText(i) && (settings, instances) != (s, i)
    ensures FitsBuffers(s, i)
    ensures ProgramOutcome(BeforeCommit(s, i), AfterCommit(s, i), CONFIG0_OFFSET, CommitWord(s, i), false, 4, false)
    ensures StoreAgrees(BeforeCommit(s, i), settings, instances) && !StoreAgrees(AfterCommit(s, i), settings, instances)
  {
    hide BeforeCommit, AfterCommit, ProgramOutcome, ConfigRead, CommitWord;
    LandedUnreported(s, i);
  }

  lemma StoredRead(mem: seq<byte>)
    requires |mem| == NOR_BYTES
    ensures Load(mem, SETTINGS_MAX, Some(INSTANCES_MAX)).Some? <==> ConfigRead(mem).Some?
    ensures forall s, i :: Stored(mem, s, i) ==>
              ConfigRead(mem).Some? && ConfigRead(mem).value.settings == s && ConfigRead(mem).value.instances == i
  {
    hide ConfigRead;
    if ConfigRead(mem).Some? {
      ReadStorable(mem);
    }
  }
}
