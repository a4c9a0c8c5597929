/**
 * The host client (ethernet.py) and the board as a two-party protocol over a link that may lose any
 * request or response, while the board may tick, reset or lose power at any time.
 */
module Protocol {
  import opened Bytes
  import opened Crc
  import opened BootFormat
  import opened BoardMemory
  import opened BootState
  import opened BootSafety
  import opened Text
  import opened OtaAuth
  import opened OtaUpdate
  import opened BootPolicy
  import opened Board
  import opened HostImage
  import opened ConfigFormat

  // ---------------------------------------------------------------- what the client is doing

  /** The calls of an installation. */
  datatype Intent =
    | Asking
    | Aborting
    | Starting(uid: string, header: Header)
    | Sending(header: Header, sent: seq<byte>, chunk: seq<byte>)
    | Closing(header: Header, payload: seq<byte>)

  function Action(i: Intent): string
  {
    match i
    case Asking => "status"
    case Aborting => "abort"
    case Starting(uid, _) => BEGIN + uid
    case Sending(_, sent, _) => CHUNK + Decimal(|sent|)
    case Closing(_, _) => "finish"
  }

  function Data(i: Intent): seq<byte>
  {
    match i
    case Starting(_, h) => HeaderBytes(h)
    case Sending(_, _, chunk) => chunk
    case _ => []
  }

  /** What the board's upload can be while the client repeats a call, however often it was carried out. */
  predicate Expects(i: Intent, u: Upload, accepted: seq<byte>)
  {
    match i
    case Starting(_, h) => InProgress(u) ==> u.state == RECEIVING && u.header == h && accepted == []
    case Sending(h, sent, chunk) =>
      InProgress(u) ==> u.state == RECEIVING && u.header == h && (accepted == sent || accepted == sent + chunk)
    case Closing(h, payload) => InProgress(u) ==> u.header == h && accepted == payload
    case _ => true
  }

  /** What a reply without error tells the client about the board when the request was carried out. */
  predicate Learns(i: Intent, r: Reply, u: Upload, accepted: seq<byte>)
  {
    match i
    case Asking => r.StatusReply? && r.status.uploadState == u.state
    case Aborting => !InProgress(u)
    case Starting(_, h) => r.Begun? && InProgress(u) && u.state == RECEIVING && u.header == h && accepted == []
    case Sending(h, sent, chunk) =>
      r.Received? && r.received as int == |sent| + |chunk| ==>
        u.state == RECEIVING && u.header == h && accepted == sent + chunk
    case Closing(h, payload) => u.state == VERIFIED && u.header == h && accepted == payload
  }

  predicate WellFormed(i: Intent)
  {
    i.Sending? ==> i.chunk != [] && |i.sent| + |i.chunk| < TWO32
  }

  lemma ActionRoutes(i: Intent)
    ensures BEGIN <= Action(i) <==> i.Starting?
    ensures CHUNK <= Action(i) <==> i.Sending?
    ensures i.Sending? ==> Action(i)[|CHUNK|..] == Decimal(|i.sent|)
    ensures (Action(i) == "finish" <==> i.Closing?) && (Action(i) == "status" <==> i.Asking?)
              && (Action(i) == "abort" <==> i.Aborting?)
  {
    match i
    case Asking => assert Action(i)[0] == 's';
    case Aborting => assert Action(i)[0] == 'a';
    case Starting(_, _) => assert Action(i)[0] == 'b';
    case Sending(_, _, _) => assert Action(i)[0] == 'c';
    case Closing(_, _) => assert Action(i)[0] == 'f';
  }

  /**
   * Repeating a call is harmless, and a reply without error means that its effect has taken place exactly
   * once, whichever of the repetitions brought it about.
   */
  lemma StepRouted(i: Intent, u: Upload, accepted: seq<byte>, u': Upload, accepted': seq<byte>, r: Reply)
    requires WellFormed(i) && Expects(i, u, accepted)
    requires Routed(Action(i), Data(i), u, accepted, u', accepted', r)
    ensures Expects(i, u', accepted')
    ensures !r.Failure? ==> Learns(i, r, u', accepted')
  {
    hide HeaderOf, HeaderBytes;
    ActionRoutes(i);
    match i
    case Starting(_, h) => HeaderRoundTrip(h);
    case Sending(h, sent, chunk) => DecimalRoundTrip(|sent|);
    case _ =>
  }

  lemma StepUndisturbed(i: Intent, u: Upload, accepted: seq<byte>, u': Upload, accepted': seq<byte>)
    requires Expects(i, u, accepted) && Undisturbed(u, accepted, u', accepted')
    ensures Expects(i, u', accepted')
  {
  }

  lemma UndisturbedTrans(u: Upload, a: seq<byte>, u': Upload, a': seq<byte>, u'': Upload, a'': seq<byte>)
    requires Undisturbed(u, a, u', a') && Undisturbed(u', a', u'', a'')
    ensures Undisturbed(u, a, u'', a'')
  {
  }

  // ---------------------------------------------------------------- the client

  datatype Fault = Lost | Rejected | Refused(reply: Reply)

  /** The request was carried out, and the client learns what the reply says about it. */
  ghost predicate CarriedOut(i: Intent, r: Reply, t: Trace)
  {
    t.Processed? && t.reply == r && Learns(i, r, t.upload, t.accepted)
  }

  datatype Called = Answered(reply: Reply) | Raised(fault: Fault)

  /** `Client`; no nonce stands for the empty nonce of the source. */
  class Client {
    const uid: string
    const key: Key
    const hmac: Hmac
    const render: Reply -> seq<byte>
    var nonce: Option<Digest>
    var sequence: nat
    /** The run of the board's authentication service that the nonce belongs to. */
    ghost var session: Auth?

    constructor (uid: string, key: Key, hmac: Hmac, render: Reply -> seq<byte>)
      ensures nonce == None && this.uid == uid && this.key == key
    {
      this.uid, this.key, this.hmac, this.render := uid, key, hmac, render;
      nonce, sequence, session := None, 0, null;
    }

    /** If the client's nonce is from the board's present run, the board expects number `n` next. */
    ghost predicate Expecting(b: Board, n: nat)
      reads this, b, b.auth
    {
      nonce.Some? && session == b.auth ==> b.auth.ready && nonce.value == b.auth.nonce && b.auth.sequence as int == n
    }

    /** Client and board agree on the next sequence number. */
    ghost predicate Agrees(b: Board)
      reads this, b, b.auth
    {
      Expecting(b, sequence)
    }

    /** The reply is a status, and announces the challenge of the run it met. */
    ghost predicate Described(b: Board, run: Auth, r: Reply)
      reads b, b.auth
    {
      r.StatusReply? && (b.auth == run ==> Announced(b.auth, r.status))
    }

    /** Anything that may happen to the board between two messages of the client. */
    method Meanwhile(b: Board, ghost n: nat)
      requires b.Valid() && Expecting(b, n)
      modifies b, b.nor, b.nor.mem, b.info, b.auth, b.ota
      ensures b.Valid() && Expecting(b, n) && (old(b.Provisioned()) ==> b.Provisioned())
      ensures b.SameOrRestarted()
      ensures b.LeftAlone()
    {
      hide MetaRead, OnlyRecords, HandoffsRecorded, Uploading, Safe;
      ghost var m0 := b.nor.Flash();
      NoRecordChanged(m0);
      var count: int := *;
      count := if count < 0 then 0 else count;
      for k := 0 to count
        invariant b.Valid() && Expecting(b, n) && (old(b.Provisioned()) ==> b.Provisioned())
        invariant b.SameOrRestarted()
        invariant b.LeftAlone()
      {
        var e: Event := *;
        var now: u32 := *;
        if b.Stranger(e) {
          ghost var m1 := b.nor.Flash();
          b.Step(e, now);
          OnlyRecordsTrans(m0, m1, b.nor.Flash());
        }
      }
    }

    /** `_http` over the lossy link: the request or the response may be lost. `run` is the board run it met. */
    method Http(b: Board, verb: string, path: string, body: seq<byte>)
      returns (r: Option<Response>, ghost t: Trace, ghost run: Auth, ghost u: Upload, ghost accepted: seq<byte>)
      requires b.Valid() && Agrees(b)
      modifies b, b.nor, b.nor.mem, b.info, b.auth, b.ota
      ensures b.Valid() && (old(b.Provisioned()) ==> b.Provisioned())
      ensures b.SameOrRestarted()
      ensures Expecting(b, if t.Processed? then sequence + 1 else sequence)
      ensures t.Untouched? ==> b.LeftAlone()
      ensures b.Carried(t)
      ensures Undisturbed(old(b.ota.upload), old(b.ota.accepted), u, accepted)
      ensures t.Processed? ==> RequestRouted(verb, path, body, u, accepted, t)
      ensures r.Some? && r.value.mac.Some? ==> t.Processed? && r.value.reply == t.reply
      ensures r.Some? && verb == "GET" && path == PREFIX + "status" ==> t.Untouched? && Described(b, run, r.value.reply)
    {
      hide MetaRead, OnlyRecords, HandoffsRecorded, Uploading, Safe, RequestRouted, Undisturbed, Routed, Ota.Valid,
        Auth.Authentic, Provision, Message;
      ghost var m0, u0, a0 := b.nor.Flash(), b.ota.upload, b.ota.accepted;
      t := Untouched;
      Meanwhile(b, sequence);
      run, u, accepted := b.auth, b.ota.upload, b.ota.accepted;
      var lost: bool := *;
      if lost {
        return None, t, run, u, accepted;
      }
      var now: u32 := *;
      var random: Option<Digest> := *;
      ghost var m1 := b.nor.Flash();
      r, t := b.Exchange(verb, path, body, now, random, render);
      ghost var m2, u2, a2 := b.nor.Flash(), b.ota.upload, b.ota.accepted;
      if t.Untouched? {
        OnlyRecordsTrans(m0, m1, m2);
        UndisturbedTrans(u0, a0, u, accepted, u2, a2);
      }
      Meanwhile(b, if t.Processed? then sequence + 1 else sequence);
      if t.Untouched? {
        OnlyRecordsTrans(m0, m2, b.nor.Flash());
        UndisturbedTrans(u0, a0, u2, a2, b.ota.upload, b.ota.accepted);
      } else {
        OnlyRecordsTrans(t.mem, m2, b.nor.Flash());
        UndisturbedTrans(t.upload, t.accepted, u2, a2, b.ota.upload, b.ota.accepted);
      }
      lost := *;
      if lost {
        r := None;
      }
    }

    /** `challenge`: fetches the nonce and the next sequence number. */
    method Challenge(b: Board) returns (fault: Option<Fault>)
      requires b.Valid() && Agrees(b)
      modifies this, b, b.nor, b.nor.mem, b.info, b.auth, b.ota
      ensures b.Valid() && Agrees(b) && (old(b.Provisioned()) ==> b.Provisioned())
      ensures b.SameOrRestarted()
      ensures Undisturbed(old(b.ota.upload), old(b.ota.accepted), b.ota.upload, b.ota.accepted)
      ensures fault.None? ==> nonce.Some? && 0 < sequence < SEQUENCE_MAX as int
      ensures fault.Some? ==> fault.value.Lost? || fault.value.Rejected?
    {
      hide MetaRead, HandoffsRecorded, Uploading, Safe, OnlyRecords;
      var r;
      ghost var t, run, u, accepted;
      r, t, run, u, accepted := Http(b, "GET", PREFIX + "status", []);
      if r.None? {
        return Some(Lost);
      }
      var s := r.value.reply.status;
      if s.uid != uid || !s.authReady || !(0 < s.sequence < SEQUENCE_MAX) {
        return Some(Rejected);
      }
      nonce, sequence, session := Some(s.nonce), s.sequence, run;
      return None;
    }

    /** The POST body: sequence number, authenticator, payload. */
    function Signed(path: string, payload: seq<byte>): (body: seq<byte>)
      requires nonce.Some? && sequence < TWO32
      reads this
      ensures |body| == AUTH_BYTES + |payload| && body[AUTH_BYTES..] == payload
    {
      WordBytes(sequence) + hmac(key, Message(nonce.value, sequence, path, payload)) + payload
    }

    /**
     * `call`, with its retries. Whatever is lost, a returned reply is the reply to a request that the
     * board carried out, and repetitions have not added to its effect.
     */
    method Call(b: Board, i: Intent) returns (c: Called, ghost t: Trace)
      requires b.Valid() && Agrees(b) && WellFormed(i) && Expects(i, b.ota.upload, b.ota.accepted)
      modifies this, b, b.nor, b.nor.mem, b.info, b.auth, b.ota
      ensures b.Valid() && (old(b.Provisioned()) ==> b.Provisioned())
      ensures b.SameOrRestarted()
      ensures c.Answered? || c.fault.Refused? ==> Agrees(b)
      ensures Expects(i, b.ota.upload, b.ota.accepted)
      ensures c.Answered? ==> CarriedOut(i, c.reply, t) && b.Carried(t)
    {
      hide MetaRead, HandoffsRecorded, Uploading, Safe, OnlyRecords, Expects, Learns, Undisturbed, Routed, Snapshot,
        Message;
      t := Untouched;
      for attempt := 0 to 3
        invariant b.Valid() && Agrees(b) && (old(b.Provisioned()) ==> b.Provisioned())
        invariant b.SameOrRestarted()
        invariant Expects(i, b.ota.upload, b.ota.accepted)
      {
        c, t := Attempt(b, i);
        if !(c.Raised? && c.fault.Lost?) {
          return;
        }
        nonce := None;
      }
      return Raised(Lost), t;
    }

    /** One attempt of a call; `Lost` stands for the exceptions that are retried. */
    method Attempt(b: Board, i: Intent) returns (c: Called, ghost t: Trace)
      requires b.Valid() && Agrees(b) && WellFormed(i) && Expects(i, b.ota.upload, b.ota.accepted)
      modifies this, b, b.nor, b.nor.mem, b.info, b.auth, b.ota
      ensures b.Valid() && (old(b.Provisioned()) ==> b.Provisioned())
      ensures b.SameOrRestarted()
      ensures c.Answered? || c.fault.Refused? ==> Agrees(b)
      ensures Expects(i, b.ota.upload, b.ota.accepted)
      ensures c.Answered? ==> CarriedOut(i, c.reply, t) && b.Carried(t)
    {
      hide MetaRead, HandoffsRecorded, Uploading, Safe, OnlyRecords, Expects, Learns, Undisturbed, Routed, Snapshot,
        Message;
      t := Untouched;
      if nonce.None? {
        ghost var u, accepted := b.ota.upload, b.ota.accepted;
        var fault := Challenge(b);
        StepUndisturbed(i, u, accepted, b.ota.upload, b.ota.accepted);
        if fault.Some? {
          return Raised(fault.value), t;
        }
      }
      if sequence >= TWO32 {
        return Raised(Rejected), t;
      }
      var r;
      r, t := Post(b, i, PREFIX + Action(i));
      if r.None? {
        return Raised(Lost), t;
      }
      var reply := r.value.reply;
      if r.value.mac != Some(hmac(key, Message(nonce.value, sequence, "response", render(reply)))) {
        return Raised(Rejected), t;
      }
      sequence := sequence + 1;
      if reply.Failure? {
        return Raised(Fault.Refused(reply)), t;
      }
      return Answered(reply), t;
    }

    /** One POST of a call. */
    method Post(b: Board, i: Intent, path: string) returns (r: Option<Response>, ghost t: Trace)
      requires b.Valid() && Agrees(b) && WellFormed(i) && Expects(i, b.ota.upload, b.ota.accepted)
      requires nonce.Some? && sequence < TWO32 && path == PREFIX + Action(i)
      modifies b, b.nor, b.nor.mem, b.info, b.auth, b.ota
      ensures b.Valid() && (old(b.Provisioned()) ==> b.Provisioned())
      ensures b.SameOrRestarted()
      ensures Expecting(b, if t.Processed? then sequence + 1 else sequence)
      ensures Expects(i, b.ota.upload, b.ota.accepted)
      ensures r.Some? && r.value.mac.Some? ==> t.Processed? && r.value.reply == t.reply
      ensures b.Carried(t)
      ensures t.Processed? && !t.reply.Failure? ==> Learns(i, t.reply, t.upload, t.accepted)
    {
      hide MetaRead, HandoffsRecorded, Uploading, Safe, OnlyRecords, Expects, Learns, Undisturbed, Routed, Snapshot;
      assert path[|PREFIX|..] == Action(i);
      ghost var u0, a0 := b.ota.upload, b.ota.accepted;
      ghost var run, u, accepted;
      r, t, run, u, accepted := Http(b, "POST", path, Signed(path, Data(i)));
      if t.Processed? {
        StepUndisturbed(i, u0, a0, u, accepted);
        StepRouted(i, u, accepted, t.upload, t.accepted, t.reply);
        StepUndisturbed(i, t.upload, t.accepted, b.ota.upload, b.ota.accepted);
      } else {
        StepUndisturbed(i, u0, a0, b.ota.upload, b.ota.accepted);
      }
    }
  }

  /**
   * The board accepts what the client signs exactly when it expects the client's number and computes the
   * same authenticator; with the same key and nonce the number alone decides.
   */
  lemma SignedAuthentic(c: Client, a: Auth, mem: seq<byte>, path: string, payload: seq<byte>)
    requires |mem| == NOR_BYTES && c.nonce.Some? && c.sequence < TWO32
    ensures var key := Provision(mem, a.uid);
            a.Authentic(mem, path, c.Signed(path, payload))
            <==> a.ready && a.sequence as int == c.sequence && a.sequence != SEQUENCE_MAX && key.Some?
                 && a.Mac(key.value, a.sequence, path, payload)
                       == c.hmac(c.key, Message(c.nonce.value, c.sequence, path, payload))
    ensures Provision(mem, a.uid) == Some(c.key) && a.hmac == c.hmac && a.nonce == c.nonce.value ==>
              (a.Authentic(mem, path, c.Signed(path, payload))
               <==> a.ready && a.sequence as int == c.sequence && a.sequence != SEQUENCE_MAX)
  {
    hide Provision, Message;
    var mac := c.hmac(c.key, Message(c.nonce.value, c.sequence, path, payload));
    var body := c.Signed(path, payload);
    WordOfWordBytes(c.sequence);
    assert body == WordBytes(c.sequence) + mac + payload;
    assert Word(body, 0) == Word(WordBytes(c.sequence), 0);
    assert body[4..AUTH_BYTES] == mac;
  }

  // ---------------------------------------------------------------- the installation

  datatype Installed = AlreadyCurrent | Transferred | Aborted(fault: Fault)

  /** The slot holds exactly this payload under exactly this header, and boots. */
  predicate Holding(mem: seq<byte>, slot: u32, h: Header, payload: seq<byte>, sha: Hash)
    requires |mem| == NOR_BYTES
  {
    && slot <= 1 && Verified(mem, slot, h.generation, sha) && HeaderAt(mem, slot) == h && Payload(mem, slot) == payload
  }

  /** The header is the one that `pack` makes. */
  predicate IsPacked(h: Header, payload: seq<byte>, sha: Hash)
  {
    |payload| < TWO32 && h == PackedHeader(payload, h.generation, sha)
  }

  /** A verified upload that only boot records have changed since. */
  lemma ClosedHolds(t: Trace, mem: seq<byte>, h: Header, payload: seq<byte>, sha: Hash)
    requires t.Processed? && Snapshot(t, sha) && |mem| == NOR_BYTES && OnlyRecords(t.mem, mem)
    requires t.upload.state == VERIFIED && t.upload.header == h && t.accepted == payload
    ensures Holding(mem, t.upload.slot, h, payload, sha)
  {
    hide MetaRead, Crc32, HeaderOf, HeaderBody, VectorsValid, Unnamed, Recorded, SameOutside, OnlyRecords;
    OnlyRecordsRange(t.mem, mem);
    var running :| Uploading(t.mem, t.upload, running, t.accepted, sha);
    CommittedValidates(t.mem, t.upload.slot, h, payload);
    SlotKept(t.mem, mem, CONFIG0_OFFSET, META1_OFFSET + SECTOR, t.upload.slot);
  }

  /**
   * `install` up to and including `finish`. Whatever requests and responses are lost, and whenever the
   * board resets, getting past `finish` means that a slot holds exactly the payload and its header.
   * `sameVersion` says whether the board reports the version being installed.
   */
  method Install(c: Client, b: Board, payload: seq<byte>, sha: Hash, sameVersion: bool)
    returns (r: Installed, ghost slot: u32, ghost h: Header)
    requires b.Valid() && c.Agrees(b) && b.sha == sha
    modifies c, b, b.nor, b.nor.mem, b.info, b.auth, b.ota
    ensures b.Valid() && (old(b.Provisioned()) ==> b.Provisioned())
    ensures b.SameOrRestarted()
    ensures r.Transferred? ==> Holding(b.nor.Flash(), slot, h, payload, sha) && c.Agrees(b)
    ensures r.Transferred? ==> IsPacked(h, payload, sha)
  {
    hide MetaRead, HandoffsRecorded, Safe, OnlyRecords, HeaderBytes, Crc32, Holding, Ota.Valid, SameOutside,
      HeaderBody, HeaderOf;
    slot, h := SLOT_NONE, ZERO_HEADER;
    var floor;
    r, floor := Prepare(c, b, payload, sha, sameVersion);
    if !r.Transferred? {
      return;
    }
    if Pack(payload, floor + 1, IMAGE_MAX, sha).Err? {
      return Aborted(Rejected), slot, h;
    }
    PackedHeaderValid(payload, floor + 1, IMAGE_MAX, sha);
    var header := PackedHeader(payload, floor + 1, sha);
    h := header;
    var fault;
    fault, slot := Upload(c, b, payload, header, sha);
    if fault.Some? {
      r := Aborted(fault.value);
    }
  }

  /** The start of `install`; `Transferred` says that the transfer is to go ahead. */
  method Prepare(c: Client, b: Board, payload: seq<byte>, sha: Hash, sameVersion: bool)
    returns (r: Installed, floor: nat)
    requires b.Valid() && c.Agrees(b)
    modifies c, b, b.nor, b.nor.mem, b.info, b.auth, b.ota
    ensures b.Valid() && (old(b.Provisioned()) ==> b.Provisioned())
    ensures b.SameOrRestarted()
    ensures r.Transferred? ==> c.Agrees(b) && !InProgress(b.ota.upload)
  {
    hide MetaRead, HandoffsRecorded, Safe, OnlyRecords, Snapshot, Ota.Valid;
    floor := 0;
    var called;
    ghost var t;
    called, t := c.Call(b, Asking);
    if called.Raised? {
      return Aborted(called.fault), floor;
    }
    var s := called.reply.status;
    if s.uid != c.uid {
      return Aborted(Rejected), floor;
    }
    if !s.recovery && s.runningSha == Some(sha(payload)) && sameVersion && s.bootConfirmed && s.healthy {
      return AlreadyCurrent, floor;
    }
    if s.trialSlot != SLOT_NONE {
      return Aborted(Fault.Refused(called.reply)), floor;
    }
    floor := s.generationFloor as int;
    if s.uploadState == RECEIVING || s.uploadState == VERIFIED || s.uploadState == FAILED {
      called, t := c.Call(b, Aborting);
      if called.Raised? {
        return Aborted(called.fault), floor;
      }
    }
    return Transferred, floor;
  }

  /** `begin`, the chunks and `finish`. */
  method Upload(c: Client, b: Board, payload: seq<byte>, header: Header, sha: Hash)
    returns (fault: Option<Fault>, ghost slot: u32)
    requires b.Valid() && c.Agrees(b) && b.sha == sha && |payload| < TWO32 && !InProgress(b.ota.upload)
    modifies c, b, b.nor, b.nor.mem, b.info, b.auth, b.ota
    ensures b.Valid() && (old(b.Provisioned()) ==> b.Provisioned())
    ensures b.SameOrRestarted()
    ensures fault.None? ==> c.Agrees(b) && Holding(b.nor.Flash(), slot, header, payload, sha)
  {
    hide MetaRead, HandoffsRecorded, Safe, OnlyRecords, Snapshot, Holding, HeaderBytes;
    slot := SLOT_NONE;
    var called;
    ghost var t;
    called, t := c.Call(b, Starting(c.uid, header));
    if called.Raised? {
      return Some(called.fault), slot;
    }
    var chunkBytes := called.reply.chunkBytes as int;
    if !(256 <= chunkBytes <= 16384 && chunkBytes % 256 == 0) {
      return Some(Fault.Refused(called.reply)), slot;
    }
    fault := Transfer(c, b, payload, header, chunkBytes);
    if fault.Some? {
      return;
    }
    called, t := c.Call(b, Closing(header, payload));
    if called.Raised? {
      return Some(called.fault), slot;
    }
    slot := t.upload.slot;
    ClosedHolds(t, b.nor.Flash(), header, payload, sha);
  }

  /** The chunk loop of `install`. */
  method Transfer(c: Client, b: Board, payload: seq<byte>, header: Header, chunkBytes: nat)
    returns (fault: Option<Fault>)
    requires b.Valid() && c.Agrees(b) && 0 < chunkBytes && |payload| < TWO32
    requires Expects(Closing(header, []), b.ota.upload, b.ota.accepted) && b.ota.upload.state != VERIFIED
    modifies c, b, b.nor, b.nor.mem, b.info, b.auth, b.ota
    ensures b.Valid() && (old(b.Provisioned()) ==> b.Provisioned())
    ensures b.SameOrRestarted()
    ensures fault.None? ==> c.Agrees(b) && Expects(Closing(header, payload), b.ota.upload, b.ota.accepted)
  {
    hide MetaRead, HandoffsRecorded, Safe, OnlyRecords, Snapshot, Ota.Valid;
    var offset := 0;
    while offset < |payload|
      invariant offset <= |payload| && b.Valid() && c.Agrees(b) && (old(b.Provisioned()) ==> b.Provisioned())
      invariant b.SameOrRestarted()
      invariant InProgress(b.ota.upload) ==>
                  b.ota.upload.state == RECEIVING && b.ota.upload.header == header
                      && b.ota.accepted == payload[..offset]
    {
      var end := if offset + chunkBytes < |payload| then offset + chunkBytes else |payload|;
      var chunk := payload[offset..end];
      var called;
      ghost var t;
      called, t := c.Call(b, Sending(header, payload[..offset], chunk));
      if called.Raised? {
        return Some(called.fault);
      }
      if !(called.reply.Received? && called.reply.received as int == end) {
        return Some(Fault.Refused(called.reply));
      }
      assert payload[..offset] + chunk == payload[..end];
      offset := end;
    }
    assert payload[..|payload|] == payload;
    return None;
  }
}
