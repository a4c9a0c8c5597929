/** Request authentication with a nonce and a sequence number (ota_auth.c). */
module OtaAuth {
  import opened Bytes
  import opened Crc
  import opened BootFormat

  const PROVISION_OFFSET := 0xE_0000
  const PROVISION_MAGIC: u32 := 0x324B_5547
  const AUTH_BYTES := 36
  const SEQUENCE_MAX: u32 := 0xFFFF_FFFF

  type Key = seq<byte>
  type Uid = s: seq<u32> | |s| == 3 witness [0, 0, 0]

  /** HMAC-SHA-256 of a message under a key; nothing is assumed about it. */
  type Hmac = (Key, seq<byte>) -> Digest

  /** `provision`: the update key, if the record belongs to this board and passes its checks. */
  function Provision(mem: seq<byte>, uid: Uid): Option<Key>
    requires |mem| == NOR_BYTES
  {
    var p := mem[PROVISION_OFFSET..PROVISION_OFFSET + 64];
    if Word(p, 0) != PROVISION_MAGIC || Word(p, 4) != 1
      || Word(p, 8) != uid[0] || Word(p, 12) != uid[1] || Word(p, 16) != uid[2]
      || Word(p, 52) != 0 || Word(p, 56) != 0 || Word(p, 60) != Crc32(p[..60]) then None
    else Some(p[20..52])
  }

  function Ascii(s: string): (r: seq<byte>)
    ensures |r| == |s|
  {
    seq(|s|, i requires 0 <= i < |s| => s[i] as int % 0x100)
  }

  /** The message that is authenticated: nonce, sequence, NUL-terminated path and data. */
  function Message(nonce: seq<byte>, sequence: u32, path: string, data: seq<byte>): seq<byte>
  {
    nonce + WordBytes(sequence) + Ascii(path) + [0] + data
  }

  /** The static state of the service. `accepts` is the history of accepted sequence numbers. */
  class Auth {
    const uid: Uid
    const hmac: Hmac
    var nonce: Digest
    var sequence: u32
    var acceptedSequence: u32
    var ready: bool
    var accepted: bool
    ghost var accepts: seq<u32>

    constructor (uid: Uid, hmac: Hmac)
      ensures Valid() && !ready && !accepted && this.uid == uid && this.hmac == hmac && accepts == []
    {
      this.uid, this.hmac := uid, hmac;
      nonce, sequence, acceptedSequence, ready, accepted := Erased(32), 0, 0, false, false;
      accepts := [];
    }

    /** Accepted numbers are 1, 2, ... in order, so none is accepted twice; `sequence` is the next. */
    ghost predicate Valid()
      reads this
    {
      && (!ready ==> accepts == [] && sequence == 0)
      && (ready ==> |accepts| + 1 == sequence as int)
      && (forall i :: 0 <= i < |accepts| ==> accepts[i] == i + 1)
      && (accepted ==> accepts != [] && acceptedSequence == accepts[|accepts| - 1])
    }

    /** `mac` */
    function Mac(key: Key, seqNo: u32, path: string, data: seq<byte>): Digest
      reads this
    {
      hmac(key, Message(nonce, seqNo, path, data))
    }

    /**
     * `g100_auth_challenge`. `random` is what the hardware generator delivers, if it works. The first
     * challenge fixes the nonce; later ones repeat it with the next sequence number.
     */
    method Challenge(mem: seq<byte>, random: Option<Digest>) returns (ok: bool)
      requires Valid() && |mem| == NOR_BYTES
      modifies this`nonce, this`sequence, this`ready
      ensures Valid()
      ensures ok ==> ready && Provision(mem, uid).Some? && sequence != SEQUENCE_MAX
      ensures old(ready) ==> ready && nonce == old(nonce) && sequence == old(sequence)
      ensures ready && !old(ready) ==> random == Some(nonce) && sequence == 1
      ensures (Provision(mem, uid).Some? && (random.Some? || old(ready)) && (old(ready) ==> sequence != SEQUENCE_MAX))
          ==> ok
    {
      if Provision(mem, uid).None? {
        return false;
      }
      if !ready {
        if random.None? {
          return false;
        }
        nonce := random.value;
        sequence, ready := 1, true;
      }
      return sequence != SEQUENCE_MAX;
    }

    /** The request carries the expected sequence number and the right authenticator. */
    predicate Authentic(mem: seq<byte>, path: string, body: seq<byte>)
      requires |mem| == NOR_BYTES
      reads this
    {
      && ready && |body| >= AUTH_BYTES && sequence != SEQUENCE_MAX
      && Word(body, 0) == sequence
      && Provision(mem, uid).Some?
      && Mac(Provision(mem, uid).value, sequence, path, body[AUTH_BYTES..]) == body[4..AUTH_BYTES]
    }

    /**
     * `g100_auth_request` accepts exactly the authentic requests, and uses up one sequence number for
     * each.
     */
    method Request(mem: seq<byte>, path: string, body: seq<byte>) returns (ok: bool)
      requires Valid() && |mem| == NOR_BYTES
      modifies this`sequence, this`acceptedSequence, this`accepted, this`accepts
      ensures Valid() && accepted == ok
      ensures ok <==> old(Authentic(mem, path, body))
      ensures ok ==> sequence == old(sequence) + 1 && acceptedSequence == old(sequence)
      ensures ok ==> accepts == old(accepts) + [old(sequence)]
      ensures !ok ==> sequence == old(sequence) && accepts == old(accepts)
    {
      accepted := false;
      if !ready || |body| < AUTH_BYTES || sequence == SEQUENCE_MAX {
        return false;
      }
      var seqNo := Word(body, 0);
      var key := Provision(mem, uid);
      if seqNo != sequence || key.None? {
        return false;
      }
      var digest := Mac(key.value, seqNo, path, body[AUTH_BYTES..]);
      if digest != body[4..AUTH_BYTES] {
        return false;
      }
      acceptedSequence := sequence;
      sequence := sequence + 1;
      accepted := true;
      accepts := accepts + [acceptedSequence];
      return true;
    }

    /** `g100_auth_response` signs one reply to an accepted request, with that request's number. */
    method Response(mem: seq<byte>, body: seq<byte>) returns (signature: Option<Digest>)
      requires Valid() && |mem| == NOR_BYTES
      modifies this`accepted
      ensures Valid() && !(accepted && signature.Some?)
      ensures signature.Some? ==> old(accepted) && Provision(mem, uid).Some?
      ensures signature.Some? ==> signature.value == Mac(Provision(mem, uid).value, acceptedSequence, "response", body)
      ensures old(accepted) && Provision(mem, uid).Some? ==> signature.Some?
    {
      var key := Provision(mem, uid);
      if !accepted || key.None? {
        return None;
      }
      accepted := false;
      return Some(Mac(key.value, acceptedSequence, "response", body));
    }
  }
}
