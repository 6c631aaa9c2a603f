/** The handshake manager and the API handler that drives it, as steps that interleave at the
    handler's await (kelan/protocol/handshake.py:27-168, kelan/api/server.py:455-557). */
module Handshake {
  import opened Common
  import opened Trust

  type Bytes = seq<u8>

  datatype Phase = INIT | SYN | SYN_ACK | KEM_COMPLETE | AI_EVAL | COMPLETE

  const SESSION_TTL := 60.0

  /** The three fields the client signs. */
  datatype Transcript = Transcript(sessionId: string, entityId: string, nonceC: string)

  /** The cryptographic library: any functions of these types. */
  datatype Crypto = Crypto(
    fromHex: string -> Option<Bytes>,
    verify: (Bytes, Bytes, Transcript) -> bool,
    exchange: (Bytes, Bytes) -> Option<Bytes>,
    encapsulates: Bytes -> bool,                            // false where encapsulation raises on the key
    derive: (Bytes, Bytes) -> Bytes,
    hash: Transcript -> string)

  /** The value of a pending session. */
  datatype Pending = Pending(
    entityId: string, intent: string, nonceC: string, x25519PkC: Option<Bytes>, x25519SkS: Bytes,
    createdAt: real, phase: Phase, sessionKey: Option<Bytes>, transcriptHash: Option<string>)

  predicate IsExpired(p: Pending, now: real) { now - p.createdAt > SESSION_TTL }

  datatype KemRequest = KemRequest(sessionId: string, kemCt: string, signature: string, ed25519Pk: string)

  datatype HandshakeError =
    | PqRequired | UnknownSession | SessionExpired | WrongPhase | InvalidSignature | VerificationFailed
    | SessionNotFound
    | ValueError                                            // malformed hex or key bytes: not a HandshakeError

  /** The quick check on the signature text: long enough, and neither all zeros nor all ones. */
  predicate PlausibleSignature(sig: string) {
    && |sig| >= 128
    && !(|sig| == 128 && forall i :: 0 <= i < 128 ==> sig[i] == '0')
    && !(|sig| == 128 && forall i :: 0 <= i < 128 ==> sig[i] == 'f' || sig[i] == 'F')
  }

  function TranscriptOf(sessionId: string, p: Pending): Transcript { Transcript(sessionId, p.entityId, p.nonceC) }

  function Take32(b: Bytes): Bytes { if |b| <= 32 then b else b[..32] }

  function Zeros32(): Bytes { seq(32, _ => 0) }

  function Shared(p: Pending, crypto: Crypto): Option<Bytes> {
    if p.x25519PkC.Some? && p.x25519PkC.value != [] then crypto.exchange(p.x25519SkS, p.x25519PkC.value)
    else Some(Zeros32())
  }

  /** Whether the signature of a request decodes and verifies over the session's transcript. */
  predicate SignatureVerifies(p: Pending, req: KemRequest, crypto: Crypto) {
    && crypto.fromHex(req.signature).Some? && crypto.fromHex(req.ed25519Pk).Some?
    && crypto.verify(crypto.fromHex(req.ed25519Pk).value, crypto.fromHex(req.signature).value,
                     TranscriptOf(req.sessionId, p))
  }

  /** The checks of a KEM-COMPLETE message, in order. */
  function KemCheck(pending: map<string, Pending>, req: KemRequest, now: real, crypto: Crypto)
      : Result<Pending, HandshakeError> {
    if req.sessionId !in pending then Err(UnknownSession)
    else
      var p := pending[req.sessionId];
      if IsExpired(p, now) then Err(SessionExpired)
      else if p.phase != SYN then Err(WrongPhase)
      else if !PlausibleSignature(req.signature) then Err(InvalidSignature)
      else if crypto.fromHex(req.signature).None? || crypto.fromHex(req.ed25519Pk).None? then Err(ValueError)
      else if !SignatureVerifies(p, req, crypto) then Err(VerificationFailed)
      else if crypto.fromHex(req.kemCt).None? || Shared(p, crypto).None? then Err(ValueError)
      else Ok(p.(phase := KEM_COMPLETE,
                 sessionKey := Some(crypto.derive(Take32(crypto.fromHex(req.kemCt).value), Shared(p, crypto).value)),
                 transcriptHash := Some(crypto.hash(TranscriptOf(req.sessionId, p)))))
  }

  /** The pending sessions afterwards: an expired session is deleted, an accepted one moves on. */
  function KemEffect(pending: map<string, Pending>, req: KemRequest, now: real, crypto: Crypto): map<string, Pending> {
    match KemCheck(pending, req, now, crypto)
    case Ok(p) => pending[req.sessionId := p]
    case Err(SessionExpired) => pending - {req.sessionId}
    case Err(_) => pending
  }

  // ---- What the checks mean ----

  /** The text with its ASCII capitals lowered. */
  function Lower(s: string): (r: string)
    ensures |r| == |s|
  {
    seq(|s|, i requires 0 <= i < |s| => if 'A' <= s[i] <= 'Z' then s[i] + ('a' - 'A') else s[i])
  }

  /** The quick check refuses what is shorter than 128 characters, all zeros, or all ones in
      either case, and nothing else. */
  lemma PlausibleIff(sig: string)
    ensures PlausibleSignature(sig) <==>
      |sig| >= 128 && Lower(sig) != seq(128, _ => '0') && Lower(sig) != seq(128, _ => 'f')
  {
    var zeros, ones := seq(128, _ => '0'), seq(128, _ => 'f');
    if |sig| == 128 {
      assert Lower(sig) == zeros <==> forall i :: 0 <= i < 128 ==> Lower(sig)[i] == zeros[i];
      assert Lower(sig) == ones <==> forall i :: 0 <= i < 128 ==> Lower(sig)[i] == ones[i];
      assert forall i :: 0 <= i < 128 ==> (Lower(sig)[i] == '0' <==> sig[i] == '0');
      assert forall i :: 0 <= i < 128 ==> (Lower(sig)[i] == 'f' <==> sig[i] == 'f' || sig[i] == 'F');
    }
  }

  /** The key bytes of the exchange: all zeros when the client sent no key. */
  predicate ExchangeSucceeds(p: Pending, crypto: Crypto) {
    p.x25519PkC.Some? && p.x25519PkC.value != [] ==> crypto.exchange(p.x25519SkS, p.x25519PkC.value).Some?
  }

  /** Exactly which key completions are accepted, and what an accepted one adds to its session. */
  lemma KemAcceptedIff(pending: map<string, Pending>, req: KemRequest, now: real, crypto: Crypto)
    ensures var c, sid := KemCheck(pending, req, now, crypto), req.sessionId;
      var ct, sig, pk := crypto.fromHex(req.kemCt), crypto.fromHex(req.signature), crypto.fromHex(req.ed25519Pk);
      && (c.Ok? <==>
            && sid in pending && now - pending[sid].createdAt <= 60.0 && pending[sid].phase == SYN
            && PlausibleSignature(req.signature) && sig.Some? && pk.Some?
            && crypto.verify(pk.value, sig.value, Transcript(sid, pending[sid].entityId, pending[sid].nonceC))
            && ct.Some? && ExchangeSucceeds(pending[sid], crypto))
      && (c.Ok? ==>
            var p := pending[sid];
            var shared := if p.x25519PkC.Some? && p.x25519PkC.value != []
              then crypto.exchange(p.x25519SkS, p.x25519PkC.value).value else seq(32, _ => 0);
            c.value == p.(phase := KEM_COMPLETE,
                          sessionKey := Some(crypto.derive(ct.value[..Min(32, |ct.value|)], shared)),
                          transcriptHash := Some(crypto.hash(Transcript(sid, p.entityId, p.nonceC)))))
  {
    var ct := crypto.fromHex(req.kemCt);
    if ct.Some? { assert Take32(ct.value) == ct.value[..Min(32, |ct.value|)]; }
  }

  /** A completion for a session that is unknown, late or not in its first phase changes nothing but
      the deletion of a late session. */
  lemma KemRefusedFirst(pending: map<string, Pending>, req: KemRequest, now: real, crypto: Crypto)
    ensures var c, sid := KemCheck(pending, req, now, crypto), req.sessionId;
      && (c == Err(UnknownSession) <==> sid !in pending)
      && (c == Err(SessionExpired) <==> sid in pending && now - pending[sid].createdAt > 60.0)
      && (c == Err(WrongPhase) <==> sid in pending && now - pending[sid].createdAt <= 60.0 && pending[sid].phase != SYN)
      && (c.Err? ==>
            KemEffect(pending, req, now, crypto) == if c.error == SessionExpired then pending - {sid} else pending)
  {
  }

  predicate Truthy(text: Option<string>) { text.Some? && text.value != "" }

  /** The error a SYN is refused with, if any. */
  function SynCheck(requirePq: bool, crypto: Crypto, x25519PkHex: Option<string>, kemPkHex: Option<string>)
      : Option<HandshakeError> {
    if requirePq && !Truthy(kemPkHex) then Some(PqRequired)
    else if Truthy(kemPkHex) && crypto.fromHex(kemPkHex.value).None? then Some(ValueError)
    else if Truthy(x25519PkHex) && crypto.fromHex(x25519PkHex.value).None? then Some(ValueError)
    else if Truthy(kemPkHex) && crypto.fromHex(kemPkHex.value).value != []
            && !crypto.encapsulates(crypto.fromHex(kemPkHex.value).value) then Some(ValueError)
    else None
  }

  function NewPending(crypto: Crypto, entityId: string, intent: string, nonceC: string, x25519PkHex: Option<string>,
                      x25519SkS: Bytes, now: real): Pending {
    Pending(entityId, intent, nonceC,
            if Truthy(x25519PkHex) then crypto.fromHex(x25519PkHex.value) else None, x25519SkS, now,
            SYN, None, None)
  }

  function Purged(pending: map<string, Pending>, now: real): map<string, Pending> {
    map sid | sid in pending && !IsExpired(pending[sid], now) :: pending[sid]
  }

  // ---- The manager ----

  class PendingSession {
    const sessionId: string
    const entityId: string
    const intent: string
    const nonceC: string
    const x25519PkC: Option<Bytes>
    const x25519SkS: Bytes
    const createdAt: real
    var phase: Phase
    var sessionKey: Option<Bytes>
    var transcriptHash: Option<string>

    function View(): Pending
      reads this
    {
      Pending(entityId, intent, nonceC, x25519PkC, x25519SkS, createdAt, phase, sessionKey, transcriptHash)
    }

    constructor (sessionId: string, entityId: string, intent: string, nonceC: string, x25519PkC: Option<Bytes>,
                 x25519SkS: Bytes, createdAt: real)
      ensures this.sessionId == sessionId
      ensures View() == Pending(entityId, intent, nonceC, x25519PkC, x25519SkS, createdAt, SYN, None, None)
    {
      this.sessionId, this.entityId, this.intent, this.nonceC := sessionId, entityId, intent, nonceC;
      this.x25519PkC, this.x25519SkS, this.createdAt := x25519PkC, x25519SkS, createdAt;
      phase, sessionKey, transcriptHash := SYN, None, None;
    }
  }

  class HandshakeManager {
    const requirePq: bool
    const crypto: Crypto
    var pending: map<string, PendingSession>

    /** Sessions are filed under their own ids, so no two keys share an object. */
    ghost predicate Valid()
      reads this
    {
      forall sid :: sid in pending ==> pending[sid].sessionId == sid
    }

    ghost function View(): map<string, Pending>
      reads this, pending.Values
    {
      map sid | sid in pending :: pending[sid].View()
    }

    constructor (requirePq: bool, crypto: Crypto)
      ensures Valid() && View() == map[] && pending == map[] && this.requirePq == requirePq && this.crypto == crypto
    {
      this.requirePq, this.crypto, pending := requirePq, crypto, map[];
    }

    /** `sessionId` is the fresh UUID, `x25519SkS` the fresh server key. */
    method ReceiveSyn(entityId: string, intent: string, nonceC: string,
                      x25519PkHex: Option<string>, kemPkHex: Option<string>,
                      sessionId: string, x25519SkS: Bytes, now: real)
        returns (r: Result<PendingSession, HandshakeError>)
      requires Valid() && sessionId !in pending
      modifies this
      ensures Valid()
      ensures r.Ok? <==> SynCheck(requirePq, crypto, x25519PkHex, kemPkHex).None?
      ensures r.Err? ==> r.error == SynCheck(requirePq, crypto, x25519PkHex, kemPkHex).value && pending == old(pending)
      ensures r.Ok? ==>
        && fresh(r.value) && r.value.sessionId == sessionId
        && pending == old(pending)[sessionId := r.value]
        && View() == old(View())[sessionId := NewPending(crypto, entityId, intent, nonceC, x25519PkHex, x25519SkS, now)]
      ensures r.Ok? ==>
        && r.value.createdAt == now && r.value.phase == SYN
        && r.value.entityId == entityId && r.value.intent == intent && r.value.nonceC == nonceC
        && r.value.x25519SkS == x25519SkS
        && r.value.x25519PkC == (if Truthy(x25519PkHex) then crypto.fromHex(x25519PkHex.value) else None)
        && r.value.sessionKey == None && r.value.transcriptHash == None
    {
      if requirePq && !Truthy(kemPkHex) {
        return Err(PqRequired);
      }
      var kemPkC := None;
      if Truthy(kemPkHex) {
        kemPkC := crypto.fromHex(kemPkHex.value);
        if kemPkC.None? {
          return Err(ValueError);
        }
      }
      var x25519PkC := None;
      if Truthy(x25519PkHex) {
        x25519PkC := crypto.fromHex(x25519PkHex.value);
        if x25519PkC.None? {
          return Err(ValueError);
        }
      }
      if kemPkC.Some? && kemPkC.value != [] && !crypto.encapsulates(kemPkC.value) {
        return Err(ValueError);
      }
      var ps := new PendingSession(sessionId, entityId, intent, nonceC, x25519PkC, x25519SkS, now);
      pending := pending[sessionId := ps];
      return Ok(ps);
    }

    method ReceiveKemComplete(req: KemRequest, now: real) returns (r: Result<PendingSession, HandshakeError>)
      requires Valid()
      modifies this, pending.Values
      ensures Valid()
      ensures forall sid :: sid in pending ==> sid in old(pending) && pending[sid] == old(pending)[sid]
      ensures View() == KemEffect(old(View()), req, now, crypto)
      ensures var c := KemCheck(old(View()), req, now, crypto);
        if c.Err? then r == Err(c.error)
        else r.Ok? && req.sessionId in old(pending) && r.value == old(pending)[req.sessionId]
             && r.value.View() == c.value
    {
      if req.sessionId !in pending {
        return Err(UnknownSession);
      }
      var ps := pending[req.sessionId];
      if now - ps.createdAt > SESSION_TTL {
        pending := pending - {req.sessionId};
        return Err(SessionExpired);
      }
      if ps.phase != SYN {
        return Err(WrongPhase);
      }
      if !PlausibleSignature(req.signature) {
        return Err(InvalidSignature);
      }
      var transcript := Transcript(req.sessionId, ps.entityId, ps.nonceC);
      var sig := crypto.fromHex(req.signature);
      var edPub := crypto.fromHex(req.ed25519Pk);
      if sig.None? || edPub.None? {
        return Err(ValueError);
      }
      if !crypto.verify(edPub.value, sig.value, transcript) {
        return Err(VerificationFailed);
      }
      var kemCt := crypto.fromHex(req.kemCt);
      if kemCt.None? {
        return Err(ValueError);
      }
      var shared := Some(Zeros32());
      if ps.x25519PkC.Some? && ps.x25519PkC.value != [] {
        shared := crypto.exchange(ps.x25519SkS, ps.x25519PkC.value);
        if shared.None? {
          return Err(ValueError);
        }
      }
      FinishKem(ps, req.sessionId, crypto.derive(Take32(kemCt.value), shared.value), crypto.hash(transcript));
      return Ok(ps);
    }

    /** The three assignments that move an accepted session on. */
    method FinishKem(ps: PendingSession, sid: string, key: Bytes, hash: string)
      requires Valid() && sid in pending && pending[sid] == ps
      modifies ps
      ensures View() == old(View())[sid :=
        old(ps.View()).(phase := KEM_COMPLETE, sessionKey := Some(key), transcriptHash := Some(hash))]
      ensures ps.View() == old(ps.View()).(phase := KEM_COMPLETE, sessionKey := Some(key), transcriptHash := Some(hash))
    {
      ps.sessionKey := Some(key);
      ps.transcriptHash := Some(hash);
      ps.phase := KEM_COMPLETE;
      forall other | other in pending && other != sid ensures pending[other].View() == old(pending[other].View()) {
        assert pending[other].sessionId == other;
      }
    }

    /** Whatever its phase, a session that is still pending is removed and given a token. */
    method CompleteSession(sid: string, token: string) returns (r: Result<string, HandshakeError>)
      requires Valid()
      modifies this, pending.Values
      ensures Valid() && pending == old(pending) - {sid}
      ensures View() == old(View()) - {sid}
      ensures r == if sid in old(pending) then Ok(token) else Err(SessionNotFound)
    {
      if sid !in pending {
        assert pending - {sid} == pending;
        return Err(SessionNotFound);
      }
      var ps := pending[sid];
      pending := pending - {sid};
      ps.phase := COMPLETE;
      forall other | other in pending ensures pending[other].View() == old(pending[other].View()) {
        assert pending[other].sessionId == other;
      }
      return Ok(token);
    }

    /** The expired sessions are listed first and then deleted one by one. */
    method PurgeExpired(now: real)
      requires Valid()
      modifies this
      ensures Valid() && View() == Purged(old(View()), now)
      ensures forall sid :: sid in pending ==> sid in old(pending) && pending[sid] == old(pending)[sid]
    {
      var expired := set sid | sid in pending && now - pending[sid].createdAt > SESSION_TTL;
      var todo := expired;
      while todo != {}
        invariant todo <= expired
        invariant pending == old(pending) - (expired - todo)
        decreases |todo|
      {
        var sid :| sid in todo;
        pending := pending - {sid};
        todo := todo - {sid};
      }
    }
  }
}
