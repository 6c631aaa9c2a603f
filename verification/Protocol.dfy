/** The handshake protocol as the API drives it: requests, resumptions after the verdict, and
    purges interleave in any order (kelan/api/server.py:455-557). */
module Protocol {
  import opened Common
  import opened Trust
  import opened Handshake

  /** What has happened to a session, in order. */
  datatype Event =
    | SynReceived(sid: string, entityId: string, nonceC: string, at: real)
    | KemVerified(sid: string, ed25519Pk: Bytes, signature: Bytes, at: real)
    | Decided(sid: string, verdict: Verdict)
    | TokenIssued(sid: string, token: string)

  /** The pending sessions, the handlers suspended at their await, the ids ever handed out, and the history. */
  datatype World = World(
    pending: map<string, Pending>, tasks: map<nat, string>, next: nat, used: set<string>, log: seq<Event>)

  const EMPTY_WORLD := World(map[], map[], 0, {}, [])

  datatype Step =
    | Syn(sid: string, p: Pending)                          // phase 1 with a fresh id
    | Kem(req: KemRequest, now: real, engineReady: bool)    // phase 3 up to the await
    | Resume(task: nat, verdict: Verdict, token: string)    // phase 3 after the verdict
    | Abandon(task: nat)                                    // the evaluation raised or was cancelled
    | Purge(now: real)

  function AfterSyn(w: World, sid: string, p: Pending): World {
    w.(pending := w.pending[sid := p], used := w.used + {sid},
       log := w.log + [SynReceived(sid, p.entityId, p.nonceC, p.createdAt)])
  }

  function AfterKem(w: World, req: KemRequest, now: real, engineReady: bool, crypto: Crypto): World {
    var c := KemCheck(w.pending, req, now, crypto);
    var w' := w.(pending := KemEffect(w.pending, req, now, crypto));
    if c.Err? then w'
    else
      var e := KemVerified(req.sessionId,
                         crypto.fromHex(req.ed25519Pk).value, crypto.fromHex(req.signature).value, now);
      if engineReady then w'.(log := w.log + [e], tasks := w.tasks[w.next := req.sessionId], next := w.next + 1)
      else w'.(log := w.log + [e])
  }

  function AfterResume(w: World, task: nat, verdict: Verdict, token: string): World
    requires task in w.tasks
  {
    var sid := w.tasks[task];
    var w' := w.(tasks := w.tasks - {task}, log := w.log + [Decided(sid, verdict)]);
    if verdict == DENY || sid !in w.pending then w'
    else w'.(pending := w.pending - {sid}, log := w'.log + [TokenIssued(sid, token)])
  }

  /** One step; a step that is not enabled changes nothing. */
  function Exec(w: World, s: Step, crypto: Crypto): World {
    match s
    case Syn(sid, p) => if sid in w.used || p.phase != SYN then w else AfterSyn(w, sid, p)
    case Kem(req, now, engineReady) => AfterKem(w, req, now, engineReady, crypto)
    case Resume(task, verdict, token) => if task in w.tasks then AfterResume(w, task, verdict, token) else w
    case Abandon(task) => w.(tasks := w.tasks - {task})
    case Purge(now) => w.(pending := Purged(w.pending, now))
  }

  function Run(w: World, steps: seq<Step>, crypto: Crypto): World
    decreases steps
  {
    if steps == [] then w else Run(Exec(w, steps[0], crypto), steps[1..], crypto)
  }

  // ---- The life of one session ----

  /** The events of one session, in order. */
  function Trace(log: seq<Event>, sid: string): seq<Event> {
    if log == [] then []
    else Trace(log[..|log| - 1], sid) + (if log[|log| - 1].sid == sid then [log[|log| - 1]] else [])
  }

  lemma TraceAppend(log: seq<Event>, e: Event, sid: string)
    ensures Trace(log + [e], sid) == Trace(log, sid) + (if e.sid == sid then [e] else [])
  {
    assert (log + [e])[..|log|] == log;
  }

  /** The only lives a session can have: a prefix of SYN, one verified key completion within 60
      seconds of it, one verdict, and a token unless the verdict was DENY. */
  ghost predicate Lawful(tr: seq<Event>, sid: string, crypto: Crypto) {
    && |tr| <= 4
    && (|tr| >= 1 ==> tr[0].SynReceived?)
    && (|tr| >= 2 ==>
          && tr[1].KemVerified?
          && tr[1].at - tr[0].at <= SESSION_TTL
          && crypto.verify(tr[1].ed25519Pk, tr[1].signature, Transcript(sid, tr[0].entityId, tr[0].nonceC)))
    && (|tr| >= 3 ==> tr[2].Decided?)
    && (|tr| == 4 ==> tr[3].TokenIssued? && tr[2].verdict != DENY)
  }

  /** What the manager and the suspended handlers know about a session agrees with its trace. */
  ghost predicate SessionInv(w: World, sid: string, crypto: Crypto) {
    var tr := Trace(w.log, sid);
    && Lawful(tr, sid, crypto)
    && (sid !in w.used ==> tr == [] && sid !in w.pending)
    && (sid in w.pending ==>
          && 1 <= |tr| <= 3
          && (w.pending[sid].phase == SYN <==> |tr| == 1)
          && tr[0] == SynReceived(sid, w.pending[sid].entityId, w.pending[sid].nonceC, w.pending[sid].createdAt))
    && (forall t :: t in w.tasks && w.tasks[t] == sid ==> |tr| == 2)
  }

  ghost predicate Inv(w: World, crypto: Crypto) {
    && (forall sid: string :: SessionInv(w, sid, crypto))
    && (forall t, u :: t in w.tasks && u in w.tasks && w.tasks[t] == w.tasks[u] ==> t == u)
    && (forall t :: t in w.tasks ==> t < w.next)
  }

  lemma SynKeepsInv(w: World, sid: string, p: Pending, crypto: Crypto)
    requires Inv(w, crypto) && sid !in w.used && p.phase == SYN
    ensures Inv(AfterSyn(w, sid, p), crypto)
  {
    var e := SynReceived(sid, p.entityId, p.nonceC, p.createdAt);
    assert SessionInv(w, sid, crypto);
    forall s: string ensures SessionInv(AfterSyn(w, sid, p), s, crypto) {
      assert SessionInv(w, s, crypto);
      TraceAppend(w.log, e, s);
    }
  }

  /** What an accepted key completion says about the session. */
  lemma AcceptedKem(pending: map<string, Pending>, req: KemRequest, now: real, crypto: Crypto)
    requires KemCheck(pending, req, now, crypto).Ok?
    ensures req.sessionId in pending
    ensures var p, p' := pending[req.sessionId], KemCheck(pending, req, now, crypto).value;
      && p.phase == SYN && now - p.createdAt <= SESSION_TTL && SignatureVerifies(p, req, crypto)
      && p'.phase == KEM_COMPLETE && p'.entityId == p.entityId && p'.nonceC == p.nonceC && p'.createdAt == p.createdAt
      && KemEffect(pending, req, now, crypto) == pending[req.sessionId := p']
  {
  }

  lemma RefusedKem(pending: map<string, Pending>, req: KemRequest, now: real, crypto: Crypto)
    requires KemCheck(pending, req, now, crypto).Err?
    ensures forall sid :: sid in KemEffect(pending, req, now, crypto) ==>
      sid in pending && KemEffect(pending, req, now, crypto)[sid] == pending[sid]
  {
  }

  lemma AcceptKeepsInv(w: World, w': World, e: Event, p': Pending, crypto: Crypto)
    requires Inv(w, crypto) && e.KemVerified? && e.sid in w.pending
    requires var p := w.pending[e.sid];
      && p.phase == SYN && e.at - p.createdAt <= SESSION_TTL
      && crypto.verify(e.ed25519Pk, e.signature, Transcript(e.sid, p.entityId, p.nonceC))
      && p'.phase == KEM_COMPLETE && p'.entityId == p.entityId && p'.nonceC == p.nonceC && p'.createdAt == p.createdAt
    requires w'.pending == w.pending[e.sid := p'] && w'.used == w.used && w'.log == w.log + [e]
    requires (w'.tasks == w.tasks && w'.next == w.next)
      || (w'.tasks == w.tasks[w.next := e.sid] && w'.next == w.next + 1)
    ensures Inv(w', crypto)
  {
    assert SessionInv(w, e.sid, crypto);
    forall s: string ensures SessionInv(w', s, crypto) {
      assert SessionInv(w, s, crypto);
      TraceAppend(w.log, e, s);
    }
  }

  lemma KemKeepsInv(w: World, req: KemRequest, now: real, engineReady: bool, crypto: Crypto)
    requires Inv(w, crypto)
    ensures Inv(AfterKem(w, req, now, engineReady, crypto), crypto)
  {
    var w' := AfterKem(w, req, now, engineReady, crypto);
    var c := KemCheck(w.pending, req, now, crypto);
    if c.Ok? {
      AcceptedKem(w.pending, req, now, crypto);
      var e := KemVerified(req.sessionId,
                         crypto.fromHex(req.ed25519Pk).value, crypto.fromHex(req.signature).value, now);
      AcceptKeepsInv(w, w', e, c.value, crypto);
    } else {
      RefusedKem(w.pending, req, now, crypto);
      ShrinkKeepsInv(w, w', crypto);
    }
  }

  lemma DecideKeepsInv(w: World, task: nat, verdict: Verdict, crypto: Crypto)
    requires Inv(w, crypto) && task in w.tasks
    ensures var w' := w.(tasks := w.tasks - {task}, log := w.log + [Decided(w.tasks[task], verdict)]);
      Inv(w', crypto) && |Trace(w'.log, w.tasks[task])| == 3
        && Trace(w'.log, w.tasks[task])[2] == Decided(w.tasks[task], verdict)
  {
    var sid := w.tasks[task];
    var w' := w.(tasks := w.tasks - {task}, log := w.log + [Decided(sid, verdict)]);
    assert SessionInv(w, sid, crypto);
    forall s: string ensures SessionInv(w', s, crypto) {
      assert SessionInv(w, s, crypto);
      TraceAppend(w.log, Decided(sid, verdict), s);
    }
    TraceAppend(w.log, Decided(sid, verdict), sid);
  }

  lemma TokenKeepsInv(w: World, sid: string, token: string, crypto: Crypto)
    requires Inv(w, crypto) && |Trace(w.log, sid)| == 3
    requires Trace(w.log, sid)[2].Decided? && Trace(w.log, sid)[2].verdict != DENY
    ensures Inv(w.(pending := w.pending - {sid}, log := w.log + [TokenIssued(sid, token)]), crypto)
  {
    var w' := w.(pending := w.pending - {sid}, log := w.log + [TokenIssued(sid, token)]);
    assert SessionInv(w, sid, crypto);
    forall s: string ensures SessionInv(w', s, crypto) {
      assert SessionInv(w, s, crypto);
      TraceAppend(w.log, TokenIssued(sid, token), s);
    }
  }

  lemma ResumeKeepsInv(w: World, task: nat, verdict: Verdict, token: string, crypto: Crypto)
    requires Inv(w, crypto) && task in w.tasks
    ensures Inv(AfterResume(w, task, verdict, token), crypto)
  {
    var sid := w.tasks[task];
    DecideKeepsInv(w, task, verdict, crypto);
    if verdict != DENY && sid in w.pending {
      TokenKeepsInv(w.(tasks := w.tasks - {task}, log := w.log + [Decided(sid, verdict)]), sid, token, crypto);
    }
  }

  lemma ShrinkKeepsInv(w: World, w': World, crypto: Crypto)
    requires Inv(w, crypto)
    requires w'.log == w.log && w'.used == w.used && w'.next == w.next
    requires forall sid :: sid in w'.pending ==> sid in w.pending && w'.pending[sid] == w.pending[sid]
    requires forall t :: t in w'.tasks ==> t in w.tasks && w'.tasks[t] == w.tasks[t]
    ensures Inv(w', crypto)
  {
    forall s: string ensures SessionInv(w', s, crypto) {
      assert SessionInv(w, s, crypto);
    }
  }

  lemma StepKeepsInv(w: World, s: Step, crypto: Crypto)
    requires Inv(w, crypto)
    ensures Inv(Exec(w, s, crypto), crypto)
  {
    match s {
      case Syn(sid, p) => if sid !in w.used && p.phase == SYN { SynKeepsInv(w, sid, p, crypto); }
      case Kem(req, now, engineReady) => KemKeepsInv(w, req, now, engineReady, crypto);
      case Resume(task, verdict, token) => if task in w.tasks { ResumeKeepsInv(w, task, verdict, token, crypto); }
      case Abandon(task) => ShrinkKeepsInv(w, Exec(w, s, crypto), crypto);
      case Purge(now) => ShrinkKeepsInv(w, Exec(w, s, crypto), crypto);
    }
  }

  lemma {:induction false} RunKeepsInv(w: World, steps: seq<Step>, crypto: Crypto)
    requires Inv(w, crypto)
    ensures Inv(Run(w, steps, crypto), crypto)
    decreases steps
  {
    if steps != [] {
      StepKeepsInv(w, steps[0], crypto);
      RunKeepsInv(Exec(w, steps[0], crypto), steps[1..], crypto);
    }
  }

  /** Handshake safety: over every interleaving, every session lives a lawful life. */
  lemma EverySessionIsLawful(steps: seq<Step>, sid: string, crypto: Crypto)
    ensures Lawful(Trace(Run(EMPTY_WORLD, steps, crypto).log, sid), sid, crypto)
  {
    assert Inv(EMPTY_WORLD, crypto);
    RunKeepsInv(EMPTY_WORLD, steps, crypto);
    assert SessionInv(Run(EMPTY_WORLD, steps, crypto), sid, crypto);
  }

  lemma {:induction false} TraceFinds(log: seq<Event>, i: nat) returns (j: nat)
    requires i < |log|
    ensures j < |Trace(log, log[i].sid)| && Trace(log, log[i].sid)[j] == log[i]
  {
    var sid := log[i].sid;
    if i == |log| - 1 {
      j := |Trace(log[..i], sid)|;
    } else {
      j := TraceFinds(log[..|log| - 1], i);
    }
  }

  /** Two different positions of the log that belong to one session have different places in its trace. */
  lemma {:induction false} TraceKeepsOrder(log: seq<Event>, i: nat, k: nat) returns (a: nat, b: nat)
    requires i < k < |log| && log[i].sid == log[k].sid
    ensures a < b < |Trace(log, log[i].sid)| && Trace(log, log[i].sid)[a] == log[i]
      && Trace(log, log[i].sid)[b] == log[k]
  {
    if k == |log| - 1 {
      var init := log[..k];
      assert init[i] == log[i];
      a := TraceFinds(init, i);
      b := |Trace(init, log[i].sid)|;
    } else {
      assert log[..|log| - 1][i] == log[i] && log[..|log| - 1][k] == log[k];
      a, b := TraceKeepsOrder(log[..|log| - 1], i, k);
    }
  }

  /** A session id never yields two tokens. */
  lemma OneTokenPerSession(steps: seq<Step>, crypto: Crypto, i: nat, k: nat)
    requires var log := Run(EMPTY_WORLD, steps, crypto).log;
      i < k < |log| && log[i].TokenIssued? && log[k].TokenIssued?
    ensures var log := Run(EMPTY_WORLD, steps, crypto).log; log[i].sid != log[k].sid
  {
    var log := Run(EMPTY_WORLD, steps, crypto).log;
    EverySessionIsLawful(steps, log[i].sid, crypto);
    if log[i].sid == log[k].sid {
      var a, b := TraceKeepsOrder(log, i, k);
    }
  }

  /** A session that was denied never gets a token, before or after. */
  lemma DeniedNeverGetsToken(steps: seq<Step>, crypto: Crypto, i: nat, k: nat)
    requires var log := Run(EMPTY_WORLD, steps, crypto).log;
      i < |log| && k < |log| && log[i] == Decided(log[i].sid, DENY) && log[k].TokenIssued?
    ensures var log := Run(EMPTY_WORLD, steps, crypto).log; log[i].sid != log[k].sid
  {
    var log := Run(EMPTY_WORLD, steps, crypto).log;
    EverySessionIsLawful(steps, log[i].sid, crypto);
    var a := TraceFinds(log, i);
    var b := TraceFinds(log, k);
  }

  // ---- What can happen to a session while its handler is suspended ----

  /** A step that neither resumes nor abandons the handler. */
  predicate Leaves(s: Step, task: nat) {
    match s
    case Resume(t, _, _) => t != task
    case Abandon(t) => t != task
    case _ => true
  }

  /** A purge, or a key completion for this session, more than 60 seconds after its SYN. */
  predicate Late(s: Step, sid: string, createdAt: real) {
    match s
    case Purge(now) => now - createdAt > SESSION_TTL
    case Kem(req, now, _) => req.sessionId == sid && now - createdAt > SESSION_TTL
    case _ => false
  }

  predicate AnyLate(steps: seq<Step>, sid: string, createdAt: real) {
    exists i :: 0 <= i < |steps| && Late(steps[i], sid, createdAt)
  }

  lemma TaskStays(w: World, s: Step, task: nat, crypto: Crypto)
    requires Inv(w, crypto) && task in w.tasks && Leaves(s, task)
    ensures var w' := Exec(w, s, crypto); task in w'.tasks && w'.tasks[task] == w.tasks[task]
  {
  }

  lemma {:induction false} TaskStaysThroughout(w: World, steps: seq<Step>, task: nat, crypto: Crypto)
    requires Inv(w, crypto) && task in w.tasks && forall i :: 0 <= i < |steps| ==> Leaves(steps[i], task)
    ensures var w' := Run(w, steps, crypto); task in w'.tasks && w'.tasks[task] == w.tasks[task]
    decreases steps
  {
    if steps != [] {
      TaskStays(w, steps[0], task, crypto);
      StepKeepsInv(w, steps[0], crypto);
      TaskStaysThroughout(Exec(w, steps[0], crypto), steps[1..], task, crypto);
    }
  }

  /** An id that was handed out and is no longer pending never becomes pending again. */
  lemma {:induction false} GoneStaysGone(w: World, steps: seq<Step>, sid: string, crypto: Crypto)
    requires sid in w.used && sid !in w.pending
    ensures sid !in Run(w, steps, crypto).pending
    decreases steps
  {
    if steps != [] {
      var s, w' := steps[0], Exec(w, steps[0], crypto);
      if s.Kem? && KemCheck(w.pending, s.req, s.now, crypto).Ok? { AcceptedKem(w.pending, s.req, s.now, crypto); }
      assert sid in w'.used && sid !in w'.pending;
      GoneStaysGone(w', steps[1..], sid, crypto);
    }
  }

  /** One step takes the session of a suspended handler away exactly when it is late. */
  lemma SuspendedStep(w: World, s: Step, task: nat, crypto: Crypto)
    requires Inv(w, crypto) && task in w.tasks && w.tasks[task] in w.pending && Leaves(s, task)
    ensures var sid, w' := w.tasks[task], Exec(w, s, crypto);
      && sid in w'.used
      && (sid in w'.pending <==> !Late(s, sid, w.pending[sid].createdAt))
      && (sid in w'.pending ==> w'.pending[sid] == w.pending[sid])
  {
    var sid := w.tasks[task];
    assert SessionInv(w, sid, crypto);
    if s.Kem? && KemCheck(w.pending, s.req, s.now, crypto).Ok? { AcceptedKem(w.pending, s.req, s.now, crypto); }
  }

  lemma AnyLateSplits(steps: seq<Step>, sid: string, createdAt: real)
    requires steps != []
    ensures AnyLate(steps, sid, createdAt) <==> Late(steps[0], sid, createdAt) || AnyLate(steps[1..], sid, createdAt)
  {
    if i: nat :| i < |steps| && Late(steps[i], sid, createdAt) {
      if i > 0 { assert steps[1..][i - 1] == steps[i]; }
    }
  }

  /** While its handler is suspended, whatever else interleaves, a session stays pending if and
      only if nothing is late: no purge, and no repeated key completion of its own, more than 60
      seconds after its SYN. */
  lemma {:induction false} SuspendedSessionSurvivesIff(w: World, steps: seq<Step>, task: nat, crypto: Crypto)
    requires Inv(w, crypto) && task in w.tasks && w.tasks[task] in w.pending
    requires forall i :: 0 <= i < |steps| ==> Leaves(steps[i], task)
    ensures var sid := w.tasks[task];
      sid in Run(w, steps, crypto).pending <==> !AnyLate(steps, sid, w.pending[sid].createdAt)
    decreases steps
  {
    if steps != [] {
      var sid, w' := w.tasks[task], Exec(w, steps[0], crypto);
      AnyLateSplits(steps, sid, w.pending[sid].createdAt);
      SuspendedStep(w, steps[0], task, crypto);
      if sid in w'.pending {
        TaskStays(w, steps[0], task, crypto);
        StepKeepsInv(w, steps[0], crypto);
        SuspendedSessionSurvivesIff(w', steps[1..], task, crypto);
      } else {
        GoneStaysGone(w', steps[1..], sid, crypto);
      }
    }
  }

  /** What the resumed handler then does: it decides in any case, and issues the token exactly when
      the verdict is not DENY and nothing was late. */
  lemma SuspendedSessionGetsTokenIff(w: World, steps: seq<Step>, task: nat, verdict: Verdict, token: string,
                                     crypto: Crypto)
    requires Inv(w, crypto) && task in w.tasks && w.tasks[task] in w.pending
    requires forall i :: 0 <= i < |steps| ==> Leaves(steps[i], task)
    ensures var sid, w' := w.tasks[task], Run(w, steps, crypto);
      && task in w'.tasks
      && AfterResume(w', task, verdict, token).log == w'.log + [Decided(sid, verdict)]
           + if verdict != DENY && !AnyLate(steps, sid, w.pending[sid].createdAt) then [TokenIssued(sid, token)] else []
  {
    TaskStaysThroughout(w, steps, task, crypto);
    SuspendedSessionSurvivesIff(w, steps, task, crypto);
  }

  /** A library that decodes and accepts everything, for the example below. */
  function Credulous(): Crypto {
    Crypto(_ => Some([]), (_, _, _) => true, (_, _) => Some([]), _ => true, (_, _) => [], _ => "")
  }

  lemma RunCons(w: World, s: Step, steps: seq<Step>, crypto: Crypto)
    ensures Run(w, [s] + steps, crypto) == Run(Exec(w, s, crypto), steps, crypto)
  {
    assert ([s] + steps)[1..] == steps;
  }

  lemma RunOne(w: World, s: Step, crypto: Crypto)
    ensures Run(w, [s], crypto) == Exec(w, s, crypto)
  {
    assert [s] == [s] + [];
    RunCons(w, s, [], crypto);
  }

  /** A session opened at time 0 and completed at time 1, its handler suspended. */
  ghost predicate Suspended(w: World, kem: KemRequest, p: Pending) {
    && w.tasks == map[0 := kem.sessionId] && w.pending.Keys == {kem.sessionId}
    && w.pending[kem.sessionId].createdAt == 0.0
    && w.log == [SynReceived(kem.sessionId, p.entityId, p.nonceC, 0.0), KemVerified(kem.sessionId, [], [], 1.0)]
  }

  lemma FirstCompletion(kem: KemRequest, p: Pending) returns (w: World)
    requires PlausibleSignature(kem.signature) && p.phase == SYN && p.createdAt == 0.0
    ensures w == Exec(Exec(EMPTY_WORLD, Syn(kem.sessionId, p), Credulous()), Kem(kem, 1.0, true), Credulous())
    ensures Suspended(w, kem, p)
  {
    var w1 := Exec(EMPTY_WORLD, Syn(kem.sessionId, p), Credulous());
    assert w1.pending == map[kem.sessionId := p];
    AcceptedKem(w1.pending, kem, 1.0, Credulous());
    w := Exec(w1, Kem(kem, 1.0, true), Credulous());
  }

  lemma RepeatLoses(w: World, kem: KemRequest, p: Pending)
    requires Suspended(w, kem, p)
    ensures Exec(Exec(w, Kem(kem, 61.0, true), Credulous()), Resume(0, ALLOW, "t"), Credulous()).log
         == w.log + [Decided(kem.sessionId, ALLOW)]
  {
    assert Exec(w, Kem(kem, 61.0, true), Credulous()).pending == map[];
  }

  /** A late repetition on concrete messages: completed one second after the SYN and allowed, the
      session earns its token; the same message again at 61 seconds, before the verdict, loses it. */
  lemma LateReplayLosesToken(kem: KemRequest, p: Pending)
    requires PlausibleSignature(kem.signature) && p.phase == SYN && p.createdAt == 0.0
    ensures var syn, once, again, resume :=
        Syn(kem.sessionId, p), Kem(kem, 1.0, true), Kem(kem, 61.0, true), Resume(0, ALLOW, "t");
      var verified := [SynReceived(kem.sessionId, p.entityId, p.nonceC, 0.0), KemVerified(kem.sessionId, [], [], 1.0)];
      && Run(EMPTY_WORLD, [syn] + ([once] + [resume]), Credulous()).log
           == verified + [Decided(kem.sessionId, ALLOW), TokenIssued(kem.sessionId, "t")]
      && Run(EMPTY_WORLD, [syn] + ([once] + ([again] + [resume])), Credulous()).log
           == verified + [Decided(kem.sessionId, ALLOW)]
  {
    var c := Credulous();
    var syn, once, again, resume :=
      Syn(kem.sessionId, p), Kem(kem, 1.0, true), Kem(kem, 61.0, true), Resume(0, ALLOW, "t");
    var w := FirstCompletion(kem, p);
    RepeatLoses(w, kem, p);
    RunCons(EMPTY_WORLD, syn, [once] + [resume], c);
    RunCons(Exec(EMPTY_WORLD, syn, c), once, [resume], c);
    RunOne(w, resume, c);
    RunCons(EMPTY_WORLD, syn, [once] + ([again] + [resume]), c);
    RunCons(Exec(EMPTY_WORLD, syn, c), once, [again] + [resume], c);
    RunCons(w, again, [resume], c);
    RunOne(Exec(w, again, c), resume, c);
  }

  // ---- The API server ----

  datatype Phase1Req = Phase1Req(
    entityId: string, intent: string, nonceC: Option<string>, x25519Pk: Option<string>, kemPk: Option<string>)

  datatype Phase3Req = Phase3Req(
    sessionId: Option<string>, kemCt: Option<string>, signature: Option<string>, ed25519Pk: Option<string>)

  const KEM_PK_HEX_LEN := 2368
  const KEM_CT_HEX_LEN := 2176

  function Status(e: HandshakeError): nat { if e == ValueError then 500 else 403 }

  /** The status a phase-1 request is refused with, if any: by the handler's own check on the length
      of the post-quantum key, or by the manager. */
  function Phase1Refusal(req: Phase1Req, requirePq: bool, mgrRequiresPq: bool, crypto: Crypto): Option<nat> {
    if requirePq && (!Truthy(req.kemPk) || |req.kemPk.value| != KEM_PK_HEX_LEN) then Some(403)
    else
      var e := SynCheck(mgrRequiresPq, crypto, req.x25519Pk, req.kemPk);
      if e.Some? then Some(Status(e.value)) else None
  }

  /** The session an accepted phase-1 request opens; a missing nonce is replaced by a drawn one. */
  function OpenedSession(req: Phase1Req, nonce: string, serverKey: Bytes, now: real, crypto: Crypto): Pending {
    NewPending(crypto, req.entityId, req.intent, if Truthy(req.nonceC) then req.nonceC.value else nonce, req.x25519Pk,
               serverKey, now)
  }

  /** The status a phase-3 request is refused with before the manager sees it, if any. */
  function Phase3Refusal(req: Phase3Req, requirePq: bool): Option<nat> {
    if requirePq && (!Truthy(req.kemCt) || |req.kemCt.value| != KEM_CT_HEX_LEN) then Some(403)
    else if !Truthy(req.sessionId) then Some(400)
    else if !Truthy(req.kemCt) || !Truthy(req.signature) || !Truthy(req.ed25519Pk) then Some(400)
    else None
  }

  function ToKem(req: Phase3Req): KemRequest
    requires Phase3Refusal(req, false).None?
  {
    KemRequest(req.sessionId.value, req.kemCt.value, req.signature.value, req.ed25519Pk.value)
  }

  /** All four parts of a phase-3 request are present and not empty. */
  predicate Complete(req: Phase3Req) {
    && req.sessionId.Some? && req.sessionId.value != "" && req.kemCt.Some? && req.kemCt.value != ""
    && req.signature.Some? && req.signature.value != "" && req.ed25519Pk.Some? && req.ed25519Pk.value != ""
  }

  /** The request's own signature and key verify over the session as it was opened. */
  predicate SignedFor(req: Phase3Req, ps: PendingSession, crypto: Crypto)
    requires Complete(req)
  {
    var pk, sig := crypto.fromHex(req.ed25519Pk.value), crypto.fromHex(req.signature.value);
    pk.Some? && sig.Some? && crypto.verify(pk.value, sig.value, Transcript(req.sessionId.value, ps.entityId, ps.nonceC))
  }

  /** Which phase-3 requests are refused before the manager sees them, and how. */
  lemma Phase3RefusalMeaning(req: Phase3Req, requirePq: bool)
    ensures var ciphertextFits := req.kemCt.Some? && |req.kemCt.value| == 2176;
      && (Phase3Refusal(req, requirePq) == Some(403) <==> requirePq && !ciphertextFits)
      && (Phase3Refusal(req, requirePq) == Some(400) <==> (requirePq ==> ciphertextFits) && !Complete(req))
      && (Phase3Refusal(req, requirePq) == None <==> (requirePq ==> ciphertextFits) && Complete(req))
  {
  }

  /** Which phase-1 requests are refused, and how: 403 for a missing or ill-sized post-quantum key, 500
      for key bytes that do not decode or cannot be used. */
  lemma Phase1RefusalMeaning(req: Phase1Req, requirePq: bool, crypto: Crypto)
    ensures var fits := req.kemPk.Some? && |req.kemPk.value| == 2368;
      var kem := if req.kemPk.Some? && req.kemPk.value != "" then crypto.fromHex(req.kemPk.value) else Some([]);
      var x := if req.x25519Pk.Some? && req.x25519Pk.value != "" then crypto.fromHex(req.x25519Pk.value) else Some([]);
      var usable := kem.Some? && x.Some? && (kem.value != [] ==> crypto.encapsulates(kem.value));
      Phase1Refusal(req, requirePq, requirePq, crypto) ==
        if requirePq && !fits then Some(403) else if !usable then Some(500) else None
  {
  }

  ghost function SessionIds(tasks: map<nat, PendingSession>): map<nat, string> {
    map t | t in tasks :: tasks[t].sessionId
  }

  lemma SessionIdsRemove(tasks: map<nat, PendingSession>, task: nat)
    requires task in tasks
    ensures SessionIds(tasks - {task}) == SessionIds(tasks) - {task}
    ensures SessionIds(tasks)[task] == tasks[task].sessionId
  {
  }

  lemma SessionIdsAdd(tasks: map<nat, PendingSession>, task: nat, ps: PendingSession)
    ensures SessionIds(tasks[task := ps]) == SessionIds(tasks)[task := ps.sessionId]
  {
  }

  /** The handler of /api/handshake around one manager. A suspended phase-3 handler holds on to
      its session object; ghost fields record when each id was handed out, and the history. */
  class ApiServer {
    const requirePq: bool
    const mgr: HandshakeManager
    var tasks: map<nat, PendingSession>
    var next: nat
    ghost var synAt: map<string, real>
    ghost var log: seq<Event>

    ghost predicate Valid()
      reads this, mgr
    {
      && mgr.Valid()
      && forall sid :: sid in mgr.pending ==> sid in synAt && mgr.pending[sid].createdAt == synAt[sid]
    }

    ghost function State(): World
      reads this, mgr, mgr.pending.Values
    {
      World(mgr.View(), SessionIds(tasks), next, synAt.Keys, log)
    }

    constructor (requirePq: bool, crypto: Crypto)
      ensures Valid() && fresh(mgr) && State() == EMPTY_WORLD && synAt == map[] && mgr.crypto == crypto
    {
      this.requirePq := requirePq;
      mgr := new HandshakeManager(requirePq, crypto);
      tasks, next, synAt, log := map[], 0, map[], [];
    }

    /** `sid`, `nonce` and `serverKey` are the random values the handler draws. */
    method Phase1(req: Phase1Req, sid: string, nonce: string, serverKey: Bytes, now: real)
        returns (r: Result<string, nat>)
      requires Valid() && sid !in synAt
      modifies this, mgr
      ensures Valid()
      ensures var refusal := Phase1Refusal(req, requirePq, mgr.requirePq, mgr.crypto);
        if refusal.Some? then r == Err(refusal.value) && State() == old(State())
        else r == Ok(sid) && State() == Exec(
          old(State()), Syn(sid, OpenedSession(req, nonce, serverKey, now, mgr.crypto)), mgr.crypto)
      ensures synAt == if r.Ok? then old(synAt)[sid := now] else old(synAt)
      ensures r.Ok? ==> sid in mgr.pending && var p := mgr.pending[sid];
        && p.createdAt == now && p.entityId == req.entityId && p.intent == req.intent
        && p.nonceC == (if req.nonceC.Some? && req.nonceC.value != "" then req.nonceC.value else nonce)
    {
      if requirePq && (!Truthy(req.kemPk) || |req.kemPk.value| != KEM_PK_HEX_LEN) {
        return Err(403);
      }
      r := Open(req, if Truthy(req.nonceC) then req.nonceC.value else nonce, sid, serverKey, now);
    }

    /** The SYN reaches the manager. */
    method Open(req: Phase1Req, nonceC: string, sid: string, serverKey: Bytes, now: real)
        returns (r: Result<string, nat>)
      requires Valid() && sid !in synAt
      modifies this, mgr
      ensures Valid()
      ensures var e := SynCheck(mgr.requirePq, mgr.crypto, req.x25519Pk, req.kemPk);
        if e.Some? then r == Err(Status(e.value)) && State() == old(State())
        else r == Ok(sid) && State() == AfterSyn(
          old(State()), sid, NewPending(mgr.crypto, req.entityId, req.intent, nonceC, req.x25519Pk, serverKey, now))
      ensures synAt == if r.Ok? then old(synAt)[sid := now] else old(synAt)
      ensures r.Ok? ==> sid in mgr.pending && var p := mgr.pending[sid];
        p.createdAt == now && p.entityId == req.entityId && p.intent == req.intent && p.nonceC == nonceC
    {
      ghost var w := State();
      ghost var p := NewPending(mgr.crypto, req.entityId, req.intent, nonceC, req.x25519Pk, serverKey, now);
      var ps := mgr.ReceiveSyn(req.entityId, req.intent, nonceC, req.x25519Pk, req.kemPk, sid, serverKey, now);
      if ps.Err? {
        assert State() == w;
        return Err(Status(ps.error));
      }
      assert State() == w.(pending := w.pending[sid := p]);
      synAt := synAt[sid := now];
      log := log + [SynReceived(sid, p.entityId, p.nonceC, p.createdAt)];
      assert State() == AfterSyn(w, sid, p);
      return Ok(sid);
    }

    /** Phase 3 up to the await: Ok is the suspended handler, 503 an accepted completion without an
        engine. An accepted completion comes at most 60 seconds after the phase-1 request of its
        session and carries a signature over that session; a later one is refused. */
    method Phase3(req: Phase3Req, now: real, engineReady: bool) returns (r: Result<nat, nat>)
      requires Valid()
      modifies this`tasks, this`next, this`log, mgr, mgr.pending.Values
      ensures Valid()
      ensures Phase3Refusal(req, requirePq).Some? ==>
        r == Err(Phase3Refusal(req, requirePq).value) && State() == old(State())
      ensures Phase3Refusal(req, requirePq).None? ==>
        var c := KemCheck(old(State()).pending, ToKem(req), now, mgr.crypto);
        && State() == Exec(old(State()), Kem(ToKem(req), now, engineReady), mgr.crypto)
        && r == if c.Err? then Err(Status(c.error)) else if engineReady then Ok(old(next)) else Err(503)
      ensures r.Ok? || r == Err(503) ==>
        && Complete(req) && req.sessionId.value in synAt && req.sessionId.value in old(mgr.pending)
        && now - synAt[req.sessionId.value] <= 60.0
        && SignedFor(req, old(mgr.pending)[req.sessionId.value], mgr.crypto)
      ensures Complete(req) && req.sessionId.value in synAt && now - synAt[req.sessionId.value] > 60.0 ==>
        r == Err(403) && (Phase3Refusal(req, requirePq).None? ==> req.sessionId.value !in mgr.pending)
    {
      if Phase3Refusal(req, requirePq).Some? {
        return Err(Phase3Refusal(req, requirePq).value);
      }
      var kem := ToKem(req);
      KemAcceptedIff(State().pending, kem, now, mgr.crypto);
      KemRefusedFirst(State().pending, kem, now, mgr.crypto);
      r := BeginEvaluation(kem, now, engineReady);
    }

    method BeginEvaluation(kem: KemRequest, now: real, engineReady: bool) returns (r: Result<nat, nat>)
      requires Valid()
      modifies this`tasks, this`next, this`log, mgr, mgr.pending.Values
      ensures Valid()
      ensures State() == AfterKem(old(State()), kem, now, engineReady, mgr.crypto)
      ensures var c := KemCheck(old(State()).pending, kem, now, mgr.crypto);
        r == if c.Err? then Err(Status(c.error)) else if engineReady then Ok(old(next)) else Err(503)
    {
      ghost var w := State();
      var ps := mgr.ReceiveKemComplete(kem, now);
      assert State() == w.(pending := KemEffect(w.pending, kem, now, mgr.crypto));
      if ps.Err? {
        return Err(Status(ps.error));
      }
      assert ps.value.sessionId == kem.sessionId;
      r := Suspend(ps.value, engineReady,
                   KemVerified(kem.sessionId,
                               mgr.crypto.fromHex(kem.ed25519Pk).value, mgr.crypto.fromHex(kem.signature).value, now));
    }

    /** The handler reaches its await, if there is an engine to wait for. */
    method Suspend(ps: PendingSession, engineReady: bool, ghost e: Event) returns (r: Result<nat, nat>)
      requires Valid()
      modifies this`tasks, this`next, this`log
      ensures Valid() && r == if engineReady then Ok(old(next)) else Err(503)
      ensures var w := old(State()).(log := old(log) + [e]);
        State() == if engineReady then w.(tasks := w.tasks[w.next := ps.sessionId], next := w.next + 1) else w
    {
      log := log + [e];
      if !engineReady {
        return Err(503);
      }
      SessionIdsAdd(tasks, next, ps);
      tasks := tasks[next := ps];
      next := next + 1;
      return Ok(next - 1);
    }

    /** The rest of the handler once the engine has answered. */
    method ResumePhase3(task: nat, verdict: Verdict, token: string) returns (r: Result<string, nat>)
      requires Valid() && task in tasks
      modifies this`tasks, this`log, mgr, mgr.pending.Values
      ensures Valid()
      ensures State() == Exec(old(State()), Resume(task, verdict, token), mgr.crypto)
      ensures r == if verdict != DENY && old(tasks[task].sessionId) in old(State()).pending then Ok(token) else Err(403)
      ensures r.Ok? ==> old(tasks[task].sessionId) !in mgr.pending
    {
      var sid := WakeUp(task, verdict);
      if verdict == DENY {
        return Err(403);
      }
      r := Finish(sid, token);
    }

    /** The handler continues with the engine's verdict on its session. */
    method WakeUp(task: nat, verdict: Verdict) returns (sid: string)
      requires Valid() && task in tasks
      modifies this`tasks, this`log
      ensures Valid() && sid == old(tasks[task].sessionId) && old(State()).tasks[task] == sid
      ensures State() == old(State()).(tasks := old(State()).tasks - {task}, log := old(log) + [Decided(sid, verdict)])
    {
      sid := tasks[task].sessionId;
      SessionIdsRemove(tasks, task);
      tasks := tasks - {task};
      log := log + [Decided(sid, verdict)];
    }

    /** The evaluation raised, or the request was cancelled: the handler ends without an answer. */
    method AbandonPhase3(task: nat)
      requires Valid() && task in tasks
      modifies this`tasks
      ensures Valid() && State() == Exec(old(State()), Abandon(task), mgr.crypto)
    {
      SessionIdsRemove(tasks, task);
      tasks := tasks - {task};
    }

    method Finish(sid: string, token: string) returns (r: Result<string, nat>)
      requires Valid()
      modifies this`log, mgr, mgr.pending.Values
      ensures Valid()
      ensures var w := old(State());
        && r == (if sid in w.pending then Ok(token) else Err(403))
        && State() == if sid in w.pending
             then w.(pending := w.pending - {sid}, log := w.log + [TokenIssued(sid, token)]) else w
    {
      var done := mgr.CompleteSession(sid, token);
      if done.Err? {
        assert old(mgr.View()) - {sid} == old(mgr.View());
        return Err(Status(done.error));
      }
      log := log + [TokenIssued(sid, token)];
      return Ok(done.value);
    }

    method PurgeExpired(now: real)
      requires Valid()
      modifies mgr
      ensures Valid() && State() == Exec(old(State()), Purge(now), mgr.crypto)
    {
      mgr.PurgeExpired(now);
    }
  }
}
