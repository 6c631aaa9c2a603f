/** The Sentinel and the fallback rules together: the verdict reached without Ollama is the one
    the raw, unbounded request history calls for. */
module EndToEnd {
  import opened Common
  import opened Trust
  import opened Sentinel
  import TrustEngine
  import VerdictCache
  import Protocol

  /** The verdict on the last request, read directly off the raw history. */
  function RawVerdict(history: seq<Request>): Verdict
    requires history != []
  {
    var r := Last(history);
    var connections := Tally(history, Connection, r.key, r.now, 1.0);
    var enrolments := if r.enrol then Tally(history, Enrolment, r.key, r.now, 5.0) else 0;
    var attempts := if r.auth then Tally(history, Auth, r.key, r.now, 60.0) else 0;
    if connections > 100 || enrolments > 20 || attempts > 50 then DENY
    else if connections > 50 || enrolments > 10 || attempts > 20 then MONITOR
    else ALLOW
  }

  lemma SynNumber(history: seq<Request>)
    requires history != []
    ensures var n := Seen(history, Connection);
      Number(Report(history), "syn_rate_per_second") == Ok(if n > 50 then n as real else 0.0)
  {
  }

  lemma EnrolNumber(history: seq<Request>)
    requires history != []
    ensures var n := Seen(history, Enrolment);
      Number(Report(history), "enrollment_count_from_ip")
        == Ok(if Last(history).enrol && n > 10 then n as real else 0.0)
  {
  }

  lemma AuthNumber(history: seq<Request>)
    requires history != []
    ensures var n := Seen(history, Auth);
      Number(Report(history), "failed_auth_attempts") == Ok(if Last(history).auth && n > 20 then n as real else 0.0)
  {
  }

  lemma PortsNumber(history: seq<Request>)
    requires history != []
    ensures Number(Report(history), "ports_probed") == Ok(0.0)
  {
  }

  lemma ReportEmptyIff(history: seq<Request>)
    requires history != []
    ensures var r := Last(history);
      Report(history) == map[] <==>
        Seen(history, Connection) <= 50
        && (r.enrol ==> Seen(history, Enrolment) <= 10) && (r.auth ==> Seen(history, Auth) <= 20)
  {
    if Report(history) == map[] {
      assert "pattern" !in Report(history);
    }
  }

  /** End to end: the fallback verdict on the detector's bounded-queue report is the verdict on
      the unbounded history, and the fallback never raises on such a report. */
  lemma FallbackIsRawVerdict(history: seq<Request>)
    requires history != []
    ensures var v := Fallback(Dict(Report(history))); v.Ok? && v.value.verdict == RawVerdict(history)
  {
    SynNumber(history);
    EnrolNumber(history);
    AuthNumber(history);
    PortsNumber(history);
    ReportEmptyIff(history);
  }

  /** The engine without Ollama, because the breaker is open or the call failed, answers with the
      raw verdict on the detector's report, and a failed call is held against Ollama once. */
  lemma EngineWithoutOllama(b: TrustEngine.Breaker, e: TrustEngine.Eval, history: seq<Request>,
                            threshold: int, recovery: int)
    requires history != [] && e.field == Dict(Report(history))
    requires !TrustEngine.Grants(b, e.start, recovery) || TrustEngine.Failed(e.oracle)
    ensures var r := TrustEngine.Outcome(b, e, recovery); r.Ok? && r.value.verdict == RawVerdict(history)
    ensures TrustEngine.After(b, e, threshold, recovery).failures
         == b.failures + (if TrustEngine.Grants(b, e.start, recovery) then 1 else 0)
  {
    FallbackIsRawVerdict(history);
    TrustEngine.AfterCases(b, e, threshold, recovery);
  }

  // ---- From Ollama's answer to the handshake ----

  /** What an answer of the client, cached or not, amounts to for the engine: a verdict, never an exception. */
  function OracleOf(r: VerdictCache.Response): TrustEngine.Oracle { TrustEngine.Answers(r.v) }

  /** Whatever the exception says, the client's error verdict is MONITOR with confidence 0, repeats at
      most 60 characters of it, and counts as a failure for the engine. */
  lemma ErrorsCountAsFailures(message: string)
    ensures var v := VerdictCache.ErrorVerdict(message);
      && v.verdict == MONITOR && v.confidence == 0.0
      && "ollama_error:" <= v.reason && |v.reason| == 13 + Min(|message|, 60)
      && v.reason[13..] == message[..Min(|message|, 60)]
      && TrustEngine.Failed(OracleOf(VerdictCache.Response(v, false)))
  {
    assert ("ollama_error:" + message[..Min(|message|, 60)])[..13] == "ollama_error:";
    if |message| <= 60 { assert message[..|message|] == message; }
  }

  /** A denial by Ollama reaches the handshake: an engine that asks and is told DENY denies, and the
      suspended handler then decides DENY and issues no token. */
  lemma DenialReachesTheHandshake(b: TrustEngine.Breaker, e: TrustEngine.Eval, recovery: int,
                                  r: VerdictCache.Response, w: Protocol.World, task: nat, token: string)
    requires b.state == TrustEngine.OPEN ==> e.start - b.openedAt > recovery as real
    requires e.oracle == OracleOf(r) && r.v.verdict == DENY && !("ollama_error:" <= r.v.reason)
    requires task in w.tasks
    ensures var outcome := TrustEngine.Outcome(b, e, recovery);
      && outcome == Ok(r.v)
      && Protocol.AfterResume(w, task, outcome.value.verdict, token)
           == w.(tasks := w.tasks - {task}, log := w.log + [Protocol.Decided(w.tasks[task], DENY)])
  {
    TrustEngine.WhoDecides(b, e, recovery);
  }

  /** An allowing answer does too: the session that is still pending gets its token. */
  lemma ApprovalReachesTheHandshake(b: TrustEngine.Breaker, e: TrustEngine.Eval, recovery: int,
                                    r: VerdictCache.Response, w: Protocol.World, task: nat, token: string)
    requires b.state == TrustEngine.OPEN ==> e.start - b.openedAt > recovery as real
    requires e.oracle == OracleOf(r) && r.v.verdict != DENY && !("ollama_error:" <= r.v.reason)
    requires task in w.tasks && w.tasks[task] in w.pending
    ensures var outcome, sid := TrustEngine.Outcome(b, e, recovery), w.tasks[task];
      && outcome == Ok(r.v)
      && Protocol.AfterResume(w, task, outcome.value.verdict, token).log
           == w.log + [Protocol.Decided(sid, r.v.verdict), Protocol.TokenIssued(sid, token)]
  {
    TrustEngine.WhoDecides(b, e, recovery);
  }

  // ---- More past events never lower the severity ----

  function Severity(v: Verdict): nat {
    match v
    case ALLOW => 0
    case MONITOR => 1
    case DENY => 2
  }

  /** a is what is left of b after deleting some requests. */
  predicate Thins(a: seq<Request>, b: seq<Request>)
    decreases b
  {
    a == [] || (b != [] && ((a[0] == b[0] && Thins(a[1..], b[1..])) || Thins(a, b[1..])))
  }

  lemma {:induction false} ThinningLowersTally(a: seq<Request>, b: seq<Request>, kind: Kind,
                                          key: string, now: real, window: real)
    requires Thins(a, b)
    ensures Tally(a, kind, key, now, window) <= Tally(b, kind, key, now, window)
    decreases b
  {
    if a != [] {
      if a[0] == b[0] && Thins(a[1..], b[1..]) {
        ThinningLowersTally(a[1..], b[1..], kind, key, now, window);
      } else {
        ThinningLowersTally(a, b[1..], kind, key, now, window);
      }
    }
  }

  /** Adding past events, anywhere in the history, never lowers the verdict on the last request. */
  lemma MorePastNeverLowersSeverity(a: seq<Request>, b: seq<Request>)
    requires a != [] && b != [] && Thins(a, b) && Last(a) == Last(b)
    ensures Severity(RawVerdict(a)) <= Severity(RawVerdict(b))
  {
    var r := Last(a);
    ThinningLowersTally(a, b, Connection, r.key, r.now, 1.0);
    ThinningLowersTally(a, b, Enrolment, r.key, r.now, 5.0);
    ThinningLowersTally(a, b, Auth, r.key, r.now, 60.0);
  }
}
