/** The circuit breaker and the hybrid trust engine around it (kelan/ai/engine.py:42-80 and
    103-168). The breaker of kelan-python/kelan/ai/engine.py:27-72 has the same transitions. */
module TrustEngine {
  import opened Common
  import opened Trust

  datatype CbState = CLOSED | OPEN | HALF_OPEN

  datatype Breaker = Breaker(state: CbState, failures: nat, openedAt: real)

  const NEW_BREAKER := Breaker(CLOSED, 0, 0.0)

  datatype Op = Allow(now: real) | Success | Failure(now: real)

  /** Whether a call at `now` is let through to Ollama. In HALF_OPEN every call is. */
  predicate Grants(b: Breaker, now: real, recovery: int) {
    b.state != OPEN || now - b.openedAt > recovery as real
  }

  function Apply(b: Breaker, op: Op, threshold: int, recovery: int): Breaker {
    match op
    case Allow(now) => if b.state == OPEN && Grants(b, now, recovery) then b.(state := HALF_OPEN) else b
    case Success => b.(failures := 0, state := CLOSED)
    case Failure(now) => Breaker(if b.failures + 1 >= threshold then OPEN else b.state, b.failures + 1, now)
  }

  function Run(b: Breaker, ops: seq<Op>, threshold: int, recovery: int): Breaker {
    if ops == [] then b
    else Apply(Run(b, ops[..|ops| - 1], threshold, recovery), ops[|ops| - 1], threshold, recovery)
  }

  class CircuitBreaker {
    const threshold: int
    const recovery: int
    var failures: nat
    var openedAt: real
    var state: CbState

    function View(): Breaker
      reads this
    {
      Breaker(state, failures, openedAt)
    }

    constructor (threshold: int, recovery: int)
      ensures this.threshold == threshold && this.recovery == recovery && View() == NEW_BREAKER
    {
      this.threshold, this.recovery := threshold, recovery;
      failures, openedAt, state := 0, 0.0, CLOSED;
    }

    method RecordSuccess()
      modifies this
      ensures View() == Apply(old(View()), Success, threshold, recovery)
    {
      failures := 0;
      state := CLOSED;
    }

    method RecordFailure(now: real)
      modifies this
      ensures View() == Apply(old(View()), Failure(now), threshold, recovery)
    {
      failures := failures + 1;
      openedAt := now;
      if failures >= threshold {
        state := OPEN;
      }
    }

    method AllowCall(now: real) returns (granted: bool)
      modifies this
      ensures View() == Apply(old(View()), Allow(now), threshold, recovery)
      ensures granted == Grants(old(View()), now, recovery)
    {
      if state == CLOSED {
        return true;
      }
      if state == OPEN {
        if now - openedAt > recovery as real {
          state := HALF_OPEN;
          return true;
        }
        return false;
      }
      return true;
    }
  }

  // ---- What the breaker's state means ----

  /** The length of the trailing run of failed results; asking for permission is no result. */
  function TrailingFailures(ops: seq<Op>): nat {
    if ops == [] then 0
    else match ops[|ops| - 1]
      case Allow(_) => TrailingFailures(ops[..|ops| - 1])
      case Success => 0
      case Failure(_) => TrailingFailures(ops[..|ops| - 1]) + 1
  }

  /** The time of the latest failure, or `start` when there is none. */
  function LatestFailure(ops: seq<Op>, start: real): real {
    if ops == [] then start
    else match ops[|ops| - 1]
      case Failure(now) => now
      case _ => LatestFailure(ops[..|ops| - 1], start)
  }

  /** Whether permission was asked, since the latest result, more than `recovery` after the latest failure. */
  predicate Probed(ops: seq<Op>, start: real, recovery: int) {
    ops != [] &&
    match ops[|ops| - 1]
    case Allow(now) =>
      now - LatestFailure(ops, start) > recovery as real || Probed(ops[..|ops| - 1], start, recovery)
    case _ => false
  }

  /** A breaker that was just built, or whose latest result is a success. */
  predicate Healthy(b: Breaker) { b.state == CLOSED && b.failures == 0 }

  /** Under any order of calls, the counter is the trailing run of failures, the breaker is
      closed exactly while that run is below the threshold, half-open exactly when a probe has
      been granted since, and `openedAt` is the time of the latest failure. */
  lemma {:induction false} BreakerMeaning(b: Breaker, ops: seq<Op>, threshold: int, recovery: int)
    requires Healthy(b) && threshold >= 1
    ensures var r := Run(b, ops, threshold, recovery);
      && r.failures == TrailingFailures(ops)
      && (r.state == CLOSED <==> TrailingFailures(ops) < threshold)
      && (r.state == HALF_OPEN <==> TrailingFailures(ops) >= threshold && Probed(ops, b.openedAt, recovery))
      && r.openedAt == LatestFailure(ops, b.openedAt)
  {
    if ops != [] { BreakerMeaning(b, ops[..|ops| - 1], threshold, recovery); }
  }

  ghost predicate ClosedIffBelow(ops: seq<Op>, threshold: int, recovery: int) {
    Run(NEW_BREAKER, ops, threshold, recovery).state == CLOSED <==> TrailingFailures(ops) < threshold
  }

  /** The reading of CLOSED needs a positive threshold, and holds of every run exactly then. */
  lemma ClosedMeaningIff(threshold: int, recovery: int)
    ensures (forall ops :: ClosedIffBelow(ops, threshold, recovery)) <==> threshold >= 1
  {
    if threshold >= 1 {
      forall ops ensures ClosedIffBelow(ops, threshold, recovery) {
        BreakerMeaning(NEW_BREAKER, ops, threshold, recovery);
      }
    } else {
      assert !ClosedIffBelow([], threshold, recovery);
    }
  }

  /** A call is granted exactly when too few failures trail, or more than `recovery` has passed
      since the latest one, now or at an earlier probe since. */
  lemma GrantMeaning(b: Breaker, ops: seq<Op>, now: real, threshold: int, recovery: int)
    requires Healthy(b) && threshold >= 1
    ensures Grants(Run(b, ops, threshold, recovery), now, recovery)
      <==> TrailingFailures(ops) < threshold || Probed(ops + [Allow(now)], b.openedAt, recovery)
  {
    BreakerMeaning(b, ops, threshold, recovery);
    assert (ops + [Allow(now)])[..|ops|] == ops;
    assert LatestFailure(ops + [Allow(now)], b.openedAt) == LatestFailure(ops, b.openedAt);
  }

  /** From any state at all, one success restores the full tolerance: afterwards the breaker
      stays closed, and grants every call, until `threshold` results in a row have failed. */
  lemma SuccessRestoresTolerance(b: Breaker, ops: seq<Op>, now: real, threshold: int, recovery: int)
    requires threshold >= 1 && TrailingFailures(ops) < threshold
    ensures var r := Run(Apply(b, Success, threshold, recovery), ops, threshold, recovery);
      r.state == CLOSED && Grants(r, now, recovery)
    ensures TrailingFailures(ops) == threshold - 1 ==>
      Run(Apply(b, Success, threshold, recovery), ops + [Failure(now)], threshold, recovery).state == OPEN
  {
    var healthy := Apply(b, Success, threshold, recovery);
    BreakerMeaning(healthy, ops, threshold, recovery);
    assert (ops + [Failure(now)])[..|ops|] == ops;
  }

  /** HALF_OPEN is not limited to one probe: until a result arrives, every further call is granted. */
  lemma {:induction false} HalfOpenGrantsEveryone(b: Breaker, ops: seq<Op>, now: real, threshold: int, recovery: int)
    requires b.state == HALF_OPEN && forall i :: 0 <= i < |ops| ==> ops[i].Allow?
    ensures Run(b, ops, threshold, recovery) == b && Grants(b, now, recovery)
  {
    if ops != [] { HalfOpenGrantsEveryone(b, ops[..|ops| - 1], now, threshold, recovery); }
  }

  // ---- The engine ----

  /** What the Ollama client does with a session: raise, or answer. */
  datatype Oracle = Raises | Answers(v: TrustVerdict)

  const ERROR_PREFIX := "ollama_error:"

  predicate Failed(o: Oracle) { o.Raises? || ERROR_PREFIX <= o.v.reason }

  /** One evaluation: the session's anomalies, when it starts, what Ollama would do, and when that is over. */
  datatype Eval = Eval(field: AnomalyField, start: real, oracle: Oracle, end: real)

  /** The breaker operations an evaluation performs. When an error verdict meets anomalies that
      the fallback rules reject, the failure is recorded a second time. */
  function BreakerOps(b: Breaker, e: Eval, recovery: int): seq<Op> {
    [Allow(e.start)]
    + if !Grants(b, e.start, recovery) then []
      else if !Failed(e.oracle) then [Success]
      else if e.oracle.Answers? && Fallback(e.field).Err? then [Failure(e.end), Failure(e.end)]
      else [Failure(e.end)]
  }

  /** Ollama's answer when it is asked and answers; the fallback rules otherwise. */
  function Outcome(b: Breaker, e: Eval, recovery: int): Result<TrustVerdict, Error> {
    if Grants(b, e.start, recovery) && !Failed(e.oracle) then Ok(e.oracle.v) else Fallback(e.field)
  }

  function After(b: Breaker, e: Eval, threshold: int, recovery: int): Breaker {
    Run(b, BreakerOps(b, e, recovery), threshold, recovery)
  }

  datatype Counts = Counts(total: nat, allow: nat, deny: nat, monitor: nat, fallbacks: nat)

  function Tallied(c: Counts, v: Verdict, fallback: bool): Counts {
    var f := c.fallbacks + (if fallback then 1 else 0);
    match v
    case ALLOW => c.(total := c.total + 1, allow := c.allow + 1, fallbacks := f)
    case DENY => c.(total := c.total + 1, deny := c.deny + 1, fallbacks := f)
    case MONITOR => c.(total := c.total + 1, monitor := c.monitor + 1, fallbacks := f)
  }

  lemma RunOne(b: Breaker, x: Op, threshold: int, recovery: int)
    ensures Run(b, [x], threshold, recovery) == Apply(b, x, threshold, recovery)
  {
    assert [x][..0] == [];
  }

  lemma RunTwo(b: Breaker, x: Op, y: Op, threshold: int, recovery: int)
    ensures Run(b, [x, y], threshold, recovery) == Apply(Apply(b, x, threshold, recovery), y, threshold, recovery)
  {
    assert [x, y][..1] == [x];
    RunOne(b, x, threshold, recovery);
  }

  lemma RunThree(b: Breaker, x: Op, y: Op, z: Op, threshold: int, recovery: int)
    ensures Run(b, [x, y, z], threshold, recovery)
         == Apply(Apply(Apply(b, x, threshold, recovery), y, threshold, recovery), z, threshold, recovery)
  {
    assert [x, y, z][..2] == [x, y];
    RunTwo(b, x, y, threshold, recovery);
  }

  /** The breaker after an evaluation, operation by operation. */
  lemma AfterCases(b: Breaker, e: Eval, threshold: int, recovery: int)
    ensures var asked := Apply(b, Allow(e.start), threshold, recovery);
      var once := Apply(asked, Failure(e.end), threshold, recovery);
      After(b, e, threshold, recovery) ==
        if !Grants(b, e.start, recovery) then b
        else if !Failed(e.oracle) then Apply(asked, Success, threshold, recovery)
        else if e.oracle.Answers? && Fallback(e.field).Err? then Apply(once, Failure(e.end), threshold, recovery)
        else once
  {
    var ops := BreakerOps(b, e, recovery);
    if !Grants(b, e.start, recovery) {
      assert ops == [Allow(e.start)];
    } else if !Failed(e.oracle) {
      assert ops == [Allow(e.start), Success];
    } else if e.oracle.Answers? && Fallback(e.field).Err? {
      assert ops == [Allow(e.start), Failure(e.end), Failure(e.end)];
    } else {
      assert ops == [Allow(e.start), Failure(e.end)];
    }
    RunOne(b, Allow(e.start), threshold, recovery);
    RunTwo(b, Allow(e.start), Success, threshold, recovery);
    RunTwo(b, Allow(e.start), Failure(e.end), threshold, recovery);
    RunThree(b, Allow(e.start), Failure(e.end), Failure(e.end), threshold, recovery);
  }

  /** When Ollama is asked and gives a verdict that is not an error, that verdict is the engine's, in
      every part; otherwise the fallback rules decide. */
  lemma WhoDecides(b: Breaker, e: Eval, recovery: int)
    ensures var asked := b.state == OPEN ==> e.start - b.openedAt > recovery as real;
      var usable := e.oracle.Answers? && !("ollama_error:" <= e.oracle.v.reason);
      Outcome(b, e, recovery) == if asked && usable then Ok(e.oracle.v) else Fallback(e.field)
  {
  }

  /** One evaluation counts as two failures exactly when Ollama was asked, answered with an error
      verdict, and the session's anomalies are a dictionary with an unreadable value under one of
      the four rule keys. */
  lemma TwoFailuresIff(b: Breaker, e: Eval, threshold: int, recovery: int)
    ensures After(b, e, threshold, recovery).failures == b.failures + 2 <==>
      && Grants(b, e.start, recovery)
      && e.oracle.Answers? && ERROR_PREFIX <= e.oracle.v.reason
      && e.field.Dict? && AnyUnreadable(e.field.entries, 4)
  {
    AfterCases(b, e, threshold, recovery);
    FallbackRaisesIff(e.field);
  }

  /** Such an input: text where a count of ports is expected, while Ollama times out. A breaker that
      should tolerate one failure opens on the first. */
  lemma TextOpensBreakerAtOnce()
    ensures var timeout := Answers(TrustVerdict(MONITOR, 0.0, ERROR_PREFIX + "timed out"));
      var text := Eval(Dict(map["ports_probed" := Text("many")]), 0.0, timeout, 90.0);
      var number := text.(field := Dict(map["ports_probed" := Num(400.0)]));
      After(NEW_BREAKER, text, 2, 30) == Breaker(OPEN, 2, 90.0) &&
      After(NEW_BREAKER, number, 2, 30) == Breaker(CLOSED, 1, 90.0)
  {
    var timeout := Answers(TrustVerdict(MONITOR, 0.0, ERROR_PREFIX + "timed out"));
    var text := Eval(Dict(map["ports_probed" := Text("many")]), 0.0, timeout, 90.0);
    AfterCases(NEW_BREAKER, text, 2, 30);
    AfterCases(NEW_BREAKER, text.(field := Dict(map["ports_probed" := Num(400.0)])), 2, 30);
    assert Unreadable(map["ports_probed" := Text("many")], 1);
  }

  class HybridTrustEngine {
    const cb: CircuitBreaker
    var counts: Counts

    ghost predicate Valid()
      reads this
    {
      counts.total == counts.allow + counts.deny + counts.monitor && counts.fallbacks <= counts.total
    }

    constructor (threshold: int, recovery: int)
      ensures Valid() && fresh(cb) && cb.View() == NEW_BREAKER && cb.threshold == threshold && cb.recovery == recovery
      ensures counts == Counts(0, 0, 0, 0, 0)
    {
      cb := new CircuitBreaker(threshold, recovery);
      counts := Counts(0, 0, 0, 0, 0);
    }

    /** Err is the exception of the fallback rules leaving `evaluate`. A raising evaluation is not
        counted; any other is counted under its own verdict, and as a fallback if Ollama's verdict
        was not used. */
    method Evaluate(e: Eval) returns (r: Result<TrustVerdict, Error>)
      requires Valid()
      modifies this, cb
      ensures Valid()
      ensures cb.View() == After(old(cb.View()), e, cb.threshold, cb.recovery)
      ensures r == Outcome(old(cb.View()), e, cb.recovery)
      ensures counts == if r.Err? then old(counts)
        else Tallied(old(counts), r.value.verdict, !Grants(old(cb.View()), e.start, cb.recovery) || Failed(e.oracle))
      ensures var asked := old(cb.state) == OPEN ==> e.start - old(cb.openedAt) > cb.recovery as real;
        var usable := e.oracle.Answers? && !("ollama_error:" <= e.oracle.v.reason);
        r == if asked && usable then Ok(e.oracle.v) else Fallback(e.field)
    {
      WhoDecides(cb.View(), e, cb.recovery);
      AfterCases(cb.View(), e, cb.threshold, cb.recovery);
      var fellBack := true;
      var allowed := cb.AllowCall(e.start);
      if !allowed {
        r := Fallback(e.field);
      } else {
        match e.oracle
        case Answers(v) =>
          if ERROR_PREFIX <= v.reason {
            cb.RecordFailure(e.end);
            r := Fallback(e.field);
            if r.Err? { cb.RecordFailure(e.end); }
          } else {
            cb.RecordSuccess();
            r := Ok(v);
            fellBack := false;
          }
        case Raises =>
          cb.RecordFailure(e.end);
          r := Fallback(e.field);
      }
      if r.Ok? {
        counts := Tallied(counts, r.value.verdict, fellBack);
      }
    }
  }

  // ---- The counters over a run ----

  /** One counted evaluation: its verdict, and whether the rules had to decide. */
  datatype Counted = Counted(verdict: Verdict, fallback: bool)

  function RunTally(c: Counts, run: seq<Counted>): Counts {
    if run == [] then c else Tallied(RunTally(c, run[..|run| - 1]), run[|run| - 1].verdict, run[|run| - 1].fallback)
  }

  function VerdictCount(run: seq<Counted>, v: Verdict): nat {
    if run == [] then 0 else VerdictCount(run[..|run| - 1], v) + (if run[|run| - 1].verdict == v then 1 else 0)
  }

  function FallbackCount(run: seq<Counted>): nat {
    if run == [] then 0 else FallbackCount(run[..|run| - 1]) + (if run[|run| - 1].fallback then 1 else 0)
  }

  /** Over any run each counter moves by the number of its own evaluations. */
  lemma {:induction false} CountersAreExact(c: Counts, run: seq<Counted>)
    ensures var r := RunTally(c, run);
      && r.total == c.total + |run| && r.fallbacks == c.fallbacks + FallbackCount(run)
      && r.allow == c.allow + VerdictCount(run, ALLOW) && r.deny == c.deny + VerdictCount(run, DENY)
      && r.monitor == c.monitor + VerdictCount(run, MONITOR)
  {
    if run != [] { CountersAreExact(c, run[..|run| - 1]); }
  }

  // ---- Outage bound ----

  /** How many evaluations of the run reach Ollama. */
  function Attempts(b: Breaker, evals: seq<Eval>, threshold: int, recovery: int): nat
    decreases evals
  {
    if evals == [] then 0
    else (if Grants(b, evals[0].start, recovery) then 1 else 0)
         + Attempts(After(b, evals[0], threshold, recovery), evals[1..], threshold, recovery)
  }

  /** One evaluation after the other, and every one that reaches Ollama fails. */
  ghost predicate Outage(evals: seq<Eval>) {
    && (forall i :: 0 <= i < |evals| ==> evals[i].start <= evals[i].end && Failed(evals[i].oracle))
    && (forall i, j :: 0 <= i < j < |evals| ==> evals[i].end <= evals[j].start)
  }

  /** What an evaluation of an outage does to the breaker: nothing, or one or two failures. */
  ghost predicate FailedStep(b: Breaker, b': Breaker, e: Eval, threshold: int, recovery: int) {
    if !Grants(b, e.start, recovery) then b' == b
    else
      && b'.openedAt == e.end
      && b.failures < b'.failures
      && (b'.failures >= threshold ==> b'.state == OPEN)
      && (b'.failures < threshold && b.state == CLOSED ==> b'.state == CLOSED)
  }

  lemma OutageStep(b: Breaker, e: Eval, threshold: int, recovery: int)
    requires Failed(e.oracle)
    ensures FailedStep(b, After(b, e, threshold, recovery), e, threshold, recovery)
  {
    AfterCases(b, e, threshold, recovery);
  }

  /** n times r, for the sums below. */
  function Times(n: int, r: real): real { if n <= 0 then 0.0 else r + Times(n - 1, r) }

  lemma {:induction false} TimesMonotone(a: int, b: int, r: real)
    requires a <= b && r >= 0.0
    ensures 0.0 <= Times(a, r) <= Times(b, r)
    decreases b
  {
    if b > 0 { TimesMonotone(a - 1, b - 1, r); }
  }

  lemma {:induction false} TimesIsProduct(n: nat, r: real)
    ensures Times(n, r) == n as real * r
  {
    if n > 0 {
      TimesIsProduct(n - 1, r);
      assert n as real * r == (n - 1) as real * r + r;
    }
  }

  /** A run of breaker states through an outage, one evaluation after the other. */
  ghost predicate FailingRun(bs: seq<Breaker>, evals: seq<Eval>, threshold: int, recovery: int) {
    && |bs| == |evals| + 1
    && forall i :: 0 <= i < |evals| ==> FailedStep(bs[i], bs[i + 1], evals[i], threshold, recovery)
  }

  function Granted(bs: seq<Breaker>, evals: seq<Eval>, recovery: int): nat
    requires |bs| == |evals| + 1
    decreases evals
  {
    if evals == [] then 0
    else (if Grants(bs[0], evals[0].start, recovery) then 1 else 0) + Granted(bs[1..], evals[1..], recovery)
  }

  /** While open, every attempt costs more than one recovery period. */
  lemma {:induction false} OpenBound(bs: seq<Breaker>, evals: seq<Eval>, threshold: int, recovery: nat)
    requires FailingRun(bs, evals, threshold, recovery) && Outage(evals) && evals != []
    requires bs[0].state == OPEN && bs[0].failures >= threshold && bs[0].openedAt <= evals[0].start
    ensures var n := Granted(bs, evals, recovery);
      n > 0 ==> Times(n, recovery as real) < evals[|evals| - 1].end - bs[0].openedAt
    decreases evals
  {
    assert FailedStep(bs[0], bs[1], evals[0], threshold, recovery);
    if |evals| > 1 {
      assert evals[1..][|evals| - 2] == evals[|evals| - 1] && evals[1..][0] == evals[1] && bs[1..][0] == bs[1];
      OpenBound(bs[1..], evals[1..], threshold, recovery);
    } else {
      assert Granted(bs[1..], evals[1..], recovery) == 0;
    }
  }

  /** Once a breaker below its threshold enters an outage, the attempts beyond the remaining
      tolerance each cost more than one recovery period. */
  lemma {:induction false} ClosedBound(bs: seq<Breaker>, evals: seq<Eval>, threshold: int, recovery: nat)
    requires FailingRun(bs, evals, threshold, recovery) && Outage(evals) && evals != []
    requires bs[0].state == CLOSED && bs[0].failures < threshold
    ensures var extra := Granted(bs, evals, recovery) - (threshold - bs[0].failures);
      extra > 0 ==> Times(extra, recovery as real) < evals[|evals| - 1].end - evals[0].start
    decreases evals
  {
    assert FailedStep(bs[0], bs[1], evals[0], threshold, recovery);
    if |evals| > 1 {
      assert evals[1..][|evals| - 2] == evals[|evals| - 1] && evals[1..][0] == evals[1] && bs[1..][0] == bs[1];
      var n' := Granted(bs[1..], evals[1..], recovery);
      var extra := n' + 1 - (threshold - bs[0].failures);
      if bs[1].state == OPEN {
        OpenBound(bs[1..], evals[1..], threshold, recovery);
        if extra > 0 { TimesMonotone(extra, n', recovery as real); }
      } else {
        ClosedBound(bs[1..], evals[1..], threshold, recovery);
        if extra > 0 { TimesMonotone(extra, n' - (threshold - bs[1].failures), recovery as real); }
      }
    } else {
      assert Granted(bs[1..], evals[1..], recovery) == 0;
    }
  }

  /** The breaker states an outage really goes through. */
  lemma {:induction false} OutageRun(b: Breaker, evals: seq<Eval>, threshold: int, recovery: int)
      returns (bs: seq<Breaker>)
    requires Outage(evals)
    ensures FailingRun(bs, evals, threshold, recovery) && bs[0] == b
    ensures Granted(bs, evals, recovery) == Attempts(b, evals, threshold, recovery)
    decreases evals
  {
    if evals == [] {
      bs := [b];
    } else {
      OutageStep(b, evals[0], threshold, recovery);
      var rest := OutageRun(After(b, evals[0], threshold, recovery), evals[1..], threshold, recovery);
      bs := [b] + rest;
      assert bs[1..] == rest;
      forall i | 0 <= i < |evals| ensures FailedStep(bs[i], bs[i + 1], evals[i], threshold, recovery) {
        if i > 0 { assert FailedStep(rest[i - 1], rest[i], evals[1..][i - 1], threshold, recovery); }
      }
    }
  }

  lemma OutageSum(b: Breaker, evals: seq<Eval>, threshold: int, recovery: nat)
    requires Healthy(b) && threshold >= 1 && Outage(evals) && evals != []
    ensures var extra := Attempts(b, evals, threshold, recovery) - threshold;
      extra > 0 ==> Times(extra, recovery as real) < evals[|evals| - 1].end - evals[0].start
  {
    var bs := OutageRun(b, evals, threshold, recovery);
    ClosedBound(bs, evals, threshold, recovery);
  }

  /** Outage bound: from a healthy breaker, n > threshold calls to a failing Ollama take longer
      than (n - threshold) recovery periods. */
  lemma OutageBound(b: Breaker, evals: seq<Eval>, threshold: int, recovery: nat)
    requires Healthy(b) && threshold >= 1 && Outage(evals)
    ensures var n := Attempts(b, evals, threshold, recovery);
      n > threshold ==> (n - threshold) as real * recovery as real < evals[|evals| - 1].end - evals[0].start
  {
    if evals != [] {
      var n := Attempts(b, evals, threshold, recovery);
      if n > threshold {
        OutageSum(b, evals, threshold, recovery);
        TimesIsProduct(n - threshold, recovery as real);
      }
    }
  }
}
