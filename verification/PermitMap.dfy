/** The userspace permit map and its expiry cleanup
    (kelan-ebpf/kelan-ebpf-loader/src/userspace.rs:74-107 and 196-212). */
module PermitMap {
  import opened Common
  import opened XdpFilter

  type Permits = map<u64, SessionPermit>

  predicate Live(p: SessionPermit, now: nat) { p.expiresAt == 0 || p.expiresAt > now }

  predicate IsPermitted(m: Permits, sid: u64, now: nat) { sid in m && m[sid].verdict != 0 && Live(m[sid], now) }

  function Cleaned(m: Permits, now: nat): Permits { map sid | sid in m && Live(m[sid], now) :: m[sid] }

  function WithoutEntity(m: Permits, prefix: seq<u8>): Permits {
    map sid | sid in m && m[sid].sourceEntityPrefix != prefix :: m[sid]
  }

  datatype Op =
    | Permit(sid: u64, p: SessionPermit)
    | Revoke(sid: u64)
    | RevokeEntity(prefix: seq<u8>)
    | Ask(sid: u64)
    | Cleanup

  /** An operation and the wall-clock second it happens in. */
  datatype Timed = Timed(op: Op, now: nat)

  function Apply(m: Permits, t: Timed): Permits {
    match t.op
    case Permit(sid, p) => m[sid := p]
    case Revoke(sid) => m - {sid}
    case RevokeEntity(prefix) => WithoutEntity(m, prefix)
    case Ask(_) => m
    case Cleanup => Cleaned(m, t.now)
  }

  /** The answers to the questions of a run, in order. */
  function Answers(m: Permits, ops: seq<Timed>): seq<bool>
    decreases ops
  {
    if ops == [] then []
    else (if ops[0].op.Ask? then [IsPermitted(m, ops[0].op.sid, ops[0].now)] else [])
         + Answers(Apply(m, ops[0]), ops[1..])
  }

  function WithoutCleanups(ops: seq<Timed>): seq<Timed> {
    if ops == [] then [] else (if ops[0].op.Cleanup? then [] else [ops[0]]) + WithoutCleanups(ops[1..])
  }

  ghost predicate Clocked(ops: seq<Timed>) { forall i, j :: 0 <= i <= j < |ops| ==> ops[i].now <= ops[j].now }

  /** No question is asked in an earlier second than a cleanup that came before it. */
  ghost predicate AsksAfterCleanups(ops: seq<Timed>) {
    forall i, j :: 0 <= i < j < |ops| && ops[i].op.Cleanup? && ops[j].op.Ask? ==> ops[i].now <= ops[j].now
  }

  ghost predicate AsksFrom(ops: seq<Timed>, start: nat) {
    forall i :: 0 <= i < |ops| && ops[i].op.Ask? ==> start <= ops[i].now
  }

  /** Two maps that hold the same live permits from some second on. */
  ghost predicate SameLive(m: Permits, n: Permits, now: nat) {
    forall sid: u64 :: (sid in m && Live(m[sid], now)) || (sid in n && Live(n[sid], now))
      ==> sid in m && sid in n && m[sid] == n[sid]
  }

  /** Maps that agree from `start` on still do after the same operation, or after a cleanup of one,
      from the cleanup's second on. */
  lemma SameLiveStep(m: Permits, n: Permits, start: nat, t: Timed)
    requires SameLive(m, n, start)
    ensures !t.op.Cleanup? ==> SameLive(Apply(m, t), Apply(n, t), start)
    ensures t.op.Cleanup? ==> SameLive(Apply(m, t), n, Max(start, t.now))
    ensures t.op.Ask? && start <= t.now ==> IsPermitted(m, t.op.sid, t.now) == IsPermitted(n, t.op.sid, t.now)
  {
  }

  lemma {:induction false} SameLiveSameAnswers(m: Permits, n: Permits, start: nat, ops: seq<Timed>)
    requires SameLive(m, n, start) && AsksFrom(ops, start) && AsksAfterCleanups(ops)
    ensures Answers(m, ops) == Answers(n, WithoutCleanups(ops))
    decreases ops
  {
    if ops != [] {
      var t, rest := ops[0], ops[1..];
      SameLiveStep(m, n, start, t);
      assert AsksFrom(rest, if t.op.Cleanup? then Max(start, t.now) else start);
      assert AsksAfterCleanups(rest);
      if t.op.Cleanup? {
        SameLiveSameAnswers(Apply(m, t), n, Max(start, t.now), rest);
        assert WithoutCleanups(ops) == WithoutCleanups(rest);
        assert Answers(m, ops) == Answers(Apply(m, t), rest);
      } else {
        SameLiveSameAnswers(Apply(m, t), Apply(n, t), start, rest);
        assert WithoutCleanups(ops)[1..] == WithoutCleanups(rest);
      }
    }
  }

  /** Cleanups can be put into a run anywhere, or taken out of it, without changing any answer, as
      long as no question reads an earlier second than a cleanup before it. */
  lemma CleanupIsUnobservable(m: Permits, a: seq<Timed>, b: seq<Timed>)
    requires AsksAfterCleanups(a) && AsksAfterCleanups(b) && WithoutCleanups(a) == WithoutCleanups(b)
    ensures Answers(m, a) == Answers(m, b)
  {
    SameLiveSameAnswers(m, m, 0, a);
    SameLiveSameAnswers(m, m, 0, b);
  }

  /** Under a clock that never goes back, that is always so. */
  lemma CleanupIsUnobservableWhenClocked(m: Permits, a: seq<Timed>, b: seq<Timed>)
    requires Clocked(a) && Clocked(b) && WithoutCleanups(a) == WithoutCleanups(b)
    ensures Answers(m, a) == Answers(m, b)
  {
    CleanupIsUnobservable(m, a, b);
  }

  /** A cleanup in second c does not change the answer to a question in second a. */
  ghost predicate SameAnswer(m: Permits, sid: u64, c: nat, a: nat) {
    Answers(m, [Timed(Cleanup, c), Timed(Ask(sid), a)]) == Answers(m, [Timed(Ask(sid), a)])
  }

  lemma SameAnswerIff(m: Permits, sid: u64, c: nat, a: nat)
    ensures SameAnswer(m, sid, c, a) <==> IsPermitted(Cleaned(m, c), sid, a) == IsPermitted(m, sid, a)
  {
    var clean, ask := Timed(Cleanup, c), Timed(Ask(sid), a);
    assert [clean, ask][1..] == [ask] && [ask][1..] == [];
    assert Answers(m, [ask])[0] == IsPermitted(m, sid, a);
    assert Answers(Cleaned(m, c), [ask])[0] == IsPermitted(Cleaned(m, c), sid, a);
    assert Answers(m, [clean, ask]) == Answers(Cleaned(m, c), [ask]);
  }

  /** What the order of the clock readings is needed for: a cleanup in second c goes unnoticed by a
      question in second a, whatever the permits, if and only if the question is no earlier, or
      so late that no permit with an expiry is live any more. */
  lemma CleanupUnnoticedIff(c: nat, a: nat)
    ensures (forall m: Permits, sid: u64 :: SameAnswer(m, sid, c, a)) <==> c <= a || a >= U64_MAX
  {
    if c <= a || a >= U64_MAX {
      forall m: Permits, sid: u64 ensures SameAnswer(m, sid, c, a) { SameAnswerIff(m, sid, c, a); }
    } else {
      var m: Permits := map[7 := SessionPermit([], [], 0, 100, 1, a + 1)];
      SameAnswerIff(m, 7, c, a);
      assert !SameAnswer(m, 7, c, a);
    }
  }

  // ---- What the map answers, by its history ----

  /** The map after a run of operations. */
  function Held(m: Permits, ops: seq<Timed>): Permits {
    if ops == [] then m else Apply(Held(m, ops[..|ops| - 1]), ops[|ops| - 1])
  }

  lemma {:induction false} HeldCons(m: Permits, t: Timed, rest: seq<Timed>)
    ensures Held(m, [t] + rest) == Held(Apply(m, t), rest)
  {
    if rest == [] {
      assert [t] + rest == [t] && [t][..0] == [];
    } else {
      assert ([t] + rest)[..|rest|] == [t] + rest[..|rest| - 1];
      HeldCons(m, t, rest[..|rest| - 1]);
    }
  }

  /** The answer to a question at the end of a run is read off the map held then. */
  lemma {:induction false} LastAnswer(m: Permits, ops: seq<Timed>, sid: u64, now: nat)
    ensures Answers(m, ops + [Timed(Ask(sid), now)]) == Answers(m, ops) + [IsPermitted(Held(m, ops), sid, now)]
    decreases ops
  {
    var ask := Timed(Ask(sid), now);
    if ops == [] {
      assert ops + [ask] == [ask] && [ask][1..] == [];
    } else {
      var next, rest := Apply(m, ops[0]), ops[1..];
      var own := if ops[0].op.Ask? then [IsPermitted(m, ops[0].op.sid, ops[0].now)] else [];
      assert (ops + [ask])[1..] == rest + [ask] && [ops[0]] + rest == ops;
      assert Answers(m, ops + [ask]) == own + Answers(next, rest + [ask]);
      LastAnswer(next, rest, sid, now);
      HeldCons(m, ops[0], rest);
      assert own + (Answers(next, rest) + [IsPermitted(Held(next, rest), sid, now)])
          == own + Answers(next, rest) + [IsPermitted(Held(next, rest), sid, now)];
    }
  }

  /** An operation that ends a permit: a new permit for the session, a revocation of the session or of
      its entity, or a cleanup at or after its expiry. */
  predicate Ends(t: Timed, sid: u64, p: SessionPermit) {
    match t.op
    case Permit(s, _) => s == sid
    case Revoke(s) => s == sid
    case RevokeEntity(prefix) => p.sourceEntityPrefix == prefix
    case Cleanup => p.expiresAt != 0 && p.expiresAt <= t.now
    case Ask(_) => false
  }

  /** Operation i gave the session this permit, and nothing has ended it since. */
  ghost predicate Stands(ops: seq<Timed>, i: nat, sid: u64, p: SessionPermit) {
    i < |ops| && ops[i].op == Permit(sid, p) && forall j :: i < j < |ops| ==> !Ends(ops[j], sid, p)
  }

  lemma {:induction false} HeldIff(ops: seq<Timed>, sid: u64, p: SessionPermit)
    ensures (sid in Held(map[], ops) && Held(map[], ops)[sid] == p) <==> exists i: nat :: Stands(ops, i, sid, p)
  {
    if ops != [] {
      var n := |ops| - 1;
      var init, t := ops[..n], ops[n];
      HeldIff(init, sid, p);
      if i: nat :| Stands(init, i, sid, p) {
        if !Ends(t, sid, p) { assert Stands(ops, i, sid, p); }
      }
      if t.op == Permit(sid, p) { assert Stands(ops, n, sid, p); }
      if i: nat :| Stands(ops, i, sid, p) {
        if i < n { assert Stands(init, i, sid, p); }
      }
    }
  }

  /** Over any run from an empty map, whatever its clock: a session is permitted if and only if some
      permit of it still stands, is not a denial, and has no expiry or one that lies ahead. */
  lemma PermittedIff(ops: seq<Timed>, sid: u64, now: nat)
    ensures IsPermitted(Held(map[], ops), sid, now) <==>
      exists i: nat, p :: Stands(ops, i, sid, p) && p.verdict != 0 && (p.expiresAt == 0 || p.expiresAt > now)
  {
    var m := Held(map[], ops);
    if sid in m {
      HeldIff(ops, sid, m[sid]);
      var i: nat :| Stands(ops, i, sid, m[sid]);
      assert Stands(ops, i, sid, m[sid]);
    }
    if i: nat, p :| Stands(ops, i, sid, p) && p.verdict != 0 && (p.expiresAt == 0 || p.expiresAt > now) {
      HeldIff(ops, sid, p);
    }
  }

  /** Cutting keys out of a map costs exactly as many entries as keys. */
  lemma RemovedCount(m: Permits, kept: Permits, removed: set<u64>)
    requires removed <= m.Keys && kept == m - removed
    ensures |kept| == |m| - |removed|
  {
    assert kept.Keys == m.Keys - removed;
    assert |kept| == |kept.Keys| && |m| == |m.Keys|;
    assert m.Keys == kept.Keys + removed;
  }

  /** `retain` with a captured counter: entries of the entity are dropped and counted one by one. */
  method RetainOthers(m: Permits, prefix: seq<u8>) returns (kept: Permits, count: nat)
    ensures kept == WithoutEntity(m, prefix)
    ensures count == |m| - |kept|
  {
    kept, count := m, 0;
    var todo := m.Keys;
    ghost var removed: set<u64> := {};
    while todo != {}
      invariant todo <= m.Keys && removed <= m.Keys
      invariant forall sid :: sid in m && sid !in todo ==> (sid in removed <==> m[sid].sourceEntityPrefix == prefix)
      invariant forall sid :: sid in todo ==> sid !in removed
      invariant kept == m - removed && count == |removed|
      decreases |todo|
    {
      var sid :| sid in todo;
      todo := todo - {sid};
      if m[sid].sourceEntityPrefix == prefix {
        count := count + 1;
        kept := kept - {sid};
        removed := removed + {sid};
      }
    }
    RemovedCount(m, kept, removed);
  }

  class BpfEnforcer {
    var permits: Permits

    constructor ()
      ensures permits == map[]
    {
      permits := map[];
    }

    method PermitSession(sid: u64, p: SessionPermit)
      modifies this
      ensures permits == old(permits)[sid := p]
    {
      permits := permits[sid := p];
    }

    method RevokeSession(sid: u64)
      modifies this
      ensures permits == old(permits) - {sid}
    {
      permits := permits - {sid};
    }

    /** The result is the drop in map size, and no permit of the entity is left. */
    method RevokeByEntity(prefix: seq<u8>) returns (count: nat)
      modifies this
      ensures permits == WithoutEntity(old(permits), prefix)
      ensures count == |old(permits)| - |permits|
      ensures forall sid :: sid in permits <==> sid in old(permits) && old(permits)[sid].sourceEntityPrefix != prefix
      ensures forall sid :: sid in permits ==> permits[sid] == old(permits)[sid]
    {
      var kept, n := RetainOthers(permits, prefix);
      permits := kept;
      return n;
    }

    method IsPermittedNow(sid: u64, now: nat) returns (permitted: bool)
      ensures permitted == IsPermitted(permits, sid, now)
      ensures permitted <==>
        sid in permits && permits[sid].verdict != 0 && (permits[sid].expiresAt == 0 || permits[sid].expiresAt > now)
    {
      if sid !in permits {
        return false;
      }
      var p := permits[sid];
      return p.verdict != 0 && (p.expiresAt == 0 || p.expiresAt > now);
    }

    method CleanupExpiredSessions(now: nat)
      modifies this
      ensures permits == Cleaned(old(permits), now)
      ensures forall sid: u64, later: nat :: later >= now ==>
        IsPermitted(permits, sid, later) == IsPermitted(old(permits), sid, later)
    {
      permits := map sid | sid in permits && (permits[sid].expiresAt == 0 || permits[sid].expiresAt > now)
        :: permits[sid];
    }
  }
}
