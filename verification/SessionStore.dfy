/** The bounded session store of kelan-python: a dictionary and a bounded queue of ids that may
    repeat (kelan-python/kelan/protocol/session.py:38-94). */
module SessionStore {
  import opened Common
  import opened Trust

  datatype Record = Record(
    sessionId: string, entityId: string, verdict: Verdict, confidence: real, reason: string,
    createdAt: real, permitToken: Option<string>)

  /** The record a `store` call writes; the token is drawn afresh and kept unless the verdict is DENY. */
  function RecordOf(sid: string, entityId: string, v: TrustVerdict, token: string, now: real): Record {
    Record(sid, entityId, v.verdict, v.confidence, v.reason, now, if v.verdict != DENY then Some(token) else None)
  }

  // ---- The full log ----

  function Ids(log: seq<Record>): seq<string> { seq(|log|, i requires 0 <= i < |log| => log[i].sessionId) }

  /** The latest record of an id in the full log. */
  function Latest(log: seq<Record>, sid: string): Option<Record> {
    if log == [] then None
    else if log[|log| - 1].sessionId == sid then Some(log[|log| - 1])
    else Latest(log[..|log| - 1], sid)
  }

  /** An id is retained while one of the last `capacity` calls named it. The empty id is falsy, so
      the eviction test never removes it once it has been stored. */
  predicate Retained(log: seq<Record>, capacity: nat, sid: string) {
    sid in LastN(Ids(log), capacity) || (sid == "" && sid in Ids(log))
  }

  /** The dictionary is the restriction of the full log to the retained ids. */
  ghost predicate Refines(sessions: map<string, Record>, log: seq<Record>, capacity: nat) {
    && (forall sid: string :: sid in sessions <==> Retained(log, capacity, sid))
    && (forall sid :: sid in sessions ==> Latest(log, sid) == Some(sessions[sid]))
  }

  lemma IdsAppend(log: seq<Record>, r: Record)
    ensures Ids(log + [r]) == Ids(log) + [r.sessionId]
  {
  }

  lemma LatestAppend(log: seq<Record>, r: Record, sid: string)
    ensures Latest(log + [r], sid) == if r.sessionId == sid then Some(r) else Latest(log, sid)
  {
    assert (log + [r])[..|log|] == log;
  }

  lemma {:induction false} LatestExistsIff(log: seq<Record>, sid: string)
    ensures Latest(log, sid).Some? <==> sid in Ids(log)
  {
    if log != [] {
      var init := log[..|log| - 1];
      LatestExistsIff(init, sid);
      assert Ids(log) == Ids(init) + [log[|log| - 1].sessionId];
    }
  }

  /** Entry i of the log is the latest one of its id. */
  ghost predicate IsLatest(log: seq<Record>, i: nat) {
    i < |log| && forall j :: i < j < |log| ==> log[j].sessionId != log[i].sessionId
  }

  /** The latest record of an id is the one that no later entry of the log replaces. */
  lemma {:induction false} LatestIsLast(log: seq<Record>, i: nat)
    requires IsLatest(log, i)
    ensures Latest(log, log[i].sessionId) == Some(log[i])
  {
    var n := |log| - 1;
    if i < n {
      assert log[..n][i] == log[i];
      LatestIsLast(log[..n], i);
    }
  }

  /** Membership in the window of last ids after one more call. */
  lemma WindowAfter(ids: seq<string>, x: string, capacity: nat, sid: string)
    requires capacity >= 1
    ensures sid in PushBounded(LastN(ids, capacity), x, capacity)
      <==> sid == x || sid in (if |LastN(ids, capacity)| >= capacity
                                 then LastN(ids, capacity)[1..] else LastN(ids, capacity))
  {
    var q := LastN(ids, capacity);
    var rest := if |q| >= capacity then q[1..] else q;
    assert PushBounded(q, x, capacity) == rest + [x];
  }

  /** One `store` on the dictionary, as the program performs it. */
  function Stored(sessions: map<string, Record>, order: seq<string>, capacity: nat, r: Record): map<string, Record>
    requires capacity >= 1
  {
    var added := sessions[r.sessionId := r];
    if |order| >= capacity && order[0] != "" && order[0] !in PushBounded(order, r.sessionId, capacity)
    then added - {order[0]} else added
  }

  /** Storing keeps the dictionary a faithful window on the log. */
  lemma StoreKeepsRefinement(sessions: map<string, Record>, log: seq<Record>, capacity: nat, r: Record)
    requires capacity >= 1 && Refines(sessions, log, capacity)
    ensures Refines(Stored(sessions, LastN(Ids(log), capacity), capacity, r), log + [r], capacity)
  {
    var order := LastN(Ids(log), capacity);
    var after := Stored(sessions, order, capacity, r);
    IdsAppend(log, r);
    PushBoundedKeepsLastN(Ids(log), r.sessionId, capacity);
    forall sid: string
      ensures sid in after <==> Retained(log + [r], capacity, sid)
      ensures sid in after ==> Latest(log + [r], sid) == Some(after[sid])
    {
      WindowAfter(Ids(log), r.sessionId, capacity, sid);
      LatestAppend(log, r, sid);
      assert sid in sessions <==> Retained(log, capacity, sid);
      if |order| >= capacity { assert order == [order[0]] + order[1..]; }
    }
  }

  lemma {:induction false} DistinctAtMostLength(ids: seq<string>)
    ensures |set sid | sid in ids| <= |ids|
  {
    if ids != [] {
      var init := ids[..|ids| - 1];
      DistinctAtMostLength(init);
      assert (set sid | sid in ids) == (set sid | sid in init) + {ids[|ids| - 1]};
    }
  }

  /** The dictionary holds exactly the ids of the last `capacity` calls, and no more than
      `capacity` of them, unless the empty id was stored and has since left that window. */
  lemma WindowExactIff(sessions: map<string, Record>, log: seq<Record>, capacity: nat)
    requires Refines(sessions, log, capacity)
    ensures sessions.Keys == (set sid | sid in LastN(Ids(log), capacity)) <==>
      ("" in Ids(log) ==> "" in LastN(Ids(log), capacity))
    ensures ("" in Ids(log) ==> "" in LastN(Ids(log), capacity)) ==> |sessions| <= capacity
    ensures |sessions| <= capacity + 1
  {
    var window := set sid | sid in LastN(Ids(log), capacity);
    DistinctAtMostLength(LastN(Ids(log), capacity));
    assert "" in sessions <==> Retained(log, capacity, "");
    if "" in Ids(log) && "" !in LastN(Ids(log), capacity) {
      assert sessions.Keys == window + {""};
    } else {
      assert sessions.Keys == window;
    }
    assert |sessions| == |sessions.Keys|;
  }

  /** A lingering id, concretely: with room for one session, "" and then "a" leave both behind, where
      any other first id would have been evicted. */
  lemma EmptyIdLingers(sessions: map<string, Record>, first: Record, second: Record)
    requires second.sessionId == "a" && first.sessionId != "a"
    requires Refines(sessions, [first, second], 1)
    ensures sessions == if first.sessionId == "" then map["" := first, "a" := second] else map["a" := second]
    ensures |sessions| == if first.sessionId == "" then 2 else 1
  {
    var log := [first, second];
    assert log[..1] == [first] && [first][..0] == [];
    assert Ids(log) == [first.sessionId, "a"] && LastN(Ids(log), 1) == ["a"];
    assert Latest(log, "a") == Some(second) && Latest(log, first.sessionId) == Some(first);
    forall sid: string ensures sid in sessions <==> sid == "a" || (sid == "" && first.sessionId == "") {
      assert sid in sessions <==> Retained(log, 1, sid);
    }
    var expected := if first.sessionId == "" then map["" := first, "a" := second] else map["a" := second];
    assert sessions.Keys == expected.Keys;
    assert sessions == expected;
  }

  // ---- Counting by verdict ----

  function With(sessions: map<string, Record>, keys: set<string>, v: Verdict): set<string>
    requires keys <= sessions.Keys
  {
    set sid | sid in keys && sessions[sid].verdict == v
  }

  lemma WithInsert(sessions: map<string, Record>, keys: set<string>, sid: string, v: Verdict)
    requires keys <= sessions.Keys && sid in sessions && sid !in keys
    ensures |With(sessions, keys + {sid}, v)| == |With(sessions, keys, v)|
         + (if sessions[sid].verdict == v then 1 else 0)
  {
    if sessions[sid].verdict == v {
      assert With(sessions, keys + {sid}, v) == With(sessions, keys, v) + {sid};
    } else {
      assert With(sessions, keys + {sid}, v) == With(sessions, keys, v);
    }
  }

  /** Each count is the number of the given sessions with that verdict. */
  ghost predicate Tallies(counts: map<Verdict, nat>, sessions: map<string, Record>, keys: set<string>)
    requires keys <= sessions.Keys
  {
    forall v: Verdict :: v in counts && counts[v] == |With(sessions, keys, v)|
  }

  lemma TallyOneMore(counts: map<Verdict, nat>, sessions: map<string, Record>, keys: set<string>, sid: string)
    requires keys <= sessions.Keys && sid in sessions && sid !in keys && Tallies(counts, sessions, keys)
    ensures var v := sessions[sid].verdict; Tallies(counts[v := counts[v] + 1], sessions, keys + {sid})
  {
    var v := sessions[sid].verdict;
    forall w: Verdict
      ensures w in counts && counts[v := counts[v] + 1][w] == |With(sessions, keys + {sid}, w)|
    {
      WithInsert(sessions, keys, sid, w);
    }
  }

  lemma VerdictsPartition(sessions: map<string, Record>, keys: set<string>)
    requires keys <= sessions.Keys
    ensures |With(sessions, keys, ALLOW)| + |With(sessions, keys, DENY)| + |With(sessions, keys, MONITOR)| == |keys|
  {
    var allowed, denied, monitored :=
      With(sessions, keys, ALLOW), With(sessions, keys, DENY), With(sessions, keys, MONITOR);
    assert allowed !! denied && (allowed + denied) !! monitored;
    assert keys == allowed + denied + monitored;
  }

  lemma TallyNone(sessions: map<string, Record>)
    ensures Tallies(map[ALLOW := 0, DENY := 0, MONITOR := 0], sessions, {})
  {
    forall v: Verdict ensures v in map[ALLOW := 0, DENY := 0, MONITOR := 0] && With(sessions, {}, v) == {} {
      match v
      case ALLOW | DENY | MONITOR =>
    }
  }

  /** The loop of `count_by_verdict`: each count is the number of stored sessions with that
      verdict, and together they are all of them. */
  method CountByVerdict(sessions: map<string, Record>) returns (counts: map<Verdict, nat>)
    ensures forall v: Verdict :: v in counts && counts[v] == |With(sessions, sessions.Keys, v)|
    ensures counts[ALLOW] + counts[DENY] + counts[MONITOR] == |sessions|
  {
    counts := map[ALLOW := 0, DENY := 0, MONITOR := 0];
    TallyNone(sessions);
    var todo := sessions.Keys;
    ghost var done: set<string> := {};
    while todo != {}
      invariant done <= sessions.Keys && todo == sessions.Keys - done
      invariant Tallies(counts, sessions, done)
      decreases |todo|
    {
      var sid :| sid in todo;
      TallyOneMore(counts, sessions, done, sid);
      var v := sessions[sid].verdict;
      counts := counts[v := counts[v] + 1];
      todo := todo - {sid};
      done := done + {sid};
    }
    assert done == sessions.Keys && |sessions| == |sessions.Keys|;
    VerdictsPartition(sessions, sessions.Keys);
  }

  /** Python's list slice [-limit:]. */
  function SliceFrom(ids: seq<string>, limit: int): seq<string> {
    if limit > 0 then LastN(ids, limit) else if limit == 0 then ids else ids[Min(-limit, |ids|)..]
  }

  /** The latest records of a list of ids, last id first. */
  function ReversedRecords(sessions: map<string, Record>, ids: seq<string>): (r: seq<Record>)
    requires forall sid :: sid in ids ==> sid in sessions
    ensures |r| == |ids|
  {
    if ids == [] then []
    else
      assert forall sid :: sid in ids[..|ids| - 1] ==> sid in ids;
      [sessions[ids[|ids| - 1]]] + ReversedRecords(sessions, ids[..|ids| - 1])
  }

  lemma {:induction false} ReversedAt(sessions: map<string, Record>, ids: seq<string>, i: nat)
    requires forall sid :: sid in ids ==> sid in sessions
    requires i < |ids|
    ensures ReversedRecords(sessions, ids)[i] == sessions[ids[|ids| - 1 - i]]
  {
    var init := ids[..|ids| - 1];
    assert forall sid :: sid in init ==> sid in ids;
    if i > 0 { ReversedAt(sessions, init, i - 1); }
  }

  /** How many records a listing shows: the last `limit` of at most `capacity` remembered calls. */
  function Listed(log: seq<Record>, capacity: nat, limit: nat): nat { Min(limit, Min(capacity, |log|)) }

  lemma ListedAreStored(sessions: map<string, Record>, log: seq<Record>, capacity: nat, limit: int)
    requires Refines(sessions, log, capacity)
    ensures forall sid :: sid in SliceFrom(LastN(Ids(log), capacity), limit) ==> sid in sessions
  {
    var order := LastN(Ids(log), capacity);
    forall sid | sid in SliceFrom(order, limit) ensures sid in sessions {
      assert sid in order;
      assert Retained(log, capacity, sid);
    }
  }

  /** The last of the last: how a listing sits at the end of the full log. */
  lemma SliceOfWindow(log: seq<Record>, capacity: nat, limit: nat)
    requires limit >= 1
    ensures var ids := SliceFrom(LastN(Ids(log), capacity), limit);
      |ids| == Listed(log, capacity, limit) && forall k :: 0 <= k < |ids| ==> ids[k] == log[|log| - |ids| + k].sessionId
  {
    assert |Ids(log)| == |log|;
  }

  lemma ListedRecord(sessions: map<string, Record>, log: seq<Record>, capacity: nat, ids: seq<string>, i: nat)
    requires Refines(sessions, log, capacity) && i < |ids| <= |log|
    requires forall sid :: sid in ids ==> sid in sessions
    requires forall k :: 0 <= k < |ids| ==> ids[k] == log[|log| - |ids| + k].sessionId
    ensures Latest(log, log[|log| - 1 - i].sessionId) == Some(ReversedRecords(sessions, ids)[i])
  {
    ReversedAt(sessions, ids, i);
    assert ids[|ids| - 1 - i] == log[|log| - 1 - i].sessionId;
    assert ids[|ids| - 1 - i] in sessions;
  }

  /** Record i of a listing is what is last known of the session named by the i-th latest call. */
  lemma ListingIsLatestFirst(sessions: map<string, Record>, log: seq<Record>, capacity: nat, limit: nat)
    requires limit >= 1 && Refines(sessions, log, capacity)
    requires forall sid :: sid in SliceFrom(LastN(Ids(log), capacity), limit) ==> sid in sessions
    ensures var records := ReversedRecords(sessions, SliceFrom(LastN(Ids(log), capacity), limit));
      && (|records| == Listed(log, capacity, limit))
      && forall i :: 0 <= i < |records| ==> Latest(log, log[|log| - 1 - i].sessionId) == Some(records[i])
  {
    var ids := SliceFrom(LastN(Ids(log), capacity), limit);
    SliceOfWindow(log, capacity, limit);
    forall i | 0 <= i < |ids|
      ensures Latest(log, log[|log| - 1 - i].sessionId) == Some(ReversedRecords(sessions, ids)[i])
    {
      ListedRecord(sessions, log, capacity, ids, i);
    }
  }

  class SessionManager {
    const capacity: nat
    var sessions: map<string, Record>
    var order: seq<string>
    ghost var log: seq<Record>

    ghost predicate Valid()
      reads this
    {
      capacity >= 1 && order == LastN(Ids(log), capacity) && Refines(sessions, log, capacity)
    }

    constructor (capacity: nat)
      requires capacity >= 1
      ensures Valid() && log == [] && this.capacity == capacity
    {
      this.capacity := capacity;
      sessions, order, log := map[], [], [];
    }

    method Store(sid: string, entityId: string, v: TrustVerdict, token: string, now: real) returns (record: Record)
      requires Valid()
      modifies this
      ensures Valid()
      ensures record == RecordOf(sid, entityId, v, token, now) && log == old(log) + [record]
      ensures record.permitToken == (if v.verdict == DENY then None else Some(token))
      ensures record.sessionId == sid && record.entityId == entityId && record.createdAt == now
      ensures record.verdict == v.verdict && record.confidence == v.confidence && record.reason == v.reason
    {
      record := Record(sid, entityId, v.verdict, v.confidence, v.reason, now,
                       if v.verdict != DENY then Some(token) else None);
      StoreKeepsRefinement(sessions, log, capacity, record);
      IdsAppend(log, record);
      PushBoundedKeepsLastN(Ids(log), sid, capacity);
      sessions := sessions[sid := record];
      var evicted := if |order| >= capacity then Some(order[0]) else None;
      order := PushBounded(order, sid, capacity);
      if evicted.Some? && evicted.value != "" && evicted.value !in order {
        sessions := sessions - {evicted.value};
      }
      log := log + [record];
    }

    method Get(sid: string) returns (r: Option<Record>)
      requires Valid()
      ensures r == if Retained(log, capacity, sid) then Latest(log, sid) else None
    {
      r := if sid in sessions then Some(sessions[sid]) else None;
    }

    /** The list comprehension over the reversed ids; its guard holds of each of them. */
    method Collect(ids: seq<string>) returns (records: seq<Record>)
      requires forall sid :: sid in ids ==> sid in sessions
      ensures records == ReversedRecords(sessions, ids)
    {
      records := [];
      for i := 0 to |ids|
        invariant records == ReversedRecords(sessions, ids[..i])
      {
        var sid := ids[i];
        if sid in sessions {
          records := [sessions[sid]] + records;
        }
        assert ids[..i + 1][..i] == ids[..i];
      }
      assert ids[..|ids|] == ids;
    }

    /** The membership guard never drops anything: every listed id still has its record. A listing
        shows the latest calls first, each with what is last known of its session. */
    method RecentVerdicts(limit: int) returns (records: seq<Record>)
      requires Valid()
      ensures forall sid :: sid in SliceFrom(order, limit) ==> sid in sessions
      ensures records == ReversedRecords(sessions, SliceFrom(order, limit))
      ensures |records| == |SliceFrom(order, limit)|
      ensures limit >= 1 ==>
        && |records| == Listed(log, capacity, limit)
        && forall i :: 0 <= i < |records| ==> Latest(log, log[|log| - 1 - i].sessionId) == Some(records[i])
    {
      ListedAreStored(sessions, log, capacity, limit);
      records := Collect(SliceFrom(order, limit));
      if limit >= 1 { ListingIsLatestFirst(sessions, log, capacity, limit); }
    }
  }
}
