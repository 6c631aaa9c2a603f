/** The sliding-log rate limiter of the HTTP server (kelan/api/server.py:230-241). */
module SlidingLog {
  import opened Common

  /** The times of s that are less than `window` old at `now`. */
  function Recent(s: seq<real>, now: real, window: int): seq<real> {
    if s == [] then []
    else (if now - s[0] < window as real then [s[0]] else []) + Recent(s[1..], now, window)
  }

  /** A request is accepted when fewer than `limit` accepted ones are still in the window. */
  predicate Accepts(log: seq<real>, now: real, limit: int, window: int) { |Recent(log, now, window)| < limit }

  /** The full log of accepted times after one more request. */
  function Admit(log: seq<real>, now: real, limit: int, window: int): seq<real> {
    if Accepts(log, now, limit, window) then log + [now] else log
  }

  /** The full log of accepted times after a run of requests of one client. */
  function AcceptedLog(log: seq<real>, requests: seq<real>, limit: int, window: int): seq<real>
    decreases requests
  {
    if requests == [] then log else AcceptedLog(Admit(log, requests[0], limit, window), requests[1..], limit, window)
  }

  // ---- Pruning ----

  lemma {:induction false} RecentConcat(a: seq<real>, b: seq<real>, now: real, window: int)
    ensures Recent(a + b, now, window) == Recent(a, now, window) + Recent(b, now, window)
  {
    if a == [] {
      assert a + b == b;
    } else {
      assert (a + b)[1..] == a[1..] + b;
      RecentConcat(a[1..], b, now, window);
    }
  }

  /** Pruning at an earlier time loses nothing that a later request will ask about. */
  lemma {:induction false} PruningIsMonotone(s: seq<real>, early: real, late: real, window: int)
    requires early <= late
    ensures Recent(Recent(s, early, window), late, window) == Recent(s, late, window)
  {
    if s != [] {
      PruningIsMonotone(s[1..], early, late, window);
      RecentConcat(if early - s[0] < window as real then [s[0]] else [], Recent(s[1..], early, window), late, window);
      assert s[..1][1..] == [];
      assert Recent([s[0]], late, window) == if late - s[0] < window as real then [s[0]] else [];
    }
  }

  /** The stored list answers every later question as the full log would. */
  ghost predicate Represents(stored: seq<real>, log: seq<real>, last: real, window: int) {
    forall now :: now >= last ==> Recent(stored, now, window) == Recent(log, now, window)
  }

  lemma PruneAndAppend(stored: seq<real>, log: seq<real>, last: real, now: real, window: int, added: seq<real>)
    requires Represents(stored, log, last, window) && last <= now
    ensures Represents(Recent(stored, now, window) + added, log + added, now, window)
  {
    forall later | later >= now
      ensures Recent(Recent(stored, now, window) + added, later, window) == Recent(log + added, later, window)
    {
      RecentConcat(Recent(stored, now, window), added, later, window);
      RecentConcat(log, added, later, window);
      PruningIsMonotone(stored, now, later, window);
    }
  }

  ghost predicate AllRepresented(history: map<string, seq<real>>, logs: map<string, seq<real>>,
                                 last: real, window: int) {
    forall ip: string :: Represents(GetOr(history, ip, []), GetOr(logs, ip, []), last, window)
  }

  lemma OneClientStep(history: map<string, seq<real>>, logs: map<string, seq<real>>, last: real, now: real, window: int,
                      ip: string, added: seq<real>)
    requires AllRepresented(history, logs, last, window) && last <= now
    ensures Recent(GetOr(history, ip, []), now, window) == Recent(GetOr(logs, ip, []), now, window)
    ensures AllRepresented(history[ip := Recent(GetOr(history, ip, []), now, window) + added],
                           logs[ip := GetOr(logs, ip, []) + added], now, window)
  {
    var h := history[ip := Recent(GetOr(history, ip, []), now, window) + added];
    var l := logs[ip := GetOr(logs, ip, []) + added];
    assert Represents(GetOr(history, ip, []), GetOr(logs, ip, []), last, window);
    PruneAndAppend(GetOr(history, ip, []), GetOr(logs, ip, []), last, now, window, added);
    forall other: string ensures Represents(GetOr(h, other, []), GetOr(l, other, []), now, window) {
      if other != ip {
        assert Represents(GetOr(history, other, []), GetOr(logs, other, []), last, window);
      }
    }
  }

  lemma SelfRecent(now: real, window: int)
    ensures window > 0 ==> Recent([now], now, window) == [now]
    ensures Recent([], now, window) == []
  {
  }

  /** The list comprehension that keeps the recent entries. */
  method Prune(entries: seq<real>, now: real, window: int) returns (timestamps: seq<real>)
    ensures timestamps == Recent(entries, now, window)
  {
    timestamps := [];
    for i := 0 to |entries|
      invariant timestamps == Recent(entries[..i], now, window)
    {
      if now - entries[i] < window as real {
        timestamps := timestamps + [entries[i]];
      }
      RecentConcat(entries[..i], [entries[i]], now, window);
      assert entries[..i + 1] == entries[..i] + [entries[i]];
      assert Recent([entries[i]], now, window) == if now - entries[i] < window as real then [entries[i]] else [];
    }
    assert entries[..|entries|] == entries;
  }

  /** The limiter with its in-memory history, and ghost full logs to compare it with. */
  class Limiter {
    const limit: int
    const window: int
    var history: map<string, seq<real>>
    ghost var logs: map<string, seq<real>>
    ghost var clock: real

    ghost predicate Valid()
      reads this
    {
      AllRepresented(history, logs, clock, window)
    }

    constructor (limit: int, window: int, start: real)
      ensures Valid() && this.limit == limit && this.window == window
      ensures logs == map[] && history == map[] && clock == start
    {
      this.limit, this.window, clock := limit, window, start;
      history, logs := map[], map[];
    }

    /** False stands for the 429 response. */
    method EnforceRateLimit(clientHost: Option<string>, now: real) returns (accepted: bool)
      requires Valid() && clock <= now
      modifies this
      ensures Valid() && clock == now
      ensures var ip := if clientHost.Some? then clientHost.value else "unknown";
        var log := GetOr(old(logs), ip, []);
        && accepted == Accepts(log, now, limit, window)
        && logs == old(logs)[ip := Admit(log, now, limit, window)]
        && (window > 0 ==> history == old(history)[ip := Recent(logs[ip], now, window)])
    {
      var clientIp := if clientHost.Some? then clientHost.value else "unknown";
      var entries := if clientIp in history then history[clientIp] else [];
      ghost var log := GetOr(logs, clientIp, []);
      assert entries == GetOr(history, clientIp, []);
      var timestamps := Prune(entries, now, window);
      assert timestamps == Recent(log, now, window) by {
        OneClientStep(history, logs, clock, now, window, clientIp, []);
      }
      history := history[clientIp := timestamps];
      accepted := |timestamps| < limit;
      ghost var added := if accepted then [now] else [];
      if accepted {
        history := history[clientIp := history[clientIp] + [now]];
      }
      assert timestamps + [] == timestamps && log + [] == log;
      assert history == old(history)[clientIp := timestamps + added];
      OneClientStep(old(history), logs, clock, now, window, clientIp, added);
      RecentConcat(log, added, now, window);
      SelfRecent(now, window);
      logs := logs[clientIp := log + added];
      clock := now;
    }
  }

  // ---- What the accepted log looks like ----

  lemma {:induction false} RecentSuffix(s: seq<real>, i: nat, now: real, window: int)
    requires NonDecreasing(s) && i < |s|
    requires now - s[i] < window as real
    ensures |Recent(s, now, window)| >= |s| - i
    decreases s
  {
    if i == 0 {
      if |s| > 1 { RecentSuffix(s[1..], 0, now, window); }
    } else {
      RecentSuffix(s[1..], i - 1, now, window);
    }
  }

  ghost predicate Spaced(s: seq<real>, limit: int, window: int) {
    limit >= 1 ==> forall i :: 0 <= i && i + limit < |s| ==> s[i + limit] - s[i] >= window as real
  }

  /** Accepted requests `limit` apart are at least `window` apart in time. */
  lemma {:induction false} AcceptedAreSpaced(log: seq<real>, requests: seq<real>, limit: int, window: int)
    requires NonDecreasing(log) && NonDecreasing(requests) && Spaced(log, limit, window)
    requires log != [] && requests != [] ==> log[|log| - 1] <= requests[0]
    ensures Spaced(AcceptedLog(log, requests, limit, window), limit, window)
    ensures NonDecreasing(AcceptedLog(log, requests, limit, window))
    decreases requests
  {
    if requests != [] {
      var now := requests[0];
      if Accepts(log, now, limit, window) && 1 <= limit <= |log| {
        if now - log[|log| - limit] < window as real { RecentSuffix(log, |log| - limit, now, window); }
      }
      AcceptedAreSpaced(Admit(log, now, limit, window), requests[1..], limit, window);
    }
  }

  /** How many times of s fall in the half-open interval [lo, hi). */
  function CountIn(s: seq<real>, lo: real, hi: real): nat {
    if s == [] then 0 else (if lo <= s[0] < hi then 1 else 0) + CountIn(s[1..], lo, hi)
  }

  /** In an ordered log the times in an interval are contiguous. */
  lemma {:induction false} CountedAreContiguous(s: seq<real>, lo: real, hi: real) returns (i: nat)
    requires NonDecreasing(s)
    ensures i + CountIn(s, lo, hi) <= |s|
    ensures forall j :: i <= j < i + CountIn(s, lo, hi) ==> lo <= s[j] < hi
  {
    if s == [] {
      i := 0;
    } else {
      var k := CountedAreContiguous(s[1..], lo, hi);
      i := if lo <= s[0] < hi then 0 else k + 1;
      var n := CountIn(s[1..], lo, hi);
      if lo <= s[0] < hi && n > 0 {
        assert s[n] <= s[k + n] == s[1..][k + n - 1];
        assert forall j :: 0 <= j <= n ==> s[0] <= s[j] <= s[n];
      } else {
        assert forall j :: k + 1 <= j < k + 1 + n ==> s[j] == s[1..][j - 1];
      }
    }
  }

  /** No half-open interval as long as the window holds more than `limit` accepted requests. */
  lemma WindowHoldsAtMostLimit(requests: seq<real>, limit: int, window: int, lo: real)
    requires NonDecreasing(requests)
    ensures CountIn(AcceptedLog([], requests, limit, window), lo, lo + window as real) <= Max(limit, 0)
  {
    AcceptedAreSpaced([], requests, limit, window);
    var log := AcceptedLog([], requests, limit, window);
    var i := CountedAreContiguous(log, lo, lo + window as real);
    if limit <= 0 {
      NothingAccepted([], requests, limit, window);
    } else {
      assert i + limit < |log| ==> log[i + limit] - log[i] >= window as real;
    }
  }

  lemma {:induction false} NothingAccepted(log: seq<real>, requests: seq<real>, limit: int, window: int)
    requires limit <= 0
    ensures AcceptedLog(log, requests, limit, window) == log
    decreases requests
  {
    if requests != [] { NothingAccepted(log, requests[1..], limit, window); }
  }

  lemma {:induction false} AcceptedLogSplits(log: seq<real>, a: seq<real>, b: seq<real>, limit: int, window: int)
    ensures AcceptedLog(log, a + b, limit, window) == AcceptedLog(AcceptedLog(log, a, limit, window), b, limit, window)
    decreases a
  {
    if a == [] {
      assert a + b == b;
    } else {
      assert (a + b)[1..] == a[1..] + b;
      AcceptedLogSplits(Admit(log, a[0], limit, window), a[1..], b, limit, window);
    }
  }

  /** A rejected request leaves no trace: removing it changes no acceptance before or after it. */
  lemma RejectedRequestsNeverDelay(before: seq<real>, now: real, after: seq<real>, limit: int, window: int)
    requires !Accepts(AcceptedLog([], before, limit, window), now, limit, window)
    ensures AcceptedLog([], before + [now] + after, limit, window) == AcceptedLog([], before + after, limit, window)
  {
    var log := AcceptedLog([], before, limit, window);
    AcceptedLogSplits([], before + [now], after, limit, window);
    AcceptedLogSplits([], before, [now], limit, window);
    AcceptedLogSplits([], before, after, limit, window);
    assert [now][1..] == [];
    assert AcceptedLog(log, [now], limit, window) == AcceptedLog(Admit(log, now, limit, window), [], limit, window);
  }

  /** A client is refused exactly when the `limit` latest acceptances all fall inside the window. */
  lemma RefusedIff(requests: seq<real>, now: real, limit: int, window: int)
    requires NonDecreasing(requests + [now]) && limit >= 1
    ensures var log := AcceptedLog([], requests, limit, window);
      !Accepts(log, now, limit, window) <==> |log| >= limit && now - log[|log| - limit] < window as real
  {
    assert requests + [now] == requests + [now];
    forall i, j | 0 <= i <= j < |requests| ensures requests[i] <= requests[j] {
      assert (requests + [now])[i] <= (requests + [now])[j];
    }
    AcceptedAreSpaced([], requests, limit, window);
    var log := AcceptedLog([], requests, limit, window);
    if |log| >= limit {
      var i := |log| - limit;
      if now - log[i] < window as real { RecentSuffix(log, i, now, window); } else { RecentBelow(log, i, now, window); }
    } else {
      RecentLength(log, now, window);
    }
  }

  lemma {:induction false} RecentLength(s: seq<real>, now: real, window: int)
    ensures |Recent(s, now, window)| <= |s|
  {
    if s != [] { RecentLength(s[1..], now, window); }
  }

  lemma {:induction false} RecentBelow(s: seq<real>, i: nat, now: real, window: int)
    requires NonDecreasing(s) && i < |s|
    requires now - s[i] >= window as real
    ensures |Recent(s, now, window)| < |s| - i
    decreases s
  {
    if i == 0 {
      RecentLength(s[1..], now, window);
    } else {
      RecentBelow(s[1..], i - 1, now, window);
      assert now - s[0] >= window as real;
    }
  }
}
