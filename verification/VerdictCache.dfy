/** The verdict cache in front of Ollama (kelan/ai/ollama_client.py:125-255). */
module VerdictCache {
  import opened Common
  import opened Trust

  /** The cache is trimmed when it holds more than this before an insertion. */
  const TRIM_ABOVE := 500
  const CAPACITY := TRIM_ABOVE + 1

  /** The parts of a session that its fingerprint covers. */
  datatype Session = Session(entityId: Option<string>, anomalies: AnomalyField, intent: Option<string>)

  /** The fingerprint; the digest is taken to be injective. */
  datatype Key = Key(entityId: string, anomalies: AnomalyField, intent: string)

  function CacheKey(s: Session): Key {
    Key(if s.entityId.Some? then s.entityId.value else "",
        if s.anomalies.Missing? then Dict(map[]) else s.anomalies,
        if s.intent.Some? then s.intent.value else "")
  }

  /** Two sessions read alike: same entity and intent, a missing one reading as "", and same
      anomalies, missing ones reading as an empty dictionary. */
  predicate Alike(s: Session, t: Session) {
    && (if s.entityId == None then "" else s.entityId.value) == (if t.entityId == None then "" else t.entityId.value)
    && (if s.intent == None then "" else s.intent.value) == (if t.intent == None then "" else t.intent.value)
    && (s.anomalies == t.anomalies || (NoneGiven(s.anomalies) && NoneGiven(t.anomalies)))
  }

  predicate NoneGiven(field: AnomalyField) { field == Missing || field == Dict(map[]) }

  /** Sessions share a fingerprint if and only if they read alike. */
  lemma SameKeyIff(s: Session, t: Session)
    ensures CacheKey(s) == CacheKey(t) <==> Alike(s, t)
  {
  }

  /** A Python dictionary in insertion order. */
  type Cache = seq<(Key, TrustVerdict)>

  ghost predicate DistinctKeys(c: Cache) { forall i, j :: 0 <= i < j < |c| ==> c[i].0 != c[j].0 }

  /** The entry of a key, looking from the latest insertion back. */
  function Lookup(c: Cache, k: Key): Option<TrustVerdict> {
    if c == [] then None
    else if c[|c| - 1].0 == k then Some(c[|c| - 1].1)
    else Lookup(c[..|c| - 1], k)
  }

  /** Assigning to a key keeps its place when it is present, and appends it otherwise. */
  function Assign(c: Cache, k: Key, v: TrustVerdict): Cache {
    if c == [] then [(k, v)]
    else if c[0].0 == k then [(k, v)] + c[1..]
    else [c[0]] + Assign(c[1..], k, v)
  }

  function Trim(c: Cache): Cache { if |c| > TRIM_ABOVE then c[1..] else c }

  function Insert(c: Cache, k: Key, v: TrustVerdict): Cache { Assign(Trim(c), k, v) }

  lemma {:induction false} LookupIff(c: Cache, k: Key)
    ensures Lookup(c, k).Some? <==> exists i :: 0 <= i < |c| && c[i].0 == k
    ensures Lookup(c, k).Some? ==> exists i :: 0 <= i < |c| && c[i] == (k, Lookup(c, k).value)
  {
    if c != [] {
      var init := c[..|c| - 1];
      LookupIff(init, k);
      if c[|c| - 1].0 == k {
        assert c[|c| - 1] == (k, Lookup(c, k).value);
      } else if Lookup(init, k).Some? {
        var i :| 0 <= i < |init| && init[i] == (k, Lookup(init, k).value);
        assert c[i] == (k, Lookup(c, k).value);
      }
    }
  }

  lemma {:induction false} AssignFresh(c: Cache, k: Key, v: TrustVerdict)
    requires forall i :: 0 <= i < |c| ==> c[i].0 != k
    ensures Assign(c, k, v) == c + [(k, v)]
  {
    if c != [] { AssignFresh(c[1..], k, v); }
  }

  /** A new first entry is the answer only where no later one is. */
  lemma {:induction false} LookupPrepend(x: (Key, TrustVerdict), c: Cache, k: Key)
    ensures Lookup([x] + c, k) == if Lookup(c, k).Some? then Lookup(c, k) else if x.0 == k then Some(x.1) else None
  {
    if c != [] {
      assert ([x] + c)[..|c|] == [x] + c[..|c| - 1];
      LookupPrepend(x, c[..|c| - 1], k);
    } else {
      assert [x] + c == [x] && [x][..0] == [];
    }
  }

  lemma {:induction false} AssignKeepsShape(c: Cache, k: Key, v: TrustVerdict)
    requires DistinctKeys(c)
    ensures DistinctKeys(Assign(c, k, v)) && |Assign(c, k, v)| <= |c| + 1
    ensures forall i :: 0 <= i < |Assign(c, k, v)| ==>
      Assign(c, k, v)[i].0 == k || exists j :: 0 <= j < |c| && c[j] == Assign(c, k, v)[i]
  {
    if c != [] && c[0].0 != k {
      var rest := c[1..];
      AssignKeepsShape(rest, k, v);
      var a := Assign(rest, k, v);
      forall i | 0 <= i < |a| ensures a[i].0 != c[0].0 && (a[i].0 == k || exists j :: 0 <= j < |c| && c[j] == a[i]) {
        if a[i].0 != k {
          var j :| 0 <= j < |rest| && rest[j] == a[i];
          assert c[j + 1] == a[i];
        }
      }
    }
  }

  /** The assigned key answers with its new verdict, every other key as before. */
  lemma {:induction false} AssignLookup(c: Cache, k: Key, v: TrustVerdict, other: Key)
    requires DistinctKeys(c)
    ensures Lookup(Assign(c, k, v), other) == if other == k then Some(v) else Lookup(c, other)
  {
    if c == [] {
      LookupPrepend((k, v), [], other);
      assert [(k, v)] + [] == [(k, v)];
    } else {
      var rest := c[1..];
      assert c == [c[0]] + rest;
      LookupPrepend(c[0], rest, other);
      if c[0].0 == k {
        LookupPrepend((k, v), rest, other);
        LookupIff(rest, k);
      } else {
        AssignLookup(rest, k, v, other);
        LookupPrepend(c[0], Assign(rest, k, v), other);
      }
    }
  }

  /** Whatever misses complete in between, and in whatever order, an insertion keeps the keys
      distinct, the size within the bound, and leaves the key answering with the new verdict. */
  lemma InsertKeepsShape(c: Cache, k: Key, v: TrustVerdict)
    requires DistinctKeys(c) && |c| <= CAPACITY
    ensures DistinctKeys(Insert(c, k, v)) && |Insert(c, k, v)| <= CAPACITY && Lookup(Insert(c, k, v), k) == Some(v)
  {
    AssignKeepsShape(Trim(c), k, v);
    AssignLookup(Trim(c), k, v, k);
  }

  // ---- The log of successful misses ----

  type Log = seq<(Key, TrustVerdict)>

  lemma LookupAppend(log: Log, k: Key, v: TrustVerdict, other: Key)
    ensures Lookup(log + [(k, v)], other) == if other == k then Some(v) else Lookup(log, other)
  {
    assert (log + [(k, v)])[..|log|] == log;
  }

  lemma {:induction false} LookupInSuffix(log: Log, n: nat, k: Key)
    ensures Lookup(LastN(log, n), k).Some? ==> Lookup(log, k) == Lookup(LastN(log, n), k)
  {
    if |log| > n > 0 {
      assert LastN(log, n)[..n - 1] == LastN(log[..|log| - 1], n - 1);
      LookupInSuffix(log[..|log| - 1], n - 1, k);
    }
  }

  /** What the cache answers is what the latest miss on the key stored. */
  ghost predicate Current(c: Cache, log: Log) {
    forall k: Key :: Lookup(c, k).Some? ==> Lookup(c, k) == Lookup(log, k)
  }

  /** Whatever lookups and insertions come in between, and in whatever order, an insertion keeps
      every answer of the cache current. */
  lemma InsertKeepsCurrent(c: Cache, log: Log, k: Key, v: TrustVerdict)
    requires DistinctKeys(c) && |c| <= CAPACITY && Current(c, log)
    ensures Current(Insert(c, k, v), log + [(k, v)])
  {
    forall other: Key | Lookup(Insert(c, k, v), other).Some?
      ensures Lookup(Insert(c, k, v), other) == Lookup(log + [(k, v)], other)
    {
      LookupAppend(log, k, v, other);
      AssignLookup(Trim(c), k, v, other);
      assert Trim(c) == LastN(c, TRIM_ABOVE);
      LookupInSuffix(c, TRIM_ABOVE, other);
    }
  }

  lemma LastNAppend(log: Log, x: (Key, TrustVerdict), n: nat)
    ensures LastN(log + [x], n + 1) == LastN(log, n) + [x]
  {
  }

  lemma TrimIsLastN(log: Log)
    ensures Trim(LastN(log, CAPACITY)) == LastN(log, TRIM_ABOVE)
  {
    if |log| > CAPACITY {
      var from := |log| - CAPACITY;
      assert log[from..][1..] == log[from + 1..];
    }
  }

  lemma DistinctAppend(c: Cache, k: Key, v: TrustVerdict)
    requires DistinctKeys(c) && forall i :: 0 <= i < |c| ==> c[i].0 != k
    ensures DistinctKeys(c + [(k, v)])
  {
  }

  /** A miss on a key inserts it behind the last 500 entries, so the cache stays a suffix of the log. */
  lemma InsertIsLogSuffix(log: Log, k: Key, v: TrustVerdict)
    requires DistinctKeys(LastN(log, CAPACITY)) && Lookup(LastN(log, CAPACITY), k).None?
    ensures Insert(LastN(log, CAPACITY), k, v) == LastN(log + [(k, v)], CAPACITY)
    ensures DistinctKeys(LastN(log + [(k, v)], CAPACITY))
  {
    var c := LastN(log, CAPACITY);
    LookupIff(c, k);
    AssignFresh(Trim(c), k, v);
    TrimIsLastN(log);
    LastNAppend(log, (k, v), TRIM_ABOVE);
    DistinctAppend(Trim(c), k, v);
  }

  // ---- The same log by sessions ----

  /** The sessions whose evaluation missed and was answered, with their verdicts. */
  type Asked = seq<(Session, TrustVerdict)>

  function KeyLog(asked: Asked): Log {
    seq(|asked|, i requires 0 <= i < |asked| => (CacheKey(asked[i].0), asked[i].1))
  }

  /** Entry i of the log is the latest one of a session like s. */
  ghost predicate LatestLike(asked: Asked, s: Session, i: nat) {
    i < |asked| && Alike(asked[i].0, s) && forall j :: i < j < |asked| ==> !Alike(asked[j].0, s)
  }

  lemma KeyLogAppend(asked: Asked, s: Session, v: TrustVerdict)
    ensures KeyLog(asked + [(s, v)]) == KeyLog(asked) + [(CacheKey(s), v)]
  {
  }

  /** Looking a key up in the log finds the verdict of the latest session that reads alike. */
  lemma {:induction false} LookupFindsLatestLike(asked: Asked, s: Session)
    ensures var v := Lookup(KeyLog(asked), CacheKey(s));
      && (v.Some? ==> exists i: nat :: LatestLike(asked, s, i) && asked[i].1 == v.value)
      && (v.None? ==> forall i :: 0 <= i < |asked| ==> !Alike(asked[i].0, s))
  {
    if asked != [] {
      var n := |asked| - 1;
      assert KeyLog(asked)[..n] == KeyLog(asked[..n]);
      SameKeyIff(asked[n].0, s);
      if Alike(asked[n].0, s) {
        assert LatestLike(asked, s, n);
      } else {
        var init := asked[..n];
        LookupFindsLatestLike(init, s);
        var v := Lookup(KeyLog(init), CacheKey(s));
        assert Lookup(KeyLog(asked), CacheKey(s)) == v;
        if v.Some? {
          var i: nat :| LatestLike(init, s, i) && init[i].1 == v.value;
          assert LatestLike(asked, s, i);
        }
      }
    }
  }

  datatype Response = Response(v: TrustVerdict, fromCache: bool)

  function ErrorVerdict(message: string): TrustVerdict {
    TrustVerdict(MONITOR, 0.0, "ollama_error:" + (if |message| <= 60 then message else message[..60]))
  }

  /** The verdict parsed from the model's answer, or the text of the exception. */
  type Generated = Result<TrustVerdict, string>

  class OllamaClient {
    var cache: Cache
    var hits: nat
    var misses: nat
    ghost var evaluations: nat
    ghost var log: Log
    ghost var asked: Asked

    ghost predicate Valid()
      reads this
    {
      && DistinctKeys(cache) && |cache| <= 501 && Current(cache, log) && log == KeyLog(asked)
      && hits + misses == evaluations
    }

    /** The cache is the tail of the log, as it is while evaluations run one after the other. */
    ghost predicate TailOfLog()
      reads this
    {
      cache == LastN(log, 501)
    }

    constructor ()
      ensures Valid() && TailOfLog() && asked == [] && evaluations == 0
    {
      cache, hits, misses, evaluations, log, asked := [], 0, 0, 0, [], [];
    }

    /** The part of `evaluate` before the await. */
    method Probe(k: Key) returns (hit: Option<TrustVerdict>)
      requires Valid()
      modifies this`hits, this`misses, this`evaluations
      ensures Valid() && evaluations == old(evaluations) + 1
      ensures hit == Lookup(cache, k) && hits == old(hits) + (if hit.Some? then 1 else 0)
      ensures hit.Some? ==> hit == Lookup(log, k)
    {
      evaluations := evaluations + 1;
      hit := Lookup(cache, k);
      if hit.Some? {
        hits := hits + 1;
      } else {
        misses := misses + 1;
      }
    }

    /** The part after it, for a model that answered on session `s`. */
    method Remember(k: Key, v: TrustVerdict, ghost s: Session)
      requires Valid() && k == CacheKey(s)
      modifies this`cache, this`log, this`asked
      ensures Valid() && cache == Insert(old(cache), k, v)
      ensures log == old(log) + [(k, v)] && asked == old(asked) + [(s, v)]
    {
      KeyLogAppend(asked, s, v);
      InsertKeepsShape(cache, k, v);
      InsertKeepsCurrent(cache, log, k, v);
      if |cache| > TRIM_ABOVE {
        cache := cache[1..];
      }
      cache := Assign(cache, k, v);
      log := log + [(k, v)];
      asked := asked + [(s, v)];
    }

    /** The model is asked: its answer is stored, an exception becomes a verdict that is not. */
    method Miss(s: Session, k: Key, generated: Generated) returns (v: TrustVerdict)
      requires Valid() && k == CacheKey(s) && Lookup(cache, k).None?
      modifies this`cache, this`log, this`asked
      ensures Valid()
      ensures generated.Ok? ==>
        && v == generated.value && cache == Insert(old(cache), k, v)
        && log == old(log) + [(k, v)] && asked == old(asked) + [(s, v)]
      ensures generated.Err? ==>
        v == ErrorVerdict(generated.error) && cache == old(cache) && log == old(log) && asked == old(asked)
      ensures old(TailOfLog()) ==> TailOfLog()
    {
      if generated.Err? {
        return ErrorVerdict(generated.error);
      }
      if TailOfLog() { InsertIsLogSuffix(log, k, generated.value); }
      Remember(k, generated.value, s);
      return generated.value;
    }

    /** One evaluation. A hit answers with what the latest miss of a session that reads alike stored,
        whatever was interleaved before; a session like none before is a miss; a miss stores the
        answer; an error stores nothing. */
    method Evaluate(s: Session, generated: Generated) returns (r: Response)
      requires Valid()
      modifies this
      ensures Valid() && evaluations == old(evaluations) + 1
      ensures r.fromCache <==> Lookup(old(cache), CacheKey(s)).Some?
      ensures r.fromCache ==>
        Lookup(old(log), CacheKey(s)) == Some(r.v) && log == old(log) && cache == old(cache) && hits == old(hits) + 1
      ensures r.fromCache ==> exists i: nat :: LatestLike(old(asked), s, i) && old(asked)[i].1 == r.v
      ensures (forall i :: 0 <= i < |old(asked)| ==> !Alike(old(asked)[i].0, s)) ==> !r.fromCache
      ensures asked == if !r.fromCache && generated.Ok? then old(asked) + [(s, r.v)] else old(asked)
      ensures !r.fromCache && generated.Ok? ==>
        && r.v == generated.value && log == old(log) + [(CacheKey(s), r.v)] && hits == old(hits)
        && cache == Insert(old(cache), CacheKey(s), r.v)
      ensures !r.fromCache && generated.Err? ==>
        r.v == ErrorVerdict(generated.error) && log == old(log) && cache == old(cache) && hits == old(hits)
      ensures old(TailOfLog()) ==> TailOfLog()
    {
      var k := CacheKey(s);
      var hit := Probe(k);
      LookupFindsLatestLike(asked, s);
      if hit.Some? {
        return Response(hit.value, true);
      }
      var v := Miss(s, k, generated);
      return Response(v, false);
    }
  }
}
