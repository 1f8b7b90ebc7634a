/** The in-memory rate limiter: the virtual scheduling form of GCRA (ITU-T I.371, Annex A). */
module Limiter {
  import opened Wrappers

  datatype Limit = Limit(rate: int, burst: int, period: int)

  datatype Result = Result(allowed: int, remaining: int, retryAfter: int, resetAfter: int)

  /** Limits the code can compute with: a zero rate or a zero emission interval divides by zero. */
  predicate Usable(l: Limit) { l.rate > 0 && l.period >= l.rate }

  /** period / rate, truncated. */
  function Interval(l: Limit): (t: int)
    requires Usable(l)
    ensures t > 0
  {
    assert l.period / l.rate >= 1 by { DivAtLeast(l.period, l.rate, 1); }
    l.period / l.rate
  }

  lemma DivAtLeast(a: int, b: int, n: int)
    requires b > 0
    ensures a / b >= n <==> a >= n * b
  {
    if a >= n * b {
      if a / b < n {
        assert a / b + 1 <= n;
        assert (a / b + 1) * b <= n * b by { MulMonotone(a / b + 1, n, b); }
        assert false;
      }
    } else if a / b >= n {
      assert (a / b) * b >= n * b by { MulMonotone(n, a / b, b); }
      assert false;
    }
  }

  lemma MulMonotone(x: int, y: int, b: int)
    requires x <= y && b >= 0
    ensures x * b <= y * b
  {
  }

  /** What Allow answers for a key whose stored arrival time is entry, and the time it stores if it allows. */
  datatype Decision = Allow(result: Result, tat: int) | Reject(result: Result)

  function Max(a: int, b: int): int { if a < b then b else a }

  function Decide(entry: Option<int>, now: int, l: Limit): Decision
    requires Usable(l)
  {
    var t := Interval(l);
    var tat := if entry.None? || entry.value < now then now else entry.value;
    var newTat := tat + t;
    var allowAt := newTat - t * l.burst;
    var diff := now - allowAt;
    if diff < 0 then Reject(Result(0, 0, allowAt - now, Max(tat - now, 0)))
    else Allow(Result(1, if diff / t > l.burst then l.burst else diff / t, -1, Max(newTat - now, 0)), newTat)
  }

  // ---- The limiter as an object ----

  datatype Request = Request(now: int, key: string, limit: Limit)

  function Entry(entries: map<string, int>, key: string): Option<int> {
    if key in entries then Some(entries[key]) else None
  }

  function Cleaned(entries: map<string, int>, now: int): map<string, int> {
    map k | k in entries && !(entries[k] < now) :: entries[k]
  }

  /** The entries after one request, without and with the cleanup of expired entries. */
  function Kept(entries: map<string, int>, r: Request): map<string, int>
    requires Usable(r.limit)
  {
    var d := Decide(Entry(entries, r.key), r.now, r.limit);
    if d.Reject? then entries else entries[r.key := d.tat]
  }

  function KeptAndCleaned(entries: map<string, int>, r: Request): map<string, int>
    requires Usable(r.limit)
  {
    var d := Decide(Entry(entries, r.key), r.now, r.limit);
    if d.Reject? then entries else Cleaned(entries[r.key := d.tat], r.now)
  }

  /** The answer in the caller's terms: whether the time has come, how long to wait, and what is stored. */
  ghost predicate AllowOk(before: map<string, int>, after: map<string, int>, now: int, key: string, l: Limit, r: Result)
    requires Usable(l)
  {
    var t := l.period / l.rate;
    var start := if key in before && before[key] > now then before[key] else now;
    var allowAt := start + t - t * l.burst;
    && (r.allowed == 1 <==> now >= allowAt) && (r.allowed == 0 <==> now < allowAt)
    && (now < allowAt ==> r.remaining == 0 && r.retryAfter == allowAt - now && r.resetAfter == start - now && after == before)
    && (now >= allowAt ==> r.retryAfter == -1 && r.resetAfter == start + t - now && Updated(before, after, now, key, start + t))
  }

  /** key gets its new time, expired keys go, the others stay as they are. */
  ghost predicate Updated(before: map<string, int>, after: map<string, int>, now: int, key: string, tat: int) {
    && (forall k :: k in after <==> k == key || (k in before && before[k] >= now))
    && (forall k :: k in after ==> after[k] == if k == key then tat else before[k])
  }

  lemma CleanedIsUpdated(before: map<string, int>, now: int, key: string, tat: int)
    requires tat >= now
    ensures Updated(before, Cleaned(before[key := tat], now), now, key, tat)
  {
  }

  lemma AllowMeans(before: map<string, int>, now: int, key: string, l: Limit)
    requires Usable(l)
    ensures AllowOk(before, KeptAndCleaned(before, Request(now, key, l)), now, key, l, Decide(Entry(before, key), now, l).result)
  {
    var d := Decide(Entry(before, key), now, l);
    if d.Allow? { CleanedIsUpdated(before, now, key, d.tat); }
  }

  class LocalLimiter {
    var entries: map<string, int>

    constructor ()
      ensures entries == map[]
    {
      entries := map[];
    }

    method Allow(now: int, key: string, limit: Limit) returns (r: Result)
      requires Usable(limit)
      modifies this
      ensures r == Decide(Entry(old(entries), key), now, limit).result
      ensures entries == KeptAndCleaned(old(entries), Request(now, key, limit))
      ensures AllowOk(old(entries), entries, now, key, limit, r)
    {
      AllowMeans(entries, now, key, limit);
      var emissionInterval := Interval(limit);
      var burstOffset := emissionInterval * limit.burst;
      var tat := now;
      if key in entries && !(entries[key] < now) { tat := entries[key]; }
      var newTat := tat + emissionInterval;
      var allowAt := newTat - burstOffset;
      var diff := now - allowAt;
      if diff < 0 {
        var resetAfter := tat - now;
        if resetAfter < 0 { resetAfter := 0; }
        return Result(0, 0, allowAt - now, resetAfter);
      }
      entries := entries[key := newTat];
      var remaining := diff / emissionInterval;
      if remaining > limit.burst { remaining := limit.burst; }
      var resetAfter := newTat - now;
      if resetAfter < 0 { resetAfter := 0; }
      Cleanup(now);
      return Result(1, remaining, -1, resetAfter);
    }

    method Cleanup(now: int)
      modifies this
      ensures entries == Cleaned(old(entries), now)
      ensures forall k :: k in entries <==> k in old(entries) && old(entries)[k] >= now
      ensures forall k :: k in entries ==> entries[k] == old(entries)[k]
    {
      var pending := entries.Keys;
      while pending != {}
        invariant pending <= old(entries).Keys
        invariant entries == map k | k in old(entries) && (k in pending || !(old(entries)[k] < now)) :: old(entries)[k]
        decreases pending
      {
        var key :| key in pending;
        if entries[key] < now { entries := entries - {key}; }
        pending := pending - {key};
      }
    }
  }

  // ---- Cleanup cannot be observed ----

  predicate UsableRun(reqs: seq<Request>) {
    && (forall i :: 0 <= i < |reqs| ==> Usable(reqs[i].limit))
    && (forall i, j :: 0 <= i < j < |reqs| ==> reqs[i].now <= reqs[j].now)
  }

  /** The entries after all requests, never cleaned. */
  function After(reqs: seq<Request>): map<string, int>
    requires UsableRun(reqs)
  {
    if reqs == [] then map[] else Kept(After(reqs[..|reqs| - 1]), reqs[|reqs| - 1])
  }

  function AfterCleaned(reqs: seq<Request>): map<string, int>
    requires UsableRun(reqs)
  {
    if reqs == [] then map[] else KeptAndCleaned(AfterCleaned(reqs[..|reqs| - 1]), reqs[|reqs| - 1])
  }

  /** The answer to request i of a run. */
  function AnswerAt(reqs: seq<Request>, i: nat): Decision
    requires UsableRun(reqs) && i < |reqs|
  {
    Decide(Entry(After(reqs[..i]), reqs[i].key), reqs[i].now, reqs[i].limit)
  }

  function CleanedAnswerAt(reqs: seq<Request>, i: nat): Decision
    requires UsableRun(reqs) && i < |reqs|
  {
    Decide(Entry(AfterCleaned(reqs[..i]), reqs[i].key), reqs[i].now, reqs[i].limit)
  }

  /** Cleaned entries are the full ones minus some that have expired by time t. */
  predicate Expired(full: map<string, int>, cleaned: map<string, int>, t: int) {
    && (forall k :: k in cleaned ==> k in full && full[k] == cleaned[k])
    && (forall k :: k in full && k !in cleaned ==> full[k] < t)
  }

  lemma {:induction false} CleanupDropsOnlyExpired(reqs: seq<Request>, t: int)
    requires UsableRun(reqs) && (forall i :: 0 <= i < |reqs| ==> reqs[i].now <= t)
    ensures Expired(After(reqs), AfterCleaned(reqs), t)
    decreases |reqs|
  {
    if reqs != [] {
      var last := reqs[|reqs| - 1];
      CleanupDropsOnlyExpired(reqs[..|reqs| - 1], last.now);
    }
  }

  /** On every request sequence with a clock that does not go back, cleanup changes no answer. */
  lemma CleanupIsInvisible(reqs: seq<Request>, i: nat)
    requires UsableRun(reqs) && i < |reqs|
    ensures CleanedAnswerAt(reqs, i) == AnswerAt(reqs, i)
  {
    CleanupDropsOnlyExpired(reqs[..i], reqs[i].now);
  }

  // ---- The rate is kept ----

  /** Request j was on the key and allowed. */
  predicate HitAt(reqs: seq<Request>, key: string, j: nat)
    requires UsableRun(reqs) && j < |reqs|
  {
    reqs[j].key == key && CleanedAnswerAt(reqs, j).result.allowed == 1
  }

  /** f at i, i + 1, up to j - 1. */
  function Flags(f: nat -> bool, i: nat, j: nat): seq<bool>
    decreases j
  {
    if i >= j then [] else Flags(f, i, j - 1) + [f(j - 1)]
  }

  function HitFlag(reqs: seq<Request>, key: string): nat -> bool
    requires UsableRun(reqs)
  {
    (m: nat) => m < |reqs| && HitAt(reqs, key, m)
  }

  /** For each of the requests i..j, whether it was on the key and allowed. */
  function Hits(reqs: seq<Request>, key: string, i: nat, j: nat): seq<bool>
    requires UsableRun(reqs)
  {
    Flags(HitFlag(reqs, key), i, j)
  }

  /** How many are true. */
  function Count(hits: seq<bool>): nat {
    if hits == [] then 0 else Count(hits[..|hits| - 1]) + (if hits[|hits| - 1] then 1 else 0)
  }

  /** Requests i..j on the key that were allowed. */
  function Allowed(reqs: seq<Request>, key: string, i: nat, j: nat): nat
    requires UsableRun(reqs)
  {
    Count(Hits(reqs, key, i, j))
  }

  /** An interval t for each that is true. */
  function Spent(hits: seq<bool>, t: int): int {
    if hits == [] then 0 else Spent(hits[..|hits| - 1], t) + (if hits[|hits| - 1] then t else 0)
  }

  lemma {:induction false} SpentIsCount(hits: seq<bool>, t: int)
    ensures Spent(hits, t) == Count(hits) * t
  {
    if hits != [] { SpentIsCount(hits[..|hits| - 1], t); }
  }

  lemma AllowedMovesArrival(entry: Option<int>, now: int, l: Limit)
    requires Usable(l) && Decide(entry, now, l).result.allowed == 1
    ensures var tat := Decide(entry, now, l).tat;
      && tat >= now + Interval(l) && (entry.Some? ==> tat >= entry.value + Interval(l))
      && tat - Interval(l) * l.burst <= now
  {
  }

  lemma KeptAt(reqs: seq<Request>, key: string, j: nat)
    requires UsableRun(reqs) && j < |reqs|
    ensures Entry(After(reqs[..j + 1]), key) ==
      if HitAt(reqs, key, j) then Some(CleanedAnswerAt(reqs, j).tat) else Entry(After(reqs[..j]), key)
  {
    CleanupIsInvisible(reqs, j);
    assert reqs[..j + 1][..j] == reqs[..j];
  }

  /** What one request does to a key's arrival time. */
  predicate Moves(e: Option<int>, after: Option<int>, hit: bool, now: int, t: int) {
    if hit then after.Some? && after.value >= now + t && (e.Some? ==> after.value >= e.value + t) else after == e
  }

  /** One request: an allowed one moves the key's arrival time by an interval or more, any other leaves it. */
  lemma ArrivalStep(reqs: seq<Request>, key: string, l: Limit, j: nat)
    requires UsableRun(reqs) && j < |reqs| && Usable(l) && (reqs[j].key == key ==> reqs[j].limit == l)
    ensures Moves(Entry(After(reqs[..j]), key), Entry(After(reqs[..j + 1]), key), HitAt(reqs, key, j), reqs[j].now, Interval(l))
  {
    KeptAt(reqs, key, j);
    CleanupIsInvisible(reqs, j);
    if HitAt(reqs, key, j) {
      AllowedMovesArrival(Entry(After(reqs[..j]), key), reqs[j].now, l);
    }
  }

  /** Over a stretch that starts with an allowed request the arrival time moves by an interval for each. */
  lemma {:induction false} MovesAddUp(arrival: nat -> Option<int>, hit: nat -> bool, now: nat -> int, t: int, i: nat, j: nat)
    requires i < j && hit(i)
    requires forall m: nat :: i <= m < j ==> Moves(arrival(m), arrival(m + 1), hit(m), now(m), t)
    ensures arrival(j).Some? && arrival(j).value >= now(i) + Spent(Flags(hit, i, j), t)
    decreases j
  {
    assert Moves(arrival(j - 1), arrival(j - 1 + 1), hit(j - 1), now(j - 1), t);
    if i < j - 1 { MovesAddUp(arrival, hit, now, t, i, j - 1); }
    SpentAppend(Flags(hit, i, j - 1), hit(j - 1), t);
  }

  lemma SpentAppend(hits: seq<bool>, hit: bool, t: int)
    ensures Spent(hits + [hit], t) == Spent(hits, t) + (if hit then t else 0)
  {
    assert (hits + [hit])[..|hits|] == hits;
  }

  lemma ArrivalTimeGrows(reqs: seq<Request>, key: string, l: Limit, i: nat, j: nat)
    requires UsableRun(reqs) && i < j <= |reqs| && Usable(l) && HitAt(reqs, key, i)
    requires forall m :: i <= m < j && reqs[m].key == key ==> reqs[m].limit == l
    ensures var e := Entry(After(reqs[..j]), key);
      e.Some? && e.value >= reqs[i].now + Spent(Hits(reqs, key, i, j), Interval(l))
  {
    var arrival := (m: nat) => if m <= |reqs| then Entry(After(reqs[..m]), key) else None;
    var now := (m: nat) => if m < |reqs| then reqs[m].now else 0;
    var hit := HitFlag(reqs, key);
    forall m: nat | i <= m < j ensures Moves(arrival(m), arrival(m + 1), hit(m), now(m), Interval(l)) {
      ArrivalStep(reqs, key, l, m);
    }
    MovesAddUp(arrival, hit, now, Interval(l), i, j);
  }

  /**
   * Conformance: n requests of one key allowed between the first at t1 and the last
   * at tn satisfy n * T <= (tn - t1) + burst * T, in every run of the code, cleanup
   * included and with any traffic on other keys.
   */
  lemma RateIsKept(reqs: seq<Request>, key: string, l: Limit, i: nat, j: nat)
    requires UsableRun(reqs) && i <= j < |reqs|
    requires reqs[i].key == key == reqs[j].key
    requires CleanedAnswerAt(reqs, i).result.allowed == 1 && CleanedAnswerAt(reqs, j).result.allowed == 1
    requires forall m :: i <= m <= j && reqs[m].key == key ==> reqs[m].limit == l
    ensures var t := l.period / l.rate;
      Allowed(reqs, key, i, j + 1) * t <= reqs[j].now - reqs[i].now + l.burst * t
  {
    var t := Interval(l);
    ArrivalTimeGrows(reqs, key, l, i, j + 1);
    SpentIsCount(Hits(reqs, key, i, j + 1), t);
    LastArrival(reqs, key, l, j);
    MulCommutes(t, l.burst);
    assert Allowed(reqs, key, i, j + 1) == Count(Hits(reqs, key, i, j + 1));
  }

  /** The arrival time an allowed request leaves is within the burst of its own time. */
  lemma LastArrival(reqs: seq<Request>, key: string, l: Limit, j: nat)
    requires UsableRun(reqs) && j < |reqs| && HitAt(reqs, key, j) && reqs[j].limit == l
    ensures var e := Entry(After(reqs[..j + 1]), key);
      e.Some? && e.value - Interval(l) * l.burst <= reqs[j].now
  {
    CleanupIsInvisible(reqs, j);
    KeptAt(reqs, key, j);
    AllowedMovesArrival(Entry(After(reqs[..j]), key), reqs[j].now, l);
  }

  lemma MulCommutes(x: int, y: int)
    ensures x * y == y * x
  {
  }

  // ---- The answers are exact ----

  /**
   * RetryAfter is the exact earliest time at which the key is allowed again, if
   * nothing else uses it: exactly when the burst is at least one.  With a smaller
   * burst nothing is ever allowed, and RetryAfter promises what never comes.
   */
  lemma RetryAfterIsExact(entry: Option<int>, now: int, l: Limit)
    requires Usable(l) && Decide(entry, now, l).result.allowed == 0
    ensures Decide(entry, now, l).result.retryAfter > 0
    ensures (forall t :: t >= now ==> (Decide(entry, t, l).result.allowed == 1 <==> t >= now + Decide(entry, now, l).result.retryAfter))
      <==> l.burst >= 1
  {
    var t := Interval(l);
    var d := Decide(entry, now, l).result.retryAfter;
    if l.burst >= 1 {
      assert t <= t * l.burst by { MulMonotone(1, l.burst, t); }
    } else {
      assert t * l.burst <= 0 by { MulMonotone(l.burst, 0, t); }
      assert Decide(entry, now + d, l).result.allowed == 0;
    }
  }

  /** The stored time after n more allowed requests at the same instant. */
  function More(tat: int, l: Limit, n: nat): int
    requires Usable(l)
  {
    tat + Interval(l) * n
  }

  /**
   * Remaining is exact: at the same instant exactly that many more requests are
   * allowed, each storing the next arrival time, and the one after them is not.
   */
  lemma RemainingIsExact(entry: Option<int>, now: int, l: Limit, n: nat)
    requires Usable(l) && Decide(entry, now, l).result.allowed == 1
    ensures var d := Decide(entry, now, l);
      && 0 <= d.result.remaining < l.burst
      && (n < d.result.remaining ==>
            && Decide(Some(More(d.tat, l, n)), now, l).result.allowed == 1
            && Decide(Some(More(d.tat, l, n)), now, l).tat == More(d.tat, l, n + 1))
      && (n == d.result.remaining ==> Decide(Some(More(d.tat, l, n)), now, l).result.allowed == 0)
  {
    var d, t := Decide(entry, now, l), Interval(l);
    RemainingIsQuotient(entry, now, l);
    StillFits(now - d.tat + t * l.burst, t, n);
    assert More(d.tat, l, n) >= d.tat by { MulMonotone(0, n, t); }
    AgainAt(More(d.tat, l, n), now, l);
  }

  lemma StillFits(diff: int, t: int, n: nat)
    requires t > 0
    ensures t * (n + 1) == t * n + t
    ensures n < diff / t <==> diff >= t * n + t
  {
    DivAtLeast(diff, t, n + 1);
  }

  lemma RemainingIsQuotient(entry: Option<int>, now: int, l: Limit)
    requires Usable(l) && Decide(entry, now, l).result.allowed == 1
    ensures var d, t := Decide(entry, now, l), Interval(l);
      && d.tat >= now + t
      && 0 <= d.result.remaining < l.burst
      && d.result.remaining == (now - d.tat + t * l.burst) / t
  {
    var d, t := Decide(entry, now, l), Interval(l);
    assert l.burst * t == t * l.burst;
    DivAtLeast(now - d.tat + t * l.burst, t, l.burst);
    DivAtLeast(now - d.tat + t * l.burst, t, 0);
  }

  /** A key whose arrival time v is not over: allowed exactly from v + t - t * burst on. */
  lemma AgainAt(v: int, now: int, l: Limit)
    requires Usable(l) && v >= now
    ensures var d := Decide(Some(v), now, l);
      && (d.result.allowed == 1 <==> now >= v + Interval(l) - Interval(l) * l.burst)
      && (d.result.allowed == 1 ==> d.tat == v + Interval(l))
  {
  }

  /** The key's stored time after a request. */
  function EntryAfter(entry: Option<int>, now: int, l: Limit): Option<int>
    requires Usable(l)
  {
    Entry(Kept(if entry.Some? then map["" := entry.value] else map[], Request(now, "", l)), "")
  }

  /**
   * ResetAfter is exact, after allowed and rejected requests alike: from then on, and
   * not before, the key is treated like one never seen.
   */
  lemma ResetAfterIsExact(entry: Option<int>, now: int, l: Limit, later: int, next: Limit)
    requires Usable(l) && Usable(next) && later >= now
    ensures Decide(EntryAfter(entry, now, l), later, next) == Decide(None, later, next) <==>
      later >= now + Decide(entry, now, l).result.resetAfter
  {
    assert EntryAfter(entry, now, l) == if Decide(entry, now, l).Allow? then Some(Decide(entry, now, l).tat) else entry;
  }
}
