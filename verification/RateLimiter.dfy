/** The per-client token bucket of main.go and the sweeper that evicts idle
    buckets. Time and tokens are real numbers; the clock is monotone. */
module RateLimiter {
  import opened Text

  datatype Params = Params(rate: real, burst: real)

  datatype Bucket = Bucket(tokens: real, last: real)

  type Visitors = map<string, Bucket>

  /** The values main.go runs with. */
  const PRODUCTION := Params(50.0, 100.0)
  const VISITOR_TTL := 600.0

  ghost predicate Valid(p: Params) { p.rate >= 0.0 && p.burst >= 1.0 }

  /** The tokens a bucket holds at `now`. */
  function Refilled(p: Params, b: Bucket, now: real): real {
    var tokens := b.tokens + (now - b.last) * p.rate;
    if tokens > p.burst then p.burst else tokens
  }

  /** One call of a client: its new bucket, and whether it is let in. */
  function Call(p: Params, b: Option<Bucket>, now: real): (Bucket, bool) {
    match b
    case None => (Bucket(p.burst - 1.0, now), true)
    case Some(b) =>
      var tokens := Refilled(p, b, now);
      if tokens < 1.0 then (Bucket(tokens, now), false) else (Bucket(tokens - 1.0, now), true)
  }

  function BucketOf(visitors: Visitors, ip: string): Option<Bucket> {
    if ip in visitors then Some(visitors[ip]) else None
  }

  /** The buckets the sweeper leaves. */
  function Kept(visitors: Visitors, now: real, ttl: real): Visitors {
    map ip | ip in visitors && !(visitors[ip].last < now - ttl) :: visitors[ip]
  }

  class IpRateLimiter {
    const p: Params
    var visitors: Visitors

    constructor (rate: real, burst: real)
      ensures p == Params(rate, burst) && visitors == map[]
    {
      p := Params(rate, burst);
      visitors := map[];
    }

    method Allow(ip: string, now: real) returns (ok: bool)
      modifies this
      ensures visitors == old(visitors)[ip := Call(p, BucketOf(old(visitors), ip), now).0]
      ensures ok == Call(p, BucketOf(old(visitors), ip), now).1
    {
      if ip !in visitors {
        visitors := visitors[ip := Bucket(p.burst - 1.0, now)];
        return true;
      }
      var b := visitors[ip];
      var tokens := b.tokens + (now - b.last) * p.rate;
      if tokens > p.burst {
        tokens := p.burst;
      }
      if tokens < 1.0 {
        visitors := visitors[ip := Bucket(tokens, now)];
        return false;
      }
      visitors := visitors[ip := Bucket(tokens - 1.0, now)];
      return true;
    }

    method Evict(now: real, ttl: real)
      modifies this
      ensures visitors == Kept(old(visitors), now, ttl)
    {
      var cutoff := now - ttl;
      var left := visitors.Keys;
      while left != {}
        invariant left <= old(visitors).Keys
        invariant forall ip :: ip in visitors <==>
                    ip in old(visitors) && (ip in left || !(old(visitors)[ip].last < cutoff))
        invariant forall ip :: ip in visitors ==> visitors[ip] == old(visitors)[ip]
        decreases left
      {
        var ip :| ip in left;
        if visitors[ip].last < cutoff {
          visitors := visitors - {ip};
        }
        left := left - {ip};
      }
    }
  }

  // ------------------------------------------------------------ one client

  /** The bucket after a client's calls at these times, from no bucket. */
  function After(p: Params, times: seq<real>): Option<Bucket> {
    if times == [] then None
    else
      var n := |times| - 1;
      Some(Call(p, After(p, times[..n]), times[n]).0)
  }

  /** The answers to those calls. */
  function Answers(p: Params, times: seq<real>): (answers: seq<bool>)
    ensures |answers| == |times|
  {
    if times == [] then []
    else
      var n := |times| - 1;
      Answers(p, times[..n]) + [Call(p, After(p, times[..n]), times[n]).1]
  }

  ghost predicate Monotone(times: seq<real>) {
    forall i, j :: 0 <= i <= j < |times| ==> times[i] <= times[j]
  }

  function Count(answers: seq<bool>): nat {
    if answers == [] then 0
    else Count(answers[..|answers| - 1]) + if answers[|answers| - 1] then 1 else 0
  }

  /** The tokens the last call finds. */
  function Level(p: Params, times: seq<real>): real
    requires times != []
  {
    var n := |times| - 1;
    match After(p, times[..n])
    case None => p.burst
    case Some(b) => Refilled(p, b, times[n])
  }

  /** The tokens gained between two instants. */
  function Gain(p: Params, from: real, to: real): real {
    p.rate * (to - from)
  }

  lemma GainAdds(p: Params, from: real, mid: real, to: real)
    ensures Gain(p, from, to) == Gain(p, from, mid) + Gain(p, mid, to)
  {
    assert to - from == (mid - from) + (to - mid);
  }

  lemma GainMonotone(p: Params, from: real, from': real, to: real, to': real)
    requires Valid(p) && from' <= from && to <= to'
    ensures Gain(p, from, to) <= Gain(p, from', to')
  {
  }

  /** What is left, at the last call, of the allowance of the window that opens at
      call `i`: the burst, plus the refill since, minus the calls let in. */
  ghost function Allowance(p: Params, times: seq<real>, i: nat): real
    requires i < |times|
  {
    var n := |times| - 1;
    p.burst + Gain(p, times[i], times[n]) - Count(Answers(p, times)[i..n]) as real
  }

  lemma AnswersPrefix(p: Params, times: seq<real>, k: nat)
    requires k <= |times|
    ensures Answers(p, times[..k]) == Answers(p, times)[..k]
    decreases |times| - k
  {
    if k == |times| {
      assert times[..k] == times;
    } else {
      AnswersPrefix(p, times, k + 1);
      assert times[..k + 1][..k] == times[..k];
    }
  }

  lemma CountLast(answers: seq<bool>, i: nat, n: nat)
    requires i < n <= |answers|
    ensures Count(answers[i..n]) == Count(answers[i..n - 1]) + (if answers[n - 1] then 1 else 0)
  {
    assert answers[i..n][..n - 1 - i] == answers[i..n - 1];
  }

  lemma AllowanceStep(p: Params, times: seq<real>, i: nat)
    requires i + 1 < |times|
    ensures var n := |times| - 1;
            Allowance(p, times, i) == Allowance(p, times[..n], i) + Gain(p, times[n - 1], times[n])
              - (if Answers(p, times)[n - 1] then 1.0 else 0.0)
  {
    hide Answers, Count, Gain;
    var n := |times| - 1;
    var answers := Answers(p, times);
    AnswersPrefix(p, times, n);
    assert answers[..n][i..n - 1] == answers[i..n - 1];
    CountLast(answers, i, n);
    GainAdds(p, times[i], times[n - 1], times[n]);
  }

  lemma RefilledLevel(p: Params, b: Bucket, now: real)
    ensures Refilled(p, b, now)
         == var carried := b.tokens + Gain(p, b.last, now); if carried > p.burst then p.burst else carried
  {
  }

  lemma LevelStep(p: Params, times: seq<real>)
    requires |times| > 1
    ensures var n := |times| - 1;
            var carried := Level(p, times[..n]) - (if Answers(p, times)[n - 1] then 1.0 else 0.0)
                         + Gain(p, times[n - 1], times[n]);
            Level(p, times) == if carried > p.burst then p.burst else carried
  {
    var n := |times| - 1;
    var before := times[..n];
    AnswersPrefix(p, times, n);
    assert Answers(p, times)[n - 1] == Answers(p, before)[n - 1];
    assert before[..n - 1] == times[..n - 1];
    RefilledLevel(p, After(p, before).value, times[n]);
    hide Gain, Refilled;
  }

  /** The bucket's level is the tightest of all the windows' remaining allowances. */
  lemma {:induction false} LevelIsTightest(p: Params, times: seq<real>)
    requires Valid(p) && Monotone(times) && times != []
    ensures forall i :: 0 <= i < |times| ==> Level(p, times) <= Allowance(p, times, i)
    ensures exists i :: 0 <= i < |times| && Level(p, times) == Allowance(p, times, i)
    decreases |times|
  {
    var n := |times| - 1;
    assert Answers(p, times)[n..n] == [];
    assert Gain(p, times[n], times[n]) == 0.0;
    assert Allowance(p, times, n) == p.burst;
    hide Gain, Count, Answers;
    if n == 0 {
      assert Level(p, times) == p.burst;
    } else {
      var before := times[..n];
      LevelIsTightest(p, before);
      LevelStep(p, times);
      forall i | 0 <= i < n
        ensures Level(p, times) <= Allowance(p, times, i)
      {
        AllowanceStep(p, times, i);
      }
      var k :| 0 <= k < n && Level(p, before) == Allowance(p, before, k);
      AllowanceStep(p, times, k);
      assert Level(p, times) == p.burst || Level(p, times) == Allowance(p, times, k);
    }
  }

  lemma LastAnswer(p: Params, times: seq<real>)
    requires Valid(p) && times != []
    ensures Answers(p, times)[|times| - 1] <==> Level(p, times) >= 1.0
  {
  }

  /** A call is refused exactly when some window ending at it is already used up. */
  lemma RefusedExactly(p: Params, times: seq<real>)
    requires Valid(p) && Monotone(times) && times != []
    ensures var n := |times| - 1;
            !Answers(p, times)[n] <==>
              exists i :: 0 <= i <= n && Allowance(p, times, i) < 1.0
  {
    LevelIsTightest(p, times);
    LastAnswer(p, times);
  }

  // ------------------------------------------------------------ windows of time

  /** The calls let in at times in [from, to]. */
  function AdmittedWithin(times: seq<real>, answers: seq<bool>, from: real, to: real): nat
    requires |times| == |answers|
  {
    if times == [] then 0
    else
      var n := |times| - 1;
      AdmittedWithin(times[..n], answers[..n], from, to)
      + if answers[n] && from <= times[n] <= to then 1 else 0
  }

  /** The first call at or after `from`. */
  function FirstSince(times: seq<real>, from: real): (i: nat)
    ensures i <= |times|
    ensures forall k :: 0 <= k < i ==> times[k] < from
    ensures i < |times| ==> from <= times[i]
  {
    if times == [] || from <= times[0] then 0 else 1 + FirstSince(times[1..], from)
  }

  /** In a monotone history the calls of a window that reaches the end are a suffix. */
  lemma {:induction false} WindowIsSuffix(times: seq<real>, answers: seq<bool>, from: real, to: real, i: nat)
    requires |times| == |answers| && Monotone(times) && i <= |times|
    requires forall k :: 0 <= k < i ==> times[k] < from
    requires forall k :: i <= k < |times| ==> from <= times[k] <= to
    ensures AdmittedWithin(times, answers, from, to) == Count(answers[i..])
  {
    if times != [] {
      var n := |times| - 1;
      WindowIsSuffix(times[..n], answers[..n], from, to, if i <= n then i else n);
      if i <= n {
        assert answers[..n][i..] == answers[i..][..n - i];
        assert answers[i..][n - i] == answers[n];
      } else {
        assert answers[..n][n..] == [] && answers[i..] == [];
      }
    }
  }

  lemma {:induction false} CountMonotone(answers: seq<bool>, i: nat, j: nat)
    requires i <= j <= |answers|
    ensures Count(answers[j..]) <= Count(answers[i..])
    decreases |answers|
  {
    if j < |answers| {
      var n := |answers| - 1;
      CountMonotone(answers[..n], i, j);
      assert answers[i..][..n - i] == answers[..n][i..];
      assert answers[j..][..n - j] == answers[..n][j..];
    } else {
      assert answers[j..] == [];
    }
  }

  /** The window that opens at the instant of call `i` opens at the first call of
      that instant. */
  lemma WindowOfCall(p: Params, times: seq<real>, i: nat)
    requires Monotone(times) && i < |times|
    ensures var n, answers, j := |times| - 1, Answers(p, times), FirstSince(times, times[i]);
            j <= i && times[j] == times[i]
            && AdmittedWithin(times[..n], answers[..n], times[i], times[n]) == Count(answers[j..n])
            && Count(answers[i..n]) <= Count(answers[j..n])
  {
    hide Answers, Count, AdmittedWithin;
    var n, answers, j := |times| - 1, Answers(p, times), FirstSince(times, times[i]);
    assert j <= i;
    assert answers[..n][i..] == answers[i..n] && answers[..n][j..] == answers[j..n];
    WindowIsSuffix(times[..n], answers[..n], times[i], times[n], j);
    CountMonotone(answers[..n], j, i);
  }

  /** The calls let in from the instant of call `i` on, plus this last one, exceed
      what the bucket allows over that time. */
  ghost predicate Exceeds(p: Params, times: seq<real>, i: nat)
    requires i < |times|
  {
    var n := |times| - 1;
    AdmittedWithin(times[..n], Answers(p, times)[..n], times[i], times[n]) as real + 1.0
      > p.burst + Gain(p, times[i], times[n])
  }

  /** The limiter is exact: the call at time t is refused if and only if, for some
      call instant s of the client's history up to and including this call, the
      calls let in from s on, plus this one, exceed burst + rate * (t - s). */
  lemma LimiterExact(p: Params, times: seq<real>)
    requires Valid(p) && Monotone(times) && times != []
    ensures !Answers(p, times)[|times| - 1] <==> exists i :: 0 <= i < |times| && Exceeds(p, times, i)
  {
    hide Answers, Count, AdmittedWithin, Gain;
    RefusedExactly(p, times);
    if i :| 0 <= i < |times| && Allowance(p, times, i) < 1.0 {
      WindowOfCall(p, times, i);
      assert Exceeds(p, times, i);
    }
    if i :| 0 <= i < |times| && Exceeds(p, times, i) {
      WindowOfCall(p, times, i);
      assert Allowance(p, times, FirstSince(times, times[i])) < 1.0;
    }
  }

  /** No window of time ever admits more than burst + rate * length. */
  lemma {:induction false} WindowBound(p: Params, times: seq<real>, from: real, to: real)
    requires Valid(p) && Monotone(times) && from <= to
    ensures AdmittedWithin(times, Answers(p, times), from, to) as real <= p.burst + Gain(p, from, to)
    decreases |times|
  {
    if times == [] {
      GainMonotone(p, from, from, from, to);
      assert Gain(p, from, from) == 0.0;
    } else {
      var n, answers := |times| - 1, Answers(p, times);
      AnswersPrefix(p, times, n);
      if answers[n] && from <= times[n] <= to {
        LastOfWindow(p, times, from, to);
      } else {
        WindowBound(p, times[..n], from, to);
      }
    }
  }

  lemma LastOfWindow(p: Params, times: seq<real>, from: real, to: real)
    requires Valid(p) && Monotone(times) && times != []
    requires Answers(p, times)[|times| - 1] && from <= times[|times| - 1] <= to
    ensures AdmittedWithin(times, Answers(p, times), from, to) as real <= p.burst + Gain(p, from, to)
  {
    hide Answers, Count, AdmittedWithin, Gain;
    var n, answers, i := |times| - 1, Answers(p, times), FirstSince(times, from);
    WindowIsSuffix(times, answers, from, to, i);
    RefusedExactly(p, times);
    assert answers[i..] == answers[i..n + 1];
    CountLastOf(answers, i);
    assert Allowance(p, times, i) >= 1.0;
    GainMonotone(p, times[i], from, times[n], to);
  }

  lemma CountLastOf(answers: seq<bool>, i: nat)
    requires i < |answers|
    ensures var n := |answers| - 1;
            Count(answers[i..]) == Count(answers[i..n]) + (if answers[n] then 1 else 0)
  {
    var n := |answers| - 1;
    assert answers[i..][..n - i] == answers[i..n];
  }

  // ------------------------------------------------------------ many clients and the sweeper

  /** What happens to the limiter, in order: a call from a client, or a sweep. */
  datatype Event = Request(ip: string, at: real) | Sweep(at: real)

  predicate MonotoneEvents(events: seq<Event>) {
    forall i, j :: 0 <= i <= j < |events| ==> events[i].at <= events[j].at
  }

  function Visited(p: Params, ttl: real, events: seq<Event>): Visitors {
    if events == [] then map[]
    else
      var n := |events| - 1;
      var before := Visited(p, ttl, events[..n]);
      match events[n]
      case Request(ip, at) => before[ip := Call(p, BucketOf(before, ip), at).0]
      case Sweep(at) => Kept(before, at, ttl)
  }

  /** The answers one client gets out of the whole run. */
  function ClientAnswers(p: Params, ttl: real, events: seq<Event>, ip: string): seq<bool> {
    if events == [] then []
    else
      var n := |events| - 1;
      var before := ClientAnswers(p, ttl, events[..n], ip);
      if events[n].Request? && events[n].ip == ip then
        before + [Call(p, BucketOf(Visited(p, ttl, events[..n]), ip), events[n].at).1]
      else before
  }

  /** The times of one client's calls. */
  function CallTimes(events: seq<Event>, ip: string): seq<real> {
    if events == [] then []
    else
      var n := |events| - 1;
      var before := CallTimes(events[..n], ip);
      if events[n].Request? && events[n].ip == ip then before + [events[n].at] else before
  }

  function CallsOnly(events: seq<Event>): seq<Event> {
    if events == [] then []
    else
      var n := |events| - 1;
      CallsOnly(events[..n]) + if events[n].Request? then [events[n]] else []
  }

  /** An evicted bucket is one that has been idle long enough to be full again. */
  ghost predicate SameOrIdle(p: Params, ttl: real, kept: Option<Bucket>, own: Option<Bucket>, now: real) {
    match own
    case None => kept == None
    case Some(b) =>
      b.tokens >= 0.0 && b.last <= now && (kept == own || (kept == None && b.last + ttl < now))
  }

  lemma IdleIsFull(p: Params, ttl: real, b: Bucket, now: real)
    requires Valid(p) && p.rate * ttl >= p.burst
    requires b.tokens >= 0.0 && b.last + ttl <= now
    ensures Call(p, Some(b), now) == Call(p, None, now)
  {
    GainAtLeast(p, b.last, now, ttl);
    RefilledLevel(p, b, now);
    hide Gain, Refilled;
  }

  lemma GainAtLeast(p: Params, from: real, to: real, elapsed: real)
    requires Valid(p) && elapsed <= to - from
    ensures Gain(p, from, to) >= p.rate * elapsed
  {
    var extra := (to - from) - elapsed;
    assert p.rate * extra >= 0.0;
    assert p.rate * (elapsed + extra) == p.rate * elapsed + p.rate * extra;
  }

  /** Whatever the sweeper did, a client's bucket is the one its own calls alone
      would have left, or it is gone and that bucket is idle past the ttl. */
  lemma {:induction false} SweptBucket(p: Params, ttl: real, events: seq<Event>, ip: string, now: real)
    requires Valid(p) && p.rate * ttl >= p.burst
    requires MonotoneEvents(events) && forall i :: 0 <= i < |events| ==> events[i].at <= now
    ensures SameOrIdle(p, ttl, BucketOf(Visited(p, ttl, events), ip), After(p, CallTimes(events, ip)), now)
    decreases |events|
  {
    if events != [] {
      var n := |events| - 1;
      var at := events[n].at;
      SweptBucket(p, ttl, events[..n], ip, at);
      var kept, own := BucketOf(Visited(p, ttl, events[..n]), ip), After(p, CallTimes(events[..n], ip));
      if events[n].Request? && events[n].ip == ip {
        var times := CallTimes(events[..n], ip);
        assert (times + [at])[..|times|] == times;
        if kept != own {
          IdleIsFull(p, ttl, own.value, at);
        }
        CallKeepsTokens(p, own, at);
      }
    }
  }

  lemma CallKeepsTokens(p: Params, b: Option<Bucket>, now: real)
    requires Valid(p) && (b.Some? ==> b.value.tokens >= 0.0 && b.value.last <= now)
    ensures Call(p, b, now).0.tokens >= 0.0 && Call(p, b, now).0.last == now
  {
    if b.Some? {
      GainAtLeast(p, b.value.last, now, 0.0);
      RefilledLevel(p, b.value, now);
      hide Gain, Refilled;
    }
  }

  /** Under any mix of clients and sweeps, each client is answered exactly as if it
      were alone and never swept, as long as an idle bucket refills within the ttl. */
  lemma {:induction false} ClientsIndependent(p: Params, ttl: real, events: seq<Event>, ip: string)
    requires Valid(p) && p.rate * ttl >= p.burst && MonotoneEvents(events)
    ensures ClientAnswers(p, ttl, events, ip) == Answers(p, CallTimes(events, ip))
    decreases |events|
  {
    if events != [] {
      var n := |events| - 1;
      ClientsIndependent(p, ttl, events[..n], ip);
      if events[n].Request? && events[n].ip == ip {
        var times := CallTimes(events[..n], ip);
        assert (times + [events[n].at])[..|times|] == times;
        SweptBucket(p, ttl, events[..n], ip, events[n].at);
        var kept, own := BucketOf(Visited(p, ttl, events[..n]), ip), After(p, times);
        if kept != own {
          IdleIsFull(p, ttl, own.value, events[n].at);
        }
      }
    }
  }

  lemma CallTimesAppend(events: seq<Event>, e: Event, ip: string)
    ensures CallTimes(events + [e], ip)
         == if e.Request? && e.ip == ip then CallTimes(events, ip) + [e.at] else CallTimes(events, ip)
  {
    assert (events + [e])[..|events|] == events;
  }

  lemma MonotoneAppend(events: seq<Event>, e: Event, source: seq<Event>)
    requires MonotoneEvents(events) && MonotoneEvents(source + [e])
    requires forall x :: x in events ==> x in source
    ensures MonotoneEvents(events + [e])
  {
    var all := events + [e];
    forall i, j | 0 <= i <= j < |all| ensures all[i].at <= all[j].at {
      if i < |events| == j {
        assert events[i] in source;
        var k :| 0 <= k < |source| && source[k] == events[i];
        assert (source + [e])[k].at <= (source + [e])[|source|].at;
      }
    }
  }

  lemma {:induction false} CallsOnlyTimes(events: seq<Event>, ip: string)
    requires MonotoneEvents(events)
    ensures CallTimes(CallsOnly(events), ip) == CallTimes(events, ip)
    ensures forall e :: e in CallsOnly(events) ==> e in events
    ensures MonotoneEvents(CallsOnly(events))
    decreases |events|
  {
    if events != [] {
      var n := |events| - 1;
      var before, e := events[..n], events[n];
      assert before + [e] == events;
      assert CallsOnly(events) == if e.Request? then CallsOnly(before) + [e] else CallsOnly(before);
      hide CallsOnly, CallTimes;
      CallsOnlyTimes(before, ip);
      CallTimesAppend(before, e, ip);
      if e.Request? {
        CallTimesAppend(CallsOnly(before), e, ip);
        MonotoneAppend(CallsOnly(before), e, before);
      }
    }
  }

  /** The sweeper cannot be observed: dropping every sweep from a run changes no
      client's answers. */
  lemma SweepsUnobservable(p: Params, ttl: real, events: seq<Event>, ip: string)
    requires Valid(p) && p.rate * ttl >= p.burst && MonotoneEvents(events)
    ensures ClientAnswers(p, ttl, events, ip) == ClientAnswers(p, ttl, CallsOnly(events), ip)
  {
    CallsOnlyTimes(events, ip);
    ClientsIndependent(p, ttl, events, ip);
    ClientsIndependent(p, ttl, CallsOnly(events), ip);
  }

  /** The configuration main.go runs with meets the condition. */
  lemma ProductionUnobservable(events: seq<Event>, ip: string)
    requires MonotoneEvents(events)
    ensures ClientAnswers(PRODUCTION, VISITOR_TTL, events, ip)
         == ClientAnswers(PRODUCTION, VISITOR_TTL, CallsOnly(events), ip)
  {
    SweepsUnobservable(PRODUCTION, VISITOR_TTL, events, ip);
  }
}
