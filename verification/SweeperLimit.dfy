/** Exactly when the idle sweeper of main.go cannot be observed: when a bucket left idle
    for the ttl is full again. */
module SweeperLimit {
  import opened Text
  import opened RateLimiter

  /** In no run does leaving out the sweeps change an answer. */
  ghost predicate NeverObserved(p: Params, ttl: real) {
    forall events, ip :: MonotoneEvents(events) ==>
      ClientAnswers(p, ttl, events, ip) == ClientAnswers(p, ttl, CallsOnly(events), ip)
  }

  // ------------------------------------------------------------ one client's runs

  /** Calls of one client at these times. */
  function Requests(ip: string, times: seq<real>): (events: seq<Event>)
    ensures |events| == |times|
    ensures forall i :: 0 <= i < |times| ==> events[i] == Request(ip, times[i])
  {
    seq(|times|, i requires 0 <= i < |times| => Request(ip, times[i]))
  }

  lemma EventsAppend(p: Params, ttl: real, events: seq<Event>, e: Event, ip: string)
    ensures ClientAnswers(p, ttl, events + [e], ip)
         == if e.Request? && e.ip == ip then ClientAnswers(p, ttl, events, ip)
              + [Call(p, BucketOf(Visited(p, ttl, events), ip), e.at).1]
            else ClientAnswers(p, ttl, events, ip)
    ensures BucketOf(Visited(p, ttl, events + [e]), ip)
         == if e.Sweep? then BucketOf(Kept(Visited(p, ttl, events), e.at, ttl), ip)
            else if e.ip == ip then Some(Call(p, BucketOf(Visited(p, ttl, events), ip), e.at).0)
            else BucketOf(Visited(p, ttl, events), ip)
    ensures CallsOnly(events + [e]) == CallsOnly(events) + if e.Request? then [e] else []
  {
    assert (events + [e])[..|events|] == events;
  }

  /** A client without a bucket is answered as if it had never called before. */
  lemma {:induction false} FreshCalls(p: Params, ttl: real, before: seq<Event>, ip: string, times: seq<real>)
    requires BucketOf(Visited(p, ttl, before), ip) == None
    ensures ClientAnswers(p, ttl, before + Requests(ip, times), ip)
         == ClientAnswers(p, ttl, before, ip) + Answers(p, times)
    ensures BucketOf(Visited(p, ttl, before + Requests(ip, times)), ip) == After(p, times)
    ensures CallsOnly(before + Requests(ip, times)) == CallsOnly(before) + Requests(ip, times)
    decreases |times|
  {
    if times == [] {
      assert before + Requests(ip, times) == before;
      assert ClientAnswers(p, ttl, before, ip) + [] == ClientAnswers(p, ttl, before, ip);
      assert CallsOnly(before) + [] == CallsOnly(before);
    } else {
      var n := |times| - 1;
      var head, e := before + Requests(ip, times[..n]), Request(ip, times[n]);
      assert before + Requests(ip, times) == head + [e];
      assert Requests(ip, times) == Requests(ip, times[..n]) + [e];
      FreshCalls(p, ttl, before, ip, times[..n]);
      EventsAppend(p, ttl, head, e, ip);
      AnswersLast(p, times);
      hide *;
      Assoc(ClientAnswers(p, ttl, before, ip), Answers(p, times[..n]), [Call(p, After(p, times[..n]), times[n]).1]);
      Assoc(CallsOnly(before), Requests(ip, times[..n]), [e]);
    }
  }

  lemma AnswersLast(p: Params, times: seq<real>)
    requires times != []
    ensures var n := |times| - 1;
            Answers(p, times) == Answers(p, times[..n]) + [Call(p, After(p, times[..n]), times[n]).1]
            && After(p, times) == Some(Call(p, After(p, times[..n]), times[n]).0)
  {
  }

  // ------------------------------------------------------------ spending a full bucket

  function Times(n: nat, at: real): seq<real> {
    seq(n, i => at)
  }

  ghost predicate AllTrue(answers: seq<bool>) {
    forall i :: 0 <= i < |answers| ==> answers[i]
  }

  lemma NoTime(rate: real, at: real)
    ensures (at - at) * rate == 0.0
  {
  }

  lemma SpendOne(p: Params, tokens: real, at: real)
    requires 1.0 <= tokens <= p.burst
    ensures Call(p, Some(Bucket(tokens, at)), at) == (Bucket(tokens - 1.0, at), true)
  {
    NoTime(p.rate, at);
    assert Refilled(p, Bucket(tokens, at), at) == tokens;
  }

  /** `n` calls at one instant are let in as long as the burst lasts. */
  lemma {:induction false} Spend(p: Params, n: nat, at: real)
    requires Valid(p) && 1 <= n && n as real <= p.burst
    ensures AllTrue(Answers(p, Times(n, at)))
    ensures After(p, Times(n, at)) == Some(Bucket(p.burst - n as real, at))
    decreases n
  {
    var times := Times(n, at);
    AnswersLast(p, times);
    assert times[..n - 1] == Times(n - 1, at);
    if n > 1 {
      Spend(p, n - 1, at);
      SpendOne(p, p.burst - (n - 1) as real, at);
      hide Call;
    } else {
      assert After(p, []) == None && Answers(p, []) == [];
    }
  }

  /** The whole burst at `at`, and one more call as soon as a whole token is there again. */
  function Drain(p: Params, m: nat, wait: real, at: real): seq<real> {
    Times(m, at) + if wait > 0.0 then [at + wait] else []
  }

  lemma DrainAll(p: Params, m: nat, wait: real, at: real)
    requires Valid(p) && 1 <= m && m as real <= p.burst && wait >= 0.0
    requires wait > 0.0 ==> p.burst - m as real + wait * p.rate == 1.0
    ensures AllTrue(Answers(p, Drain(p, m, wait, at)))
    ensures After(p, Drain(p, m, wait, at)).Some? && After(p, Drain(p, m, wait, at)).value.last == at + wait
  {
    Spend(p, m, at);
    if wait > 0.0 {
      Regained(p, m, wait, at);
      hide *;
      OneMore(p, Times(m, at), at + wait);
      assert Drain(p, m, wait, at) == Times(m, at) + [at + wait] by { DrainIs(p, m, wait, at); }
    } else {
      DrainIs(p, m, wait, at);
    }
  }

  lemma DrainIs(p: Params, m: nat, wait: real, at: real)
    ensures Drain(p, m, wait, at) == if wait > 0.0 then Times(m, at) + [at + wait] else Times(m, at)
  {
    assert Times(m, at) + [] == Times(m, at);
  }

  /** The bucket spent down to a part of a token has a whole one after the wait. */
  lemma Regained(p: Params, m: nat, wait: real, at: real)
    requires Valid(p) && p.burst - m as real + wait * p.rate == 1.0
    ensures Call(p, Some(Bucket(p.burst - m as real, at)), at + wait) == (Bucket(0.0, at + wait), true)
  {
    var b, passed := Bucket(p.burst - m as real, at), (at + wait) - at;
    assert passed == wait && passed * p.rate == wait * p.rate;
    assert Refilled(p, b, at + wait) == 1.0;
  }

  lemma OneMore(p: Params, times: seq<real>, t: real)
    requires AllTrue(Answers(p, times)) && Call(p, After(p, times), t) == (Bucket(0.0, t), true)
    ensures AllTrue(Answers(p, times + [t])) && After(p, times + [t]) == Some(Bucket(0.0, t))
  {
    AnswersLast(p, times + [t]);
    assert (times + [t])[..|times|] == times;
    hide Answers, After, Call;
  }

  lemma DrainMonotone(p: Params, m: nat, wait: real, at: real, at': real)
    requires wait >= 0.0 && at + wait <= at'
    ensures Monotone(Drain(p, m, wait, at) + Drain(p, m, wait, at'))
    ensures forall i :: 0 <= i < |Drain(p, m, wait, at) + Drain(p, m, wait, at')| ==>
              at <= (Drain(p, m, wait, at) + Drain(p, m, wait, at'))[i] <= at' + wait
  {
  }

  lemma {:induction false} AllAdmitted(times: seq<real>, answers: seq<bool>, from: real, to: real)
    requires |times| == |answers| && AllTrue(answers) && forall i :: 0 <= i < |times| ==> from <= times[i] <= to
    ensures AdmittedWithin(times, answers, from, to) == |times|
    decreases |times|
  {
    if times != [] { AllAdmitted(times[..|times| - 1], answers[..|times| - 1], from, to); }
  }

  // ------------------------------------------------------------ a run that shows the sweep

  /** Drain the bucket, sweep it away once it is idle past the ttl, drain the fresh one. */
  function Witness(p: Params, m: nat, wait: real, gap: real): seq<Event> {
    Requests("ip", Drain(p, m, wait, 0.0)) + [Sweep(wait + gap)] + Requests("ip", Drain(p, m, wait, wait + gap))
  }

  lemma WitnessMonotone(p: Params, m: nat, wait: real, gap: real)
    requires wait >= 0.0 && gap >= 0.0
    ensures MonotoneEvents(Witness(p, m, wait, gap))
  {
  }

  lemma WitnessAnswers(p: Params, ttl: real, m: nat, wait: real, gap: real)
    requires Valid(p) && 1 <= m && m as real <= p.burst && wait >= 0.0
    requires wait > 0.0 ==> p.burst - m as real + wait * p.rate == 1.0
    requires gap > ttl
    ensures var events, a, b := Witness(p, m, wait, gap), Drain(p, m, wait, 0.0), Drain(p, m, wait, wait + gap);
            ClientAnswers(p, ttl, events, "ip") == Answers(p, a) + Answers(p, b)
            && AllTrue(Answers(p, a) + Answers(p, b))
            && ClientAnswers(p, ttl, CallsOnly(events), "ip") == Answers(p, a + b)
  {
    hide *;
    var a, b := Drain(p, m, wait, 0.0), Drain(p, m, wait, wait + gap);
    DrainAll(p, m, wait, 0.0);
    DrainAll(p, m, wait, wait + gap);
    WitnessIs(p, m, wait, gap);
    PastTtl(wait, gap, ttl);
    SweptRun(p, ttl, a, b, wait + gap);
    BothTrue(Answers(p, a), Answers(p, b));
  }

  lemma PastTtl(wait: real, gap: real, ttl: real)
    requires gap > ttl
    ensures 0.0 + wait < wait + gap - ttl
  {
  }

  lemma WitnessIs(p: Params, m: nat, wait: real, gap: real)
    ensures Witness(p, m, wait, gap)
         == Requests("ip", Drain(p, m, wait, 0.0)) + [Sweep(wait + gap)] + Requests("ip", Drain(p, m, wait, wait + gap))
  {
  }

  lemma BothTrue(a: seq<bool>, b: seq<bool>)
    requires AllTrue(a) && AllTrue(b)
    ensures AllTrue(a + b)
  {
  }

  /** Calls, a sweep past the ttl, and calls again: with the sweep the second calls are
      answered afresh, without it all are answered as one history. */
  lemma SweptRun(p: Params, ttl: real, a: seq<real>, b: seq<real>, at: real)
    requires After(p, a).Some? && After(p, a).value.last < at - ttl
    ensures var events := Requests("ip", a) + [Sweep(at)] + Requests("ip", b);
            ClientAnswers(p, ttl, events, "ip") == Answers(p, a) + Answers(p, b)
            && ClientAnswers(p, ttl, CallsOnly(events), "ip") == Answers(p, a + b)
  {
    var first, sweep := Requests("ip", a), Sweep(at);
    NoEvents(p, ttl);
    SweptAway(p, ttl, first, at);
    hide *;
    NewCalls(p, ttl, a);
    EventsAppend(p, ttl, first, sweep, "ip");
    SweptAway(p, ttl, first, at);
    FreshCalls(p, ttl, first + [sweep], "ip", b);
    NothingAdded(CallsOnly(first));
    RequestsConcat(a, b);
    NewCalls(p, ttl, a + b);
  }

  lemma NewCalls(p: Params, ttl: real, times: seq<real>)
    ensures var events := Requests("ip", times);
            ClientAnswers(p, ttl, events, "ip") == Answers(p, times)
            && BucketOf(Visited(p, ttl, events), "ip") == After(p, times)
            && CallsOnly(events) == events
  {
    NoEvents(p, ttl);
    hide *;
    FreshCalls(p, ttl, [], "ip", times);
    NothingAdded(Requests("ip", times));
    NothingAdded(Answers(p, times));
  }

  lemma SweptAway(p: Params, ttl: real, events: seq<Event>, at: real)
    ensures var bucket := BucketOf(Visited(p, ttl, events), "ip");
            bucket.Some? && bucket.value.last < at - ttl ==>
              BucketOf(Kept(Visited(p, ttl, events), at, ttl), "ip") == None
  {
    hide Visited;
  }

  lemma NoEvents(p: Params, ttl: real)
    ensures BucketOf(Visited(p, ttl, []), "ip") == None
    ensures ClientAnswers(p, ttl, [], "ip") == [] && CallsOnly([]) == []
  {
  }

  lemma RequestsConcat(a: seq<real>, b: seq<real>)
    ensures Requests("ip", a) + Requests("ip", b) == Requests("ip", a + b)
  {
  }

  /** Two full bursts in less time than a bucket takes to refill are more than any
      limiter without sweeps would let in. */
  lemma TooMany(p: Params, m: nat, wait: real, gap: real)
    requires Valid(p) && 1 <= m && wait >= 0.0 && gap >= 0.0 && p.rate * gap < p.burst
    requires if wait > 0.0 then p.burst - m as real + wait * p.rate == 1.0
             else 2.0 * m as real > p.burst + p.rate * gap
    ensures var a, b := Drain(p, m, wait, 0.0), Drain(p, m, wait, wait + gap);
            |Answers(p, a + b)| == |a + b| && !AllTrue(Answers(p, a + b))
  {
    var times := Drain(p, m, wait, 0.0) + Drain(p, m, wait, wait + gap);
    var end := (wait + gap) + wait;
    DrainMonotone(p, m, wait, 0.0, wait + gap);
    WindowBound(p, times, 0.0, end);
    if AllTrue(Answers(p, times)) {
      AllAdmitted(times, Answers(p, times), 0.0, end);
      assert |times| == if wait > 0.0 then 2 * m + 2 else 2 * m;
      SplitGain(p, wait, gap);
      hide AdmittedWithin, Answers, Drain;
    }
  }

  lemma SplitGain(p: Params, wait: real, gap: real)
    ensures Gain(p, 0.0, (wait + gap) + wait) == 2.0 * (wait * p.rate) + p.rate * gap
  {
  }

  /** Where a bucket does not refill within the ttl, some run shows the sweeper. */
  lemma Observed(p: Params, ttl: real, m: nat, wait: real, gap: real)
    requires Valid(p) && 1 <= m && m as real <= p.burst && wait >= 0.0
    requires gap >= 0.0 && gap > ttl && p.rate * gap < p.burst
    requires if wait > 0.0 then p.burst - m as real + wait * p.rate == 1.0
             else 2.0 * m as real > p.burst + p.rate * gap
    ensures !NeverObserved(p, ttl)
  {
    hide *;
    WitnessMonotone(p, m, wait, gap);
    WitnessAnswers(p, ttl, m, wait, gap);
    TooMany(p, m, wait, gap);
    ShowsSweep(p, ttl, Witness(p, m, wait, gap));
  }

  lemma ShowsSweep(p: Params, ttl: real, events: seq<Event>)
    requires MonotoneEvents(events)
    requires ClientAnswers(p, ttl, events, "ip") != ClientAnswers(p, ttl, CallsOnly(events), "ip")
    ensures !NeverObserved(p, ttl)
  {
  }

  lemma Quotient(x: real, y: real)
    requires y > 0.0
    ensures x / y * y == x
    ensures x > 0.0 ==> x / y > 0.0
  {
  }

  lemma HalfWay(x: real, y: real, rate: real)
    requires x < y && rate > 0.0
    ensures x < (x + y) / 2.0 && rate * ((x + y) / 2.0) < rate * y
  {
    assert (x + y) / 2.0 < y;
  }

  lemma Scaled(x: real, burst: real, rate: real)
    requires rate > 0.0 && rate * x < burst
    ensures x < burst / rate && rate * (burst / rate) == burst
  {
    Quotient(burst, rate);
    var y := burst / rate;
    assert x >= y ==> rate * x >= rate * y;
  }

  lemma SomeRunObserves(p: Params, ttl: real)
    requires Valid(p) && p.rate * ttl < p.burst
    ensures !NeverObserved(p, ttl)
  {
    var m: nat := p.burst.Floor;
    var idle := if ttl > 0.0 then ttl else 0.0;
    if p.rate == 0.0 {
      Observed(p, ttl, m, 0.0, idle + 1.0);
    } else {
      Scaled(idle, p.burst, p.rate);
      HalfWay(idle, p.burst / p.rate, p.rate);
      var gap := (idle + p.burst / p.rate) / 2.0;
      var short := 1.0 - (p.burst - m as real);
      if p.burst == m as real {
        Observed(p, ttl, m, 0.0, gap);
      } else {
        Quotient(short, p.rate);
        Observed(p, ttl, m, short / p.rate, gap);
      }
    }
  }

  /** The sweeper is unobservable over all runs exactly when rate * ttl covers the burst. */
  lemma SweepsUnobservableExactly(p: Params, ttl: real)
    requires Valid(p)
    ensures NeverObserved(p, ttl) <==> p.rate * ttl >= p.burst
  {
    if p.rate * ttl >= p.burst {
      forall events, ip | MonotoneEvents(events)
        ensures ClientAnswers(p, ttl, events, ip) == ClientAnswers(p, ttl, CallsOnly(events), ip)
      {
        SweepsUnobservable(p, ttl, events, ip);
      }
    } else {
      SomeRunObserves(p, ttl);
    }
  }
}
