/** The sliding-window rate limiter: an evicting deque per key, against a declarative reading
    of the whole call history. */
module RateLimit {

  datatype Call = Call(key: string, now: real)
  datatype Verdict = Verdict(allowed: bool, remaining: int)
  datatype Rule = Rule(limit: int, window: real)

  /** All calls so far, the latest one outermost. */
  datatype History = Start | Then(before: History, call: Call)

  // ---- What the limiter promises, in terms of the history alone ----

  /** Earlier admitted calls of `key` made at or after `since`. */
  ghost function Recent(r: Rule, h: History, key: string, since: real): nat
    decreases h, 0
  {
    match h
    case Start => 0
    case Then(b, c) =>
      Recent(r, b, key, since) + (if c.key == key && c.now >= since && Admits(r, b, c) then 1 else 0)
  }

  /** Is call c admitted when it comes after history h? */
  ghost predicate Admits(r: Rule, h: History, c: Call)
    decreases h, 1
  {
    Recent(r, h, c.key, c.now - r.window) < r.limit
  }

  /** The calls come in clock order, none later than `now`. */
  ghost predicate TimedTo(h: History, now: real) {
    h.Then? ==> h.call.now <= now && TimedTo(h.before, h.call.now)
  }

  // ---- The deque algorithm ----

  function Evict(dq: seq<real>, cutoff: real): seq<real> {
    if dq != [] && dq[0] < cutoff then Evict(dq[1..], cutoff) else dq
  }

  function Get(store: map<string, seq<real>>, key: string): seq<real> {
    if key in store then store[key] else []
  }

  function Max(a: int, b: int): int {
    if a < b then b else a
  }

  function Answer(r: Rule, store: map<string, seq<real>>, c: Call): Verdict {
    var dq := Evict(Get(store, c.key), c.now - r.window);
    if |dq| >= r.limit then Verdict(false, 0) else Verdict(true, Max(0, r.limit - (|dq| + 1)))
  }

  /** One deque after a call under its key. */
  function Next(r: Rule, dq: seq<real>, now: real): seq<real> {
    var kept := Evict(dq, now - r.window);
    if |kept| >= r.limit then kept else kept + [now]
  }

  function Step(r: Rule, store: map<string, seq<real>>, c: Call): map<string, seq<real>> {
    store[c.key := Next(r, Get(store, c.key), c.now)]
  }

  function Run(r: Rule, h: History): map<string, seq<real>> {
    match h
    case Start => map[]
    case Then(b, c) => Step(r, Run(r, b), c)
  }

  // ---- Refinement ----

  ghost predicate Sorted(dq: seq<real>) {
    forall i, j :: 0 <= i < j < |dq| ==> dq[i] <= dq[j]
  }

  lemma {:induction false} EvictShape(dq: seq<real>, cutoff: real)
    requires Sorted(dq)
    ensures Sorted(Evict(dq, cutoff)) && |Evict(dq, cutoff)| <= |dq|
    ensures forall x :: x in Evict(dq, cutoff) <==> x in dq && x >= cutoff
  {
    if dq != [] {
      assert dq == [dq[0]] + dq[1..];
      if dq[0] < cutoff { EvictShape(dq[1..], cutoff); }
    }
  }

  lemma {:induction false} EvictTwice(dq: seq<real>, a: real, b: real)
    requires a <= b
    ensures Evict(Evict(dq, a), b) == Evict(dq, b)
  {
    if dq != [] && dq[0] < a { EvictTwice(dq[1..], a, b); }
  }

  lemma {:induction false} EvictAppend(dq: seq<real>, t: real, cutoff: real)
    requires forall x :: x in dq ==> x <= t
    ensures Evict(dq + [t], cutoff) == Evict(dq, cutoff) + (if t >= cutoff then [t] else [])
  {
    var all := dq + [t];
    if dq == [] {
      assert all == [t];
    } else {
      assert all[0] == dq[0] && all[1..] == dq[1..] + [t];
      assert dq[0] in dq && forall x :: x in dq[1..] ==> x in dq;
      if dq[0] < cutoff {
        EvictAppend(dq[1..], t, cutoff);
      }
    }
  }

  /** Evicting once and appending shows at a later cutoff as one more element, if recent. */
  lemma EvictLater(dq: seq<real>, cutoff: real, t: real, since: real)
    requires Sorted(dq) && (forall x :: x in dq ==> x <= t) && cutoff <= since
    ensures Evict(Evict(dq, cutoff), since) == Evict(dq, since)
    ensures |Evict(Evict(dq, cutoff) + [t], since)| == |Evict(dq, since)| + (if t >= since then 1 else 0)
  {
    EvictTwice(dq, cutoff, since);
    EvictShape(dq, cutoff);
    EvictAppend(Evict(dq, cutoff), t, since);
  }

  ghost predicate DequeOk(r: Rule, dq: seq<real>, now: real) {
    Sorted(dq) && |dq| <= Max(0, r.limit) && forall x :: x in dq ==> x <= now
  }

  lemma NextOk(r: Rule, dq: seq<real>, now: real)
    requires DequeOk(r, dq, now)
    ensures DequeOk(r, Next(r, dq, now), now)
  {
    EvictShape(dq, now - r.window);
    var kept := Evict(dq, now - r.window);
    assert forall i :: 0 <= i < |kept| ==> kept[i] in kept;
  }

  lemma {:induction false} DequesOk(r: Rule, h: History, key: string, now: real)
    requires TimedTo(h, now)
    ensures DequeOk(r, Get(Run(r, h), key), now)
  {
    if h.Then? {
      DequesOk(r, h.before, key, h.call.now);
      if h.call.key == key { NextOk(r, Get(Run(r, h.before), key), h.call.now); }
    }
  }

  /** What a call adds to the view from a later cutoff. */
  lemma NextShows(r: Rule, dq: seq<real>, t: real, since: real)
    requires DequeOk(r, dq, t) && t - r.window <= since
    ensures |Evict(Next(r, dq, t), since)| ==
            |Evict(dq, since)| + (if t >= since && |Evict(dq, t - r.window)| < r.limit then 1 else 0)
  {
    EvictLater(dq, t - r.window, t, since);
  }

  /** The deque of a key holds exactly the recent admissions of the history. */
  lemma {:induction false} DequeIsHistory(r: Rule, h: History, key: string, now: real, since: real)
    requires TimedTo(h, now) && now - r.window <= since
    ensures |Evict(Get(Run(r, h), key), since)| == Recent(r, h, key, since)
  {
    if h.Then? {
      var c, b := h.call, h.before;
      DequeIsHistory(r, b, key, c.now, since);
      if c.key == key {
        DequeIsHistory(r, b, key, c.now, c.now - r.window);
        DequesOk(r, b, key, c.now);
        NextShows(r, Get(Run(r, b), key), c.now, since);
      }
    }
  }

  /** The answer is a statement about the history: allowed exactly when fewer than `limit`
      earlier admissions of that key lie in the window, `remaining` counts the rest. */
  lemma AnswerIsHistory(r: Rule, h: History, c: Call)
    requires TimedTo(h, c.now)
    ensures var v := Answer(r, Run(r, h), c);
            && (v.allowed <==> Recent(r, h, c.key, c.now - r.window) < r.limit)
            && v.remaining == (if v.allowed then r.limit - 1 - Recent(r, h, c.key, c.now - r.window) else 0)
  {
    DequeIsHistory(r, h, c.key, c.now, c.now - r.window);
  }

  // ---- The bound over whole runs ----

  /** Admitted calls of `key` in the closed interval [lo, hi]. */
  ghost function AdmittedIn(r: Rule, h: History, key: string, lo: real, hi: real): nat {
    match h
    case Start => 0
    case Then(b, c) =>
      AdmittedIn(r, b, key, lo, hi) + (if c.key == key && lo <= c.now <= hi && Admits(r, b, c) then 1 else 0)
  }

  lemma {:induction false} IntervalWithinRecent(r: Rule, h: History, key: string, lo: real, hi: real, since: real)
    requires since <= lo
    ensures AdmittedIn(r, h, key, lo, hi) <= Recent(r, h, key, since)
  {
    if h.Then? { IntervalWithinRecent(r, h.before, key, lo, hi, since); }
  }

  /** No key gets more than `limit` calls through in any closed interval as long as the window. */
  lemma {:induction false} WindowBound(r: Rule, h: History, key: string, lo: real, hi: real)
    requires hi <= lo + r.window
    ensures AdmittedIn(r, h, key, lo, hi) <= Max(0, r.limit)
  {
    if h.Then? {
      WindowBound(r, h.before, key, lo, hi);
      if h.call.now <= hi {
        IntervalWithinRecent(r, h.before, key, lo, hi, h.call.now - r.window);
      }
    }
  }

  // ---- What does not matter ----

  function OnlyKey(h: History, key: string): History {
    match h
    case Start => Start
    case Then(b, c) => if c.key == key then Then(OnlyKey(b, key), c) else OnlyKey(b, key)
  }

  lemma {:induction false} RecentOnlyKey(r: Rule, h: History, key: string, since: real)
    ensures Recent(r, h, key, since) == Recent(r, OnlyKey(h, key), key, since)
  {
    if h.Then? {
      RecentOnlyKey(r, h.before, key, since);
      RecentOnlyKey(r, h.before, key, h.call.now - r.window);
    }
  }

  lemma {:induction false} OnlyKeyTimed(h: History, key: string, now: real)
    requires TimedTo(h, now)
    ensures TimedTo(OnlyKey(h, key), now)
  {
    if h.Then? {
      OnlyKeyTimed(h.before, key, h.call.now);
      TimedLater(OnlyKey(h.before, key), h.call.now, now);
    }
  }

  lemma TimedLater(h: History, t: real, now: real)
    requires TimedTo(h, t) && t <= now
    ensures TimedTo(h, now)
  {
  }

  /** Calls under other keys have no influence on an answer. */
  lemma OtherKeysDoNotMatter(r: Rule, h: History, c: Call)
    requires TimedTo(h, c.now)
    ensures Answer(r, Run(r, h), c) == Answer(r, Run(r, OnlyKey(h, c.key)), c)
  {
    OnlyKeyTimed(h, c.key, c.now);
    RecentOnlyKey(r, h, c.key, c.now - r.window);
    AnswerIsHistory(r, h, c);
    AnswerIsHistory(r, OnlyKey(h, c.key), c);
  }

  /** g is h with any number of its refused calls deleted. */
  ghost predicate Thinned(r: Rule, h: History, g: History)
    decreases h
  {
    match h
    case Start => g == Start
    case Then(b, c) =>
      || (g.Then? && g.call == c && Thinned(r, b, g.before))
      || (!Admits(r, b, c) && Thinned(r, b, g))
  }

  lemma {:induction false} RecentThinned(r: Rule, h: History, g: History, key: string, since: real)
    requires Thinned(r, h, g)
    ensures Recent(r, h, key, since) == Recent(r, g, key, since)
    decreases h
  {
    if h.Then? {
      var b, c := h.before, h.call;
      if g.Then? && g.call == c && Thinned(r, b, g.before) {
        RecentThinned(r, b, g.before, key, since);
        RecentThinned(r, b, g.before, c.key, c.now - r.window);
      } else {
        RecentThinned(r, b, g, key, since);
      }
    }
  }

  lemma {:induction false} ThinnedTimed(r: Rule, h: History, g: History, now: real)
    requires Thinned(r, h, g) && TimedTo(h, now)
    ensures TimedTo(g, now)
    decreases h
  {
    if h.Then? {
      var b, c := h.before, h.call;
      if g.Then? && g.call == c && Thinned(r, b, g.before) {
        ThinnedTimed(r, b, g.before, c.now);
      } else {
        ThinnedTimed(r, b, g, c.now);
        TimedLater(g, c.now, now);
      }
    }
  }

  /** Deleting any of the refused calls from the history changes no later answer: a client
      that hammers a closed door is not punished for it. */
  lemma RefusedCallsDoNotMatter(r: Rule, h: History, g: History, c: Call)
    requires TimedTo(h, c.now) && Thinned(r, h, g)
    ensures Answer(r, Run(r, h), c) == Answer(r, Run(r, g), c)
  {
    ThinnedTimed(r, h, g, c.now);
    RecentThinned(r, h, g, c.key, c.now - r.window);
    AnswerIsHistory(r, h, c);
    AnswerIsHistory(r, g, c);
  }

  // ---- The limiter object ----

  class SlidingWindowRateLimiter {
    const limit: int
    const window: real
    var store: map<string, seq<real>>
    ghost var history: History

    ghost function TheRule(): Rule {
      Rule(limit, window)
    }

    ghost predicate Valid()
      reads this
    {
      store == Run(TheRule(), history)
    }

    constructor (limit: int, window: real)
      ensures Valid() && history == Start && TheRule() == Rule(limit, window)
    {
      this.limit, this.window := limit, window;
      store, history := map[], Start;
    }

    method EvictStale(times: seq<real>, cutoff: real) returns (dq: seq<real>)
      ensures dq == Evict(times, cutoff)
    {
      dq := times;
      while |dq| > 0 && dq[0] < cutoff
        invariant Evict(dq, cutoff) == Evict(times, cutoff)
        decreases |dq|
      {
        dq := dq[1..];
      }
    }

    method IsAllowed(key: string, now: real) returns (allowed: bool, remaining: int)
      requires Valid() && TimedTo(history, now)
      modifies this
      ensures Valid() && history == Then(old(history), Call(key, now))
      ensures allowed <==> Recent(TheRule(), old(history), key, now - window) < limit
      ensures remaining == if allowed then limit - 1 - Recent(TheRule(), old(history), key, now - window) else 0
      ensures key in store && |store[key]| <= Max(0, limit)
    {
      ghost var c := Call(key, now);
      AnswerIsHistory(TheRule(), history, c);
      DequesOk(TheRule(), Then(history, c), key, now);
      history := Then(history, c);
      var dq := EvictStale(Get(store, key), now - window);
      if |dq| >= limit {
        store := store[key := dq];
        return false, 0;
      }
      dq := dq + [now];
      store := store[key := dq];
      remaining := Max(0, limit - |dq|);
      return true, remaining;
    }
  }

  // ---- Three tiers, three independent limiters ----

  datatype Tier = Auth | Telemetry | Global
  datatype Hit = Hit(ip: string, path: string, now: real)
  datatype Hits = NoHits | Later(before: Hits, hit: Hit)

  function TierOf(path: string): Tier {
    if "/v1/auth" <= path || "/v1/agents/register" <= path then Auth
    else if "/v1/telemetry" <= path then Telemetry
    else Global
  }

  /** The tier by the beginning of the path. */
  lemma {:induction false} TierIff(path: string)
    ensures TierOf(path) == Auth <==>
            (exists rest :: path == "/v1/auth" + rest) || (exists rest :: path == "/v1/agents/register" + rest)
    ensures TierOf(path) == Telemetry <==> exists rest :: path == "/v1/telemetry" + rest
  {
    if "/v1/auth" <= path { assert path == "/v1/auth" + path[8..]; }
    if "/v1/agents/register" <= path { assert path == "/v1/agents/register" + path[19..]; }
    if "/v1/telemetry" <= path {
      assert path == "/v1/telemetry" + path[13..];
      TelemetryIsNotAuth(path);
    }
    forall rest | path == "/v1/telemetry" + rest ensures "/v1/telemetry" <= path { TelemetryIsNotAuth(path); }
  }

  lemma {:induction false} TelemetryIsNotAuth(path: string)
    requires "/v1/telemetry" <= path
    ensures !("/v1/auth" <= path) && !("/v1/agents/register" <= path)
  {
    PrefixesDiffer("/v1/telemetry", "/v1/auth", path, 4);
    PrefixesDiffer("/v1/telemetry", "/v1/agents/register", path, 4);
  }

  lemma {:induction false} PrefixesDiffer(p: string, q: string, path: string, i: nat)
    requires p <= path && i < |p| && i < |q| && p[i] != q[i]
    ensures !(q <= path)
  {
  }

  /** The calls one tier's limiter sees. */
  ghost function CallsOf(hits: Hits, t: Tier): History {
    match hits
    case NoHits => Start
    case Later(b, x) => if TierOf(x.path) == t then Then(CallsOf(b, t), Call(x.ip, x.now)) else CallsOf(b, t)
  }

  ghost predicate HitsTo(hits: Hits, now: real) {
    hits.Later? ==> hits.hit.now <= now && HitsTo(hits.before, hits.hit.now)
  }

  lemma {:induction false} CallsTimed(hits: Hits, t: Tier, now: real)
    requires HitsTo(hits, now)
    ensures TimedTo(CallsOf(hits, t), now)
  {
    if hits.Later? {
      CallsTimed(hits.before, t, hits.hit.now);
      TimedLater(CallsOf(hits.before, t), hits.hit.now, now);
    }
  }

  lemma HitGoesToOneTier(hits: Hits, hit: Hit)
    ensures forall t :: CallsOf(Later(hits, hit), t) ==
              if t == TierOf(hit.path) then Then(CallsOf(hits, t), Call(hit.ip, hit.now)) else CallsOf(hits, t)
  {
  }

  class RateLimitMiddleware {
    const authLimiter: SlidingWindowRateLimiter
    const telemetryLimiter: SlidingWindowRateLimiter
    const globalLimiter: SlidingWindowRateLimiter
    ghost var hits: Hits

    ghost predicate Valid()
      reads this, authLimiter, telemetryLimiter, globalLimiter
    {
      && authLimiter != telemetryLimiter && authLimiter != globalLimiter && telemetryLimiter != globalLimiter
      && authLimiter.TheRule() == Rule(10, 60.0) && telemetryLimiter.TheRule() == Rule(1200, 60.0)
      && globalLimiter.window == 60.0
      && authLimiter.Valid() && authLimiter.history == CallsOf(hits, Auth)
      && telemetryLimiter.Valid() && telemetryLimiter.history == CallsOf(hits, Telemetry)
      && globalLimiter.Valid() && globalLimiter.history == CallsOf(hits, Global)
    }

    ghost function RuleOf(t: Tier): Rule {
      match t
      case Auth => authLimiter.TheRule()
      case Telemetry => telemetryLimiter.TheRule()
      case Global => globalLimiter.TheRule()
    }

    constructor (perMinute: int)
      ensures Valid() && hits == NoHits && RuleOf(Global) == Rule(perMinute, 60.0)
      ensures RuleOf(Auth) == Rule(10, 60.0) && RuleOf(Telemetry) == Rule(1200, 60.0)
      ensures fresh(authLimiter) && fresh(telemetryLimiter) && fresh(globalLimiter)
    {
      authLimiter := new SlidingWindowRateLimiter(10, 60.0);
      telemetryLimiter := new SlidingWindowRateLimiter(1200, 60.0);
      globalLimiter := new SlidingWindowRateLimiter(perMinute, 60.0);
      hits := NoHits;
    }

    /** Each tier decides on its own hits alone. */
    method Dispatch(hit: Hit) returns (allowed: bool, remaining: int)
      requires Valid() && HitsTo(hits, hit.now)
      modifies this, authLimiter, telemetryLimiter, globalLimiter
      ensures Valid() && hits == Later(old(hits), hit)
      ensures var rule, calls := RuleOf(TierOf(hit.path)), CallsOf(old(hits), TierOf(hit.path));
              var recent := Recent(rule, calls, hit.ip, hit.now - 60.0);
              && (allowed <==> recent < rule.limit)
              && remaining == if allowed then rule.limit - 1 - recent else 0
    {
      CallsTimed(hits, TierOf(hit.path), hit.now);
      HitGoesToOneTier(hits, hit);
      ghost var next := Later(hits, hit);
      hits := next;
      if "/v1/auth" <= hit.path || "/v1/agents/register" <= hit.path {
        allowed, remaining := authLimiter.IsAllowed(hit.ip, hit.now);
      } else if "/v1/telemetry" <= hit.path {
        allowed, remaining := telemetryLimiter.IsAllowed(hit.ip, hit.now);
      } else {
        allowed, remaining := globalLimiter.IsAllowed(hit.ip, hit.now);
      }
    }
  }
}
