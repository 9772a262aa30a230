/** The TTL-aware DNS cache, one caller at a time. */
module Warmer {
  import opened Words
  import opened Expiring

  /** A `Duration` in nanoseconds. */
  type Duration = nat

  const NANOS_PER_MILLI: nat := 1_000_000

  datatype Resolved = Resolved(addrs: seq<bytes>, ttl: Duration)

  datatype ResolveError = NoAddresses(host: bytes) | Backend(host: bytes, message: bytes)

  /** `clamp` panics unless the floor is at most the ceiling. */
  datatype RawConfig = WarmerConfig(minTtl: Duration, maxTtl: Duration)

  type Config = c: RawConfig | c.minTtl <= c.maxTtl witness WarmerConfig(0, 0)

  function Clamp(c: Config, ttl: Duration): (d: Duration)
    ensures c.minTtl <= d <= c.maxTtl
    ensures c.minTtl <= ttl <= c.maxTtl ==> d == ttl
  {
    if ttl < c.minTtl then c.minTtl else if ttl > c.maxTtl then c.maxTtl else ttl
  }

  /** `as_millis() as u64`: whole milliseconds, cut to 64 bits. */
  function Millis(d: Duration): uint64 {
    (d / NANOS_PER_MILLI) % 0x1_0000_0000_0000_0000
  }

  function Expiry(c: Config, now: uint64, ttl: Duration): uint64 {
    SaturatingAdd(now, Millis(Clamp(c, ttl)))
  }

  /** How many whole milliseconds an answer is kept. */
  function Lifetime(c: Config, ttl: Duration): (ms: nat)
    ensures ttl < c.minTtl ==> ms == c.minTtl / 1_000_000
    ensures c.minTtl <= ttl <= c.maxTtl ==> ms == ttl / 1_000_000
    ensures c.maxTtl < ttl ==> ms == c.maxTtl / 1_000_000
  {
    Clamp(c, ttl) / NANOS_PER_MILLI
  }

  /** The ceiling is small enough not to wrap: at most u64::MAX milliseconds. */
  predicate FitsMillis(c: Config) {
    c.maxTtl / NANOS_PER_MILLI <= U64_MAX
  }

  lemma MillisIsMonotone(a: Duration, b: Duration)
    requires a <= b && b / NANOS_PER_MILLI <= U64_MAX
    ensures Millis(a) <= Millis(b) == b / NANOS_PER_MILLI
  {
    assert a / NANOS_PER_MILLI <= b / NANOS_PER_MILLI;
  }

  /** A cached entry lives at least the floor and at most the ceiling, unless time itself saturates. */
  lemma LifetimeIsClamped(c: Config, now: uint64, ttl: Duration)
    requires FitsMillis(c)
    ensures SaturatingAdd(now, Millis(c.minTtl)) <= Expiry(c, now, ttl) <= SaturatingAdd(now, Millis(c.maxTtl))
  {
    MillisIsMonotone(c.minTtl, c.maxTtl);
    MillisIsMonotone(c.minTtl, Clamp(c, ttl)) by {
      MillisIsMonotone(Clamp(c, ttl), c.maxTtl);
    }
    MillisIsMonotone(Clamp(c, ttl), c.maxTtl);
  }

  // ---- one call ------------------------------------------------------------

  type Reply = Result<Resolved, ResolveError>

  /** What the n-th lookup of a host returns. */
  type Answers = (nat, bytes) -> Reply

  /** The cached answers and the hosts looked up, in order. */
  type State = Expiring.State<Resolved, seq<bytes>>

  datatype Setup = Setup(config: Config, answers: Answers)

  function WarmStep(w: Setup, s: State, host: bytes, now: uint64): (State, Reply) {
    var cached := Fresh(s.cache, host, now);
    if cached.Some? then (s, Ok(cached.value))
    else
      var asked := s.(used := s.used + [host]);
      match w.answers(|s.used|, host)
      case Err(e) => (asked, Err(e))
      case Ok(r) => (asked.(cache := s.cache[host := Timed(r, Expiry(w.config, now, r.ttl))]), Ok(r))
  }

  class Resolver {
    const answers: Answers
    var lookups: seq<bytes>

    constructor (answers: Answers)
      ensures this.answers == answers && lookups == []
    {
      this.answers, this.lookups := answers, [];
    }

    method Resolve(host: bytes) returns (r: Reply)
      modifies this
      ensures lookups == old(lookups) + [host] && r == answers(|old(lookups)|, host)
    {
      r := answers(|lookups|, host);
      lookups := lookups + [host];
    }
  }

  class DnsWarmer {
    const resolver: Resolver
    const config: Config
    var cache: Cache<Resolved>

    constructor (resolver: Resolver, config: Config)
      ensures this.resolver == resolver && this.config == config && cache == map[]
    {
      this.resolver, this.config, this.cache := resolver, config, map[];
    }

    method Warm(host: bytes, now: uint64) returns (r: Reply)
      modifies this, resolver
      ensures (State(cache, resolver.lookups), r) ==
              WarmStep(Setup(config, resolver.answers), State(old(cache), old(resolver.lookups)), host, now)
      ensures
        old(host in cache && now < cache[host].expires) ==>
          r == Ok(old(cache[host].value)) && cache == old(cache) && resolver.lookups == old(resolver.lookups)
      ensures
        !old(host in cache && now < cache[host].expires) ==>
          && resolver.lookups == old(resolver.lookups) + [host]
          && (r.Ok? && config.maxTtl / 1_000_000 <= 0xFFFF_FFFF_FFFF_FFFF ==>
              forall t: uint64 :: Fresh(cache, host, t).Some? <==>
                t < now + Lifetime(config, r.value.ttl) && t < 0xFFFF_FFFF_FFFF_FFFF)
    {
      ghost var setup, before := Setup(config, resolver.answers), State(cache, resolver.lookups);
      if config.maxTtl / 1_000_000 <= 0xFFFF_FFFF_FFFF_FFFF {
        WarmAtAnyTime(setup, before, host, now);
      }
      if host in cache && now < cache[host].expires {
        return Ok(cache[host].value);
      }
      var answer := resolver.Resolve(host);
      if answer.Err? { return answer; }
      var ttl := Clamp(config, answer.value.ttl);
      cache := cache[host := Timed(answer.value, SaturatingAdd(now, Millis(ttl)))];
      return answer;
    }

    /** True exactly when `Warm` would reply from the cache, without a lookup. */
    method IsWarm(host: bytes, now: uint64) returns (warm: bool)
      ensures warm == Fresh(cache, host, now).Some?
      ensures
        var before := State(cache, resolver.lookups);
        warm <==> WarmStep(Setup(config, resolver.answers), before, host, now).0.used == before.used
    {
      warm := host in cache && now < cache[host].expires;
    }

    /** What `Warm` would reply without a lookup, if anything. */
    method Peek(host: bytes, now: uint64) returns (r: Option<Resolved>)
      ensures r == Fresh(cache, host, now)
      ensures
        var before := State(cache, resolver.lookups);
        var (after, reply) := WarmStep(Setup(config, resolver.answers), before, host, now);
        && (r.Some? <==> after.used == before.used)
        && (r.Some? ==> after == before && reply == Ok(r.value))
    {
      r := if host in cache && now < cache[host].expires then Some(cache[host].value) else None;
    }

    method EvictExpired(now: uint64)
      modifies this
      ensures cache == Evict(old(cache), now)
      ensures forall host :: host in cache ==> now < cache[host].expires
      ensures forall host, t: uint64 :: now <= t ==> Fresh(cache, host, t) == Fresh(old(cache), host, t)
    {
      cache := map host | host in cache && now < cache[host].expires :: cache[host];
      EvictingIsInvisible(old(cache), now);
    }
  }

  // ---- what one call does --------------------------------------------------

  /** An answer that may live for whole milliseconds is kept for exactly as many, within the floor and ceiling. */
  lemma KeptForItsTtl(c: Config, now: uint64, ms: nat)
    requires now + ms <= 0xFFFF_FFFF_FFFF_FFFF
    ensures c.minTtl <= ms * 1_000_000 <= c.maxTtl ==> Expiry(c, now, ms * 1_000_000) == now + ms
    ensures c.minTtl == ms * 1_000_000 ==> forall ttl: Duration | ttl < c.minTtl :: Expiry(c, now, ttl) == now + ms
    ensures c.maxTtl == ms * 1_000_000 ==> forall ttl: Duration | ttl > c.maxTtl :: Expiry(c, now, ttl) == now + ms
  {
    assert ms * 1_000_000 / 1_000_000 == ms;
  }

  /**
   * What one call does: a fresh entry is returned and nothing changes; otherwise the host is looked up once.  An
   * error changes nothing else; an answer is returned and kept for this host alone, and is then fresh at `t` if
   * and only if `t` comes before `now` plus the clamped TTL in whole milliseconds, and before u64::MAX.
   */
  lemma WarmByCases(w: Setup, s: State, host: bytes, now: uint64, t: uint64)
    requires w.config.maxTtl / 1_000_000 <= 0xFFFF_FFFF_FFFF_FFFF
    ensures
      var (after, reply) := WarmStep(w, s, host, now);
      if host in s.cache && now < s.cache[host].expires then
        after == s && reply == Ok(s.cache[host].value)
      else
        && reply == w.answers(|s.used|, host)
        && after.used == s.used + [host]
        && (reply.Err? ==> after.cache == s.cache)
        && (reply.Ok? ==>
            && after.cache == s.cache[host := after.cache[host]]
            && Fresh(after.cache, host, t) ==
                 if t < now + Lifetime(w.config, reply.value.ttl) && t < 0xFFFF_FFFF_FFFF_FFFF then Some(reply.value)
                 else None)
  {
    var r := w.answers(|s.used|, host);
    if r.Ok? {
      MillisIsMonotone(Clamp(w.config, r.value.ttl), w.config.maxTtl);
    }
  }

  lemma WarmAtAnyTime(w: Setup, s: State, host: bytes, now: uint64)
    requires w.config.maxTtl / 1_000_000 <= 0xFFFF_FFFF_FFFF_FFFF
    ensures
      var (after, reply) := WarmStep(w, s, host, now);
      !(host in s.cache && now < s.cache[host].expires) && reply.Ok? ==>
        forall t: uint64 :: Fresh(after.cache, host, t).Some? <==>
          t < now + Lifetime(w.config, reply.value.ttl) && t < 0xFFFF_FFFF_FFFF_FFFF
  {
    var (after, reply) := WarmStep(w, s, host, now);
    if !(host in s.cache && now < s.cache[host].expires) && reply.Ok? {
      forall t: uint64
        ensures Fresh(after.cache, host, t).Some? <==>
                t < now + Lifetime(w.config, reply.value.ttl) && t < 0xFFFF_FFFF_FFFF_FFFF
      {
        WarmByCases(w, s, host, now, t);
      }
    }
  }

  // ---- what one call leaves behind -----------------------------------------

  /** With a floor of at least a millisecond, a host is warm right after `warm` exactly when `warm` succeeded;
      the one exception is a call made at the end of time. */
  lemma WarmAfterWarm(w: Setup, s: State, host: bytes, now: uint64)
    requires FitsMillis(w.config) && Millis(w.config.minTtl) >= 1
    ensures
      var (t, r) := WarmStep(w, s, host, now);
      Fresh(t.cache, host, now) == if r.Ok? && now < U64_MAX then Some(r.value) else None
  {
    var (t, r) := WarmStep(w, s, host, now);
    if r.Ok? && Fresh(s.cache, host, now).None? {
      LifetimeIsClamped(w.config, now, r.value.ttl);
    }
  }

  /** Without that floor: exactly when the entry was cached already or its clamped TTL has a whole millisecond. */
  lemma WarmAfterWarmIff(w: Setup, s: State, host: bytes, now: uint64)
    ensures
      var (t, r) := WarmStep(w, s, host, now);
      Fresh(t.cache, host, now).Some? <==>
      r.Ok? && (Fresh(s.cache, host, now).Some? || (now < U64_MAX && Millis(Clamp(w.config, r.value.ttl)) >= 1))
  {
  }

  /** One caller at a time, a cached expiry only moves forward, whatever times are passed. */
  lemma ExpiryMovesForward(w: Setup, s: State, host: bytes, now: uint64, other: bytes)
    requires other in s.cache
    ensures
      var t := WarmStep(w, s, host, now).0;
      other in t.cache && s.cache[other].expires <= t.cache[other].expires
  {
  }

  // ---- runs ----------------------------------------------------------------

  datatype Question = Warm(host: bytes) | IsWarm(host: bytes) | Peek(host: bytes)

  datatype Seen = Replied(reply: Reply) | Warmth(warm: bool) | Peeked(resolved: Option<Resolved>)

  type Op = Expiring.Op<Question>

  /** The warmer's calls as a program over its cache. */
  function Warming(w: Setup): Program<Resolved, seq<bytes>, Question, Seen> {
    (s: State, q: Question, now: uint64) => Answer(w, s, q, now)
  }

  function Answer(w: Setup, s: State, q: Question, now: uint64): (State, Seen) {
    match q
    case Warm(host) => var (t, r) := WarmStep(w, s, host, now); (t, Replied(r))
    case IsWarm(host) => (s, Warmth(Fresh(s.cache, host, now).Some?))
    case Peek(host) => (s, Peeked(Fresh(s.cache, host, now)))
  }

  lemma AlikeAnswers(w: Setup, a: State, b: State, q: Question, now: uint64, floor: uint64)
    requires floor <= now && Alike(a, b, floor)
    ensures
      var (a', ra) := Answer(w, a, q, now);
      var (b', rb) := Answer(w, b, q, now);
      ra == rb && Alike(a', b', floor)
  {
    AgreeingIsLasting(a.cache, b.cache, floor, now);
    if q.Warm? && w.answers(|a.used|, q.host).Ok? {
      var r := w.answers(|a.used|, q.host).value;
      InsertingAgrees(a.cache, b.cache, floor, q.host, Timed(r, Expiry(w.config, now, r.ttl)));
    }
  }

  /** Evictions anywhere in a run change no reply and no lookup, provided no call after an eviction is made at an
      earlier time than the eviction's. */
  lemma EvictionIsInvisible(w: Setup, s: State, ops: seq<Op>)
    requires NoneBeforeEviction(0, ops)
    ensures Run(Warming(w), s, ops).1 == Run(Warming(w), s, WithoutEvictions(ops)).1
    ensures Run(Warming(w), s, ops).0.used == Run(Warming(w), s, WithoutEvictions(ops)).0.used
  {
    var f := Warming(w);
    forall a: State, b: State, q: Question, now: uint64, floor: uint64 | floor <= now && Alike(a, b, floor)
      ensures f(a, q, now).1 == f(b, q, now).1 && Alike(f(a, q, now).0, f(b, q, now).0, floor)
    {
      AlikeAnswers(w, a, b, q, now, floor);
    }
    AlikeRuns(f, s, s, 0, ops);
  }

  /** An eviction at `evictedAt` changes neither what a call at `now` sees nor the lookups it makes. */
  predicate Unnoticed(w: Setup, s: State, evictedAt: uint64, q: Question, now: uint64) {
    var evicted := s.(cache := Evict(s.cache, evictedAt));
    var (t, seen) := Answer(w, s, q, now);
    var (t', seen') := Answer(w, evicted, q, now);
    seen == seen' && t.used == t'.used
  }

  /** The proviso is exact: an eviction is safe before a call, whatever is cached and asked, if and only if the
      call is not earlier. */
  lemma EvictionIsSafeIff(w: Setup, evictedAt: uint64, now: uint64)
    ensures (forall s: State, q: Question :: Unnoticed(w, s, evictedAt, q, now)) <==> evictedAt <= now
  {
    if evictedAt <= now {
      forall s: State, q: Question
        ensures Unnoticed(w, s, evictedAt, q, now)
      {
        EvictingIsInvisible(s.cache, evictedAt);
        assert Fresh(Evict(s.cache, evictedAt), q.host, now) == Fresh(s.cache, q.host, now);
      }
    } else {
      var s, q := State(map[[] := Timed(Resolved([], 0), now + 1)], []), IsWarm([]);
      assert [] !in Evict(s.cache, evictedAt);
      assert !Unnoticed(w, s, evictedAt, q, now);
    }
  }

  /**
   * A run from an empty cache that shows it: warm, evict with a clock that is ahead by the entry's lifetime, warm
   * again at the first time.  The second `warm` resolves anew; without the eviction it is a hit.
   */
  lemma EvictionCanBeNoticed(w: Setup, host: bytes, now: uint64, evictedAt: uint64)
    requires w.answers(0, host).Ok? && now < Expiry(w.config, now, w.answers(0, host).value.ttl) <= evictedAt
    ensures
      var ops: seq<Op> := [Call(Warm(host), now), EvictAt(evictedAt), Call(Warm(host), now)];
      && Run(Warming(w), State(map[], []), ops).0.used == [host, host]
      && Run(Warming(w), State(map[], []), WithoutEvictions(ops)).0.used == [host]
  {
    var f, start: State := Warming(w), State(map[], []);
    AskEvictAsk(f, start, Warm(host), now, evictedAt);
    var first := f(start, Warm(host), now).0;
    assert first.used == [host] && host in first.cache;
    assert host !in Evict(first.cache, evictedAt);
    assert f(first.(cache := Evict(first.cache, evictedAt)), Warm(host), now).0.used == [host] + [host];
  }
}
