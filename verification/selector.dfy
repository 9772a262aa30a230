/** Sticky per-destination selection over a weighted pool. */
module Selector {
  import opened Words
  import opened Pool
  import opened Expiring

  // ---- the weighted walk ---------------------------------------------------

  /** A pool of entries with positive weights, as every pool drawn from a master list is. */
  type ActivePool = s: seq<PoolEntry> | forall e <- s :: e.weight > 0.0

  type Unit = u: real | 0.0 <= u < 1.0

  /** The weight before entry `i`. */
  function Prefix(pool: ActivePool, i: nat): (w: real)
    requires i <= |pool|
    ensures w >= 0.0
  {
    if i == 0 then 0.0 else Prefix(pool, i - 1) + pool[i - 1].weight
  }

  function Total(pool: ActivePool): real {
    Prefix(pool, |pool|)
  }

  lemma {:induction false} PrefixGrows(pool: ActivePool, i: nat, j: nat)
    requires i < j <= |pool|
    ensures Prefix(pool, i) < Prefix(pool, j)
    decreases j
  {
    if i < j - 1 {
      PrefixGrows(pool, i, j - 1);
    }
  }

  /** `r` falls in the interval of entry `i`, which is as long as its weight. */
  predicate Covers(pool: ActivePool, i: nat, r: real) {
    i < |pool| && Prefix(pool, i) <= r < Prefix(pool, i + 1)
  }

  /** The entry whose interval contains `r`. */
  function PickIndex(pool: ActivePool, r: real, from: nat := 0): (i: nat)
    requires from <= |pool| && Prefix(pool, from) <= r < Total(pool)
    ensures Covers(pool, i, r)
    decreases |pool| - from
  {
    if r < Prefix(pool, from + 1) then from
    else PickIndex(pool, r, from + 1)
  }

  /** The intervals partition [0, total): `r` lies in exactly one, the one that is picked. */
  lemma PickedIffCovered(pool: ActivePool, r: real, i: nat)
    requires 0.0 <= r < Total(pool)
    ensures Covers(pool, i, r) <==> i == PickIndex(pool, r)
  {
    var j := PickIndex(pool, r);
    if Covers(pool, i, r) {
      if i < j && i + 1 < j { PrefixGrows(pool, i + 1, j); }
      if j < i && j + 1 < i { PrefixGrows(pool, j + 1, i); }
    }
  }

  lemma TotalIsPositive(pool: ActivePool)
    requires pool != []
    ensures Total(pool) > 0.0
  {
    PrefixGrows(pool, 0, |pool|);
  }

  function Scale(u: Unit, total: real): (r: real)
    requires total > 0.0
    ensures 0.0 <= r < total
  {
    u * total
  }

  /** A draw from [0, 1) scaled to [0, total). */
  function Scaled(pool: ActivePool, u: Unit): (r: real)
    requires pool != []
    ensures 0.0 <= r < Total(pool)
  {
    TotalIsPositive(pool);
    Scale(u, Total(pool))
  }

  /** The SNI a draw `u` from [0, 1) selects. */
  function Pick(pool: ActivePool, u: Unit): (sni: bytes)
    requires pool != []
    ensures Contains(pool, sni)
  {
    var i := PickIndex(pool, Scaled(pool, u));
    assert pool[i] in pool;
    pool[i].sni
  }

  /** The intervals start at 0, end at the total, lie end to end and are as long as the weights. */
  lemma IntervalsAreWeights(pool: ActivePool, i: nat, r: real)
    requires i < |pool|
    ensures Prefix(pool, 0) == 0.0 && Prefix(pool, |pool|) == Total(pool)
    ensures Covers(pool, i, r) <==> Prefix(pool, i) <= r < Prefix(pool, i) + pool[i].weight
  {
  }

  /** A draw `u` selects the entry whose interval holds `u` times the total weight. */
  lemma DrawDecides(pool: ActivePool, u: Unit, r: real, i: nat)
    requires pool != [] && r == u * Total(pool) && Covers(pool, i, r)
    ensures Pick(pool, u) == pool[i].sni
  {
    assert Scaled(pool, u) == r;
    PickedIffCovered(pool, r, i);
  }

  /** Entry `i` is the one a draw `u` falls on: `u` times the total weight lies in its interval. */
  predicate FallsOn(pool: ActivePool, u: Unit, i: nat) {
    i < |pool| && Covers(pool, i, u * Total(pool))
  }

  lemma PickedEntryIsFallenOn(pool: ActivePool, u: Unit)
    requires pool != []
    ensures forall i: nat :: FallsOn(pool, u, i) ==> Pick(pool, u) == pool[i].sni
  {
    forall i: nat | FallsOn(pool, u, i)
      ensures Pick(pool, u) == pool[i].sni
    {
      DrawDecides(pool, u, u * Total(pool), i);
    }
  }

  class Rng {
    const draws: nat -> Unit
    var drawn: nat

    constructor (draws: nat -> Unit)
      ensures this.draws == draws && drawn == 0
    {
      this.draws, this.drawn := draws, 0;
    }

    method Next() returns (u: Unit)
      modifies this
      ensures u == draws(old(drawn)) && drawn == old(drawn) + 1
    {
      u := draws(drawn);
      drawn := drawn + 1;
    }
  }

  /** `weighted_pick`: walk the weights until the scaled draw goes negative. */
  method WeightedPick(pool: ActivePool, rng: Rng) returns (sni: bytes)
    requires pool != []
    modifies rng
    ensures rng.drawn == old(rng.drawn) + 1
    ensures sni == Pick(pool, rng.draws(old(rng.drawn)))
    ensures forall i: nat :: FallsOn(pool, rng.draws(old(rng.drawn)), i) ==> sni == pool[i].sni
  {
    var total := 0.0;
    for i := 0 to |pool|
      invariant total == Prefix(pool, i)
    {
      total := total + pool[i].weight;
    }
    var u := rng.Next();
    PickedEntryIsFallenOn(pool, u);
    ghost var start := Scaled(pool, u);
    var r := Scale(u, total);
    for i := 0 to |pool|
      invariant r == start - Prefix(pool, i) && r >= 0.0
    {
      r := r - pool[i].weight;
      if r < 0.0 {
        PickedIffCovered(pool, start, i);
        return pool[i].sni;
      }
    }
    assert false;   // over exact reals the walk cannot fall through to the last entry
  }

  // ---- one call ------------------------------------------------------------

  /** The cached choices and the number of draws taken. */
  type State = Expiring.State<bytes, nat>

  /** What every call shares: the TTL and the generator's draws. */
  datatype Setup = Setup(ttl: uint64, draws: nat -> Unit)

  /** The cached choice, if it is fresh and still in the pool. */
  function Hit(cache: Cache<bytes>, pool: ActivePool, dest: bytes, now: uint64): Option<bytes> {
    var choice := Fresh(cache, dest, now);
    if choice.Some? && Contains(pool, choice.value) then choice else None
  }

  /** Every answer is a member of the pool it was asked about, whatever is cached. */
  function SelectStep(c: Setup, s: State, pool: ActivePool, dest: bytes, now: uint64): (r: (State, Option<bytes>))
    ensures r.1.None? <==> pool == []
    ensures r.1.Some? ==> Contains(pool, r.1.value)
  {
    if pool == [] then (s, None)
    else if Hit(s.cache, pool, dest, now).Some? then (s, Hit(s.cache, pool, dest, now))
    else
      var sni := Pick(pool, c.draws(s.used));
      (State(s.cache[dest := Timed(sni, SaturatingAdd(now, c.ttl))], s.used + 1), Some(sni))
  }

  /** The cached choice may be used: not lapsed, and still the SNI of some entry of the pool. */
  ghost predicate Usable(cache: Cache<bytes>, pool: ActivePool, dest: bytes, now: uint64) {
    dest in cache && now < cache[dest].expires && exists e :: e in pool && e.sni == cache[dest].value
  }

  /** min(now + ttl, u64::MAX). */
  function Deadline(now: uint64, ttl: uint64): (d: uint64)
    ensures now as int + ttl as int <= 0xFFFF_FFFF_FFFF_FFFF ==> d == now + ttl
    ensures now as int + ttl as int > 0xFFFF_FFFF_FFFF_FFFF ==> d == 0xFFFF_FFFF_FFFF_FFFF
  {
    SaturatingAdd(now, ttl)
  }

  /**
   * What one call does: a usable choice is returned and nothing changes; otherwise one draw is taken, and the
   * SNI it selects is returned and kept for this destination alone, until min(now + ttl, u64::MAX).
   */
  lemma SelectByCases(c: Setup, s: State, pool: ActivePool, dest: bytes, now: uint64)
    requires pool != []
    ensures
      var (t, r) := SelectStep(c, s, pool, dest, now);
      if Usable(s.cache, pool, dest, now) then
        t == s && r == Some(s.cache[dest].value)
      else
        var sni := Pick(pool, c.draws(s.used));
        && r == Some(sni) && t.used == s.used + 1
        && t.cache == s.cache[dest := Timed(sni, Deadline(now, c.ttl))]
  {
    assert dest in s.cache ==> (Contains(pool, s.cache[dest].value) <==>
      exists e :: e in pool && e.sni == s.cache[dest].value);
  }

  class Selector {
    const stickyTtl: uint64
    var cache: Cache<bytes>

    constructor (stickyTtl: uint64)
      ensures this.stickyTtl == stickyTtl && cache == map[]
    {
      this.stickyTtl, this.cache := stickyTtl, map[];
    }

    method Select(pool: ActivePool, dest: bytes, now: uint64, rng: Rng) returns (sni: Option<bytes>)
      modifies this, rng
      ensures (State(cache, rng.drawn), sni) ==
              SelectStep(Setup(stickyTtl, rng.draws), State(old(cache), old(rng.drawn)), pool, dest, now)
      ensures sni.None? <==> pool == []
      ensures sni.Some? ==> exists e :: e in pool && e.sni == sni.value
    {
      if pool == [] { return None; }
      if dest in cache && now < cache[dest].expires && Contains(pool, cache[dest].value) {
        return Some(cache[dest].value);
      }
      var picked := WeightedPick(pool, rng);
      cache := cache[dest := Timed(picked, SaturatingAdd(now, stickyTtl))];
      return Some(picked);
    }

    method EvictExpired(now: uint64)
      modifies this
      ensures cache == Evict(old(cache), now)
      ensures forall key :: key in cache ==> now < cache[key].expires
      ensures forall key, t: uint64 :: now <= t ==> Fresh(cache, key, t) == Fresh(old(cache), key, t)
    {
      cache := map key | key in cache && now < cache[key].expires :: cache[key];
      EvictingIsInvisible(old(cache), now);
    }
  }

  // ---- runs ----------------------------------------------------------------

  datatype Question = Question(pool: ActivePool, dest: bytes)

  type Op = Expiring.Op<Question>

  /** `select` as a program over its cache. */
  function Selecting(c: Setup): Program<bytes, nat, Question, Option<bytes>> {
    (s: State, q: Question, now: uint64) => SelectStep(c, s, q.pool, q.dest, now)
  }

  lemma AlikeSelects(c: Setup, a: State, b: State, q: Question, now: uint64, floor: uint64)
    requires floor <= now && Alike(a, b, floor)
    ensures
      var (a', ra) := SelectStep(c, a, q.pool, q.dest, now);
      var (b', rb) := SelectStep(c, b, q.pool, q.dest, now);
      ra == rb && Alike(a', b', floor)
  {
    AgreeingIsLasting(a.cache, b.cache, floor, now);
    if q.pool != [] {
      var choice := Timed(Pick(q.pool, c.draws(a.used)), SaturatingAdd(now, c.ttl));
      InsertingAgrees(a.cache, b.cache, floor, q.dest, choice);
    }
  }

  /** Evictions anywhere in a run change no result and no draw, provided no call after an eviction is made at an
      earlier time than the eviction's. */
  lemma EvictionIsInvisible(c: Setup, s: State, ops: seq<Op>)
    requires NoneBeforeEviction(0, ops)
    ensures Run(Selecting(c), s, ops).1 == Run(Selecting(c), s, WithoutEvictions(ops)).1
    ensures Run(Selecting(c), s, ops).0.used == Run(Selecting(c), s, WithoutEvictions(ops)).0.used
  {
    var f := Selecting(c);
    forall a: State, b: State, q: Question, now: uint64, floor: uint64 | floor <= now && Alike(a, b, floor)
      ensures f(a, q, now).1 == f(b, q, now).1 && Alike(f(a, q, now).0, f(b, q, now).0, floor)
    {
      AlikeSelects(c, a, b, q, now, floor);
    }
    AlikeRuns(f, s, s, 0, ops);
  }

  /** An eviction at `evictedAt` changes neither the result nor the draws of a call at `now`. */
  predicate Unnoticed(c: Setup, s: State, evictedAt: uint64, q: Question, now: uint64) {
    var evicted := s.(cache := Evict(s.cache, evictedAt));
    var (t, r) := SelectStep(c, s, q.pool, q.dest, now);
    var (t', r') := SelectStep(c, evicted, q.pool, q.dest, now);
    r == r' && t.used == t'.used
  }

  /** The proviso is exact: an eviction is safe before a call, whatever is cached and asked, if and only if the
      call is not earlier. */
  lemma EvictionIsSafeIff(c: Setup, evictedAt: uint64, now: uint64)
    ensures (forall s: State, q: Question :: Unnoticed(c, s, evictedAt, q, now)) <==> evictedAt <= now
  {
    if evictedAt <= now {
      forall s: State, q: Question
        ensures Unnoticed(c, s, evictedAt, q, now)
      {
        EvictingIsInvisible(s.cache, evictedAt);
        assert Fresh(Evict(s.cache, evictedAt), q.dest, now) == Fresh(s.cache, q.dest, now);
      }
    } else {
      var pool: ActivePool := [PoolEntry([97], 1.0)];
      var s, q := State(map[[] := Timed([97], now + 1)], 0), Question(pool, []);
      assert pool[0] in pool && Contains(pool, [97]);
      assert [] !in Evict(s.cache, evictedAt);
      assert !Unnoticed(c, s, evictedAt, q, now);
    }
  }

  /**
   * A run from an empty cache that shows it: ask, evict with a clock that is ahead by the TTL, ask again at the
   * first time.  The second question takes a fresh draw; without the eviction it is a hit.
   */
  lemma EvictionCanBeNoticed(c: Setup, pool: ActivePool, dest: bytes, now: uint64, evictedAt: uint64)
    requires pool != [] && now < SaturatingAdd(now, c.ttl) <= evictedAt
    ensures
      var q := Question(pool, dest);
      var ops: seq<Op> := [Call(q, now), EvictAt(evictedAt), Call(q, now)];
      && Run(Selecting(c), State(map[], 0), ops).0.used == 2
      && Run(Selecting(c), State(map[], 0), WithoutEvictions(ops)).0.used == 1
  {
    var q, f := Question(pool, dest), Selecting(c);
    AskEvictAsk(f, State(map[], 0), q, now, evictedAt);
    var first := f(State(map[], 0), q, now).0;
    assert first.cache[dest].expires == SaturatingAdd(now, c.ttl) && first.used == 1;
    assert dest !in Evict(first.cache, evictedAt);
    assert f(first, q, now) == (first, Some(first.cache[dest].value));
  }

  // ---- stickiness ----------------------------------------------------------

  /** Calls that leave the choice `sni` for `dest` alone before `deadline`. */
  predicate Harmless(op: Op, dest: bytes, sni: bytes, deadline: uint64) {
    match op
    case Call(q, now) => q.dest == dest ==> q.pool == [] || (now < deadline && Contains(q.pool, sni))
    case EvictAt(now) => now < deadline
  }

  lemma {:induction false} ChoiceSurvives(c: Setup, s: State, dest: bytes, sni: bytes, deadline: uint64, ops: seq<Op>)
    requires dest in s.cache && s.cache[dest] == Timed(sni, deadline)
    requires forall op <- ops :: Harmless(op, dest, sni, deadline)
    ensures
      var t := Run(Selecting(c), s, ops).0;
      dest in t.cache && t.cache[dest] == Timed(sni, deadline)
    decreases |ops|
  {
    if ops != [] {
      assert ops[0] in ops;
      var t := match ops[0]
        case Call(q, now) => SelectStep(c, s, q.pool, q.dest, now).0
        case EvictAt(now) => s.(cache := Evict(s.cache, now));
      ChoiceSurvives(c, t, dest, sni, deadline, ops[1..]);
    }
  }

  /**
   * A choice made on a miss at time t stays the choice for that destination until min(t + ttl, u64::MAX) and no
   * longer: after any calls before then whose pools for that destination still hold the SNI, a call is answered
   * with it, without a draw, if and only if it comes before that deadline and its own pool holds the SNI.  Calls
   * for other destinations do not interfere, and hits do not move the deadline.
   */
  lemma ChoiceIsSticky(c: Setup, s: State, pool: ActivePool, dest: bytes, t: uint64, between: seq<Op>,
                       pool': ActivePool, now: uint64)
    requires pool != [] && pool' != [] && Hit(s.cache, pool, dest, t).None?
    requires
      var sni := Pick(pool, c.draws(s.used));
      forall op <- between :: Harmless(op, dest, sni, Deadline(t, c.ttl))
    ensures
      var (first, chosen) := SelectStep(c, s, pool, dest, t);
      var later := Run(Selecting(c), first, between).0;
      var (last, again) := SelectStep(c, later, pool', dest, now);
      && chosen.Some?
      && (last.used == later.used <==>
          now < t + c.ttl && now < 0xFFFF_FFFF_FFFF_FFFF && exists e :: e in pool' && e.sni == chosen.value)
      && (last.used == later.used ==> again == chosen && last == later)
  {
    var sni := Pick(pool, c.draws(s.used));
    var first := SelectStep(c, s, pool, dest, t).0;
    ChoiceSurvives(c, first, dest, sni, Deadline(t, c.ttl), between);
    SelectByCases(c, Run(Selecting(c), first, between).0, pool', dest, now);
  }
}
