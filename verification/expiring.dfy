/** Maps whose entries carry a deadline, and when dropping the lapsed ones can be noticed. */
module Expiring {
  import opened Words

  datatype Timed<+V> = Timed(value: V, expires: uint64)

  type Cache<V> = map<bytes, Timed<V>>

  /** `retain(|_, e| now_ms < e.expires_at_ms)`. */
  function Evict<V>(c: Cache<V>, now: uint64): Cache<V> {
    map key | key in c && now < c[key].expires :: c[key]
  }

  /** The value under `key` while it is fresh. */
  function Fresh<V>(c: Cache<V>, key: bytes, now: uint64): Option<V> {
    if key in c && now < c[key].expires then Some(c[key].value) else None
  }

  /** From `now` on, the two caches cannot be told apart. */
  ghost predicate Agree<V>(a: Cache<V>, b: Cache<V>, now: uint64) {
    Evict(a, now) == Evict(b, now)
  }

  lemma AgreeingIsLasting<V>(a: Cache<V>, b: Cache<V>, now: uint64, later: uint64)
    requires Agree(a, b, now) && now <= later
    ensures Agree(a, b, later)
    ensures forall key :: Fresh(a, key, later) == Fresh(b, key, later)
  {
    assert Evict(a, later) == Evict(Evict(a, now), later);
    assert Evict(b, later) == Evict(Evict(b, now), later);
    forall key
      ensures Fresh(a, key, later) == Fresh(b, key, later)
    {
      assert key in Evict(a, later) <==> Fresh(a, key, later).Some?;
      assert key in Evict(b, later) <==> Fresh(b, key, later).Some?;
    }
  }

  lemma EvictAfterInsert<V>(c: Cache<V>, now: uint64, key: bytes, e: Timed<V>)
    ensures Evict(c[key := e], now) == if now < e.expires then Evict(c, now)[key := e] else Evict(c, now) - {key}
  {
  }

  lemma InsertingAgrees<V>(a: Cache<V>, b: Cache<V>, now: uint64, key: bytes, e: Timed<V>)
    requires Agree(a, b, now)
    ensures Agree(a[key := e], b[key := e], now)
  {
    EvictAfterInsert(a, now, key, e);
    EvictAfterInsert(b, now, key, e);
  }

  lemma EvictingIsInvisible<V>(c: Cache<V>, now: uint64)
    ensures forall key :: key in Evict(c, now) ==> now < Evict(c, now)[key].expires
    ensures forall key, t: uint64 :: now <= t ==> Fresh(Evict(c, now), key, t) == Fresh(c, key, t)
  {
  }

  // ---- a program that uses a cache -----------------------------------------

  /** The cache, and what its program has taken from the outside so far: draws, or lookups. */
  datatype State<V, X> = State(cache: Cache<V>, used: X)

  datatype Op<Q> =
    | Call(question: Q, now: uint64)
    | EvictAt(now: uint64)

  /** One call: a question asked at a time. */
  type Program<!V(!new), !X(!new), !Q(!new), R> = (State<V, X>, Q, uint64) -> (State<V, X>, R)

  /** The final state and the answers, in order. */
  function Run<V(!new), X(!new), Q(!new), R>(f: Program<V, X, Q, R>, s: State<V, X>, ops: seq<Op<Q>>)
    : (State<V, X>, seq<R>)
    decreases |ops|
  {
    if ops == [] then (s, [])
    else
      match ops[0]
      case Call(question, now) =>
        var (t, r) := f(s, question, now);
        var (u, rs) := Run(f, t, ops[1..]);
        (u, [r] + rs)
      case EvictAt(now) => Run(f, s.(cache := Evict(s.cache, now)), ops[1..])
  }

  function WithoutEvictions<Q>(ops: seq<Op<Q>>): seq<Op<Q>> {
    if ops == [] then []
    else (if ops[0].Call? then [ops[0]] else []) + WithoutEvictions(ops[1..])
  }

  /** No call is made at a time before that of an eviction it follows, nor before `floor`; otherwise times are free. */
  predicate NoneBeforeEviction<Q>(floor: uint64, ops: seq<Op<Q>>)
    decreases |ops|
  {
    ops == [] ||
    match ops[0]
    case Call(_, now) => floor <= now && NoneBeforeEviction(floor, ops[1..])
    case EvictAt(now) => NoneBeforeEviction(if floor < now then now else floor, ops[1..])
  }

  ghost predicate Alike<V(!new), X(!new)>(a: State<V, X>, b: State<V, X>, floor: uint64) {
    Agree(a.cache, b.cache, floor) && a.used == b.used
  }

  /** Asked the same question in states that are alike from `floor` on, at a time from then on, the program
      gives the same answer, takes as much from the outside, and leaves states that are alike. */
  ghost predicate Respects<V(!new), X(!new), Q(!new), R>(f: Program<V, X, Q, R>) {
    forall a: State<V, X>, b: State<V, X>, q: Q, now: uint64, floor: uint64 :: floor <= now && Alike(a, b, floor) ==>
      f(a, q, now).1 == f(b, q, now).1 && Alike(f(a, q, now).0, f(b, q, now).0, floor)
  }

  lemma {:induction false} AlikeRuns<V(!new), X(!new), Q(!new), R>(
      f: Program<V, X, Q, R>, a: State<V, X>, b: State<V, X>, floor: uint64, ops: seq<Op<Q>>)
    requires Respects(f) && Alike(a, b, floor) && NoneBeforeEviction(floor, ops)
    ensures Run(f, a, ops).1 == Run(f, b, WithoutEvictions(ops)).1
    ensures Run(f, a, ops).0.used == Run(f, b, WithoutEvictions(ops)).0.used
    decreases |ops|
  {
    if ops != [] {
      var rest := ops[1..];
      match ops[0] {
        case Call(q, now) =>
          assert WithoutEvictions(ops) == [ops[0]] + WithoutEvictions(rest);
          assert WithoutEvictions(ops)[1..] == WithoutEvictions(rest);
          AlikeRuns(f, f(a, q, now).0, f(b, q, now).0, floor, rest);
        case EvictAt(now) =>
          var higher := if floor < now then now else floor;
          var evicted := a.(cache := Evict(a.cache, now));
          AgreeingIsLasting(a.cache, b.cache, floor, higher);
          EvictedAgrees(a.cache, b.cache, now, higher);
          assert WithoutEvictions(ops) == WithoutEvictions(rest);
          AlikeRuns(f, evicted, b, higher, rest);
      }
    }
  }

  lemma EvictedAgrees<V>(a: Cache<V>, b: Cache<V>, now: uint64, floor: uint64)
    requires Agree(a, b, floor) && now <= floor
    ensures Agree(Evict(a, now), b, floor)
  {
    assert Evict(Evict(a, now), floor) == Evict(a, floor);
  }

  /** The same question twice at one time, with an eviction in between and without it. */
  lemma AskEvictAsk<V(!new), X(!new), Q(!new), R>(f: Program<V, X, Q, R>, s: State<V, X>, q: Q, now: uint64,
                                                  evictedAt: uint64)
    ensures
      var ops := [Call(q, now), EvictAt(evictedAt), Call(q, now)];
      var first := f(s, q, now).0;
      && Run(f, s, ops).0 == f(first.(cache := Evict(first.cache, evictedAt)), q, now).0
      && Run(f, s, WithoutEvictions(ops)).0 == f(first, q, now).0
  {
    var call, evict := Call(q, now), EvictAt(evictedAt);
    var ops, calls := [call, evict, call], [call, call];
    assert ops[1..] == [evict, call] && [evict, call][1..] == [call] && [call][1..] == [] && calls[1..] == [call];
    assert WithoutEvictions([call]) == [call] && WithoutEvictions([evict, call]) == [call];
    assert WithoutEvictions(ops) == calls;
    var first := f(s, q, now).0;
    assert Run(f, first, [call]).0 == f(first, q, now).0;
    var evicted := first.(cache := Evict(first.cache, evictedAt));
    assert Run(f, evicted, [call]).0 == f(evicted, q, now).0;
    assert Run(f, first, [evict, call]).0 == Run(f, evicted, [call]).0;
  }

  lemma {:induction false} RunThenCall<V(!new), X(!new), Q(!new), R>(f: Program<V, X, Q, R>, s: State<V, X>,
                                                                  ops: seq<Op<Q>>, q: Q, now: uint64)
    ensures
      var (t, rs) := Run(f, s, ops);
      Run(f, s, ops + [Call(q, now)]) == (f(t, q, now).0, rs + [f(t, q, now).1])
    decreases |ops|
  {
    var longer := ops + [Call(q, now)];
    if ops == [] {
      var (t, r) := f(s, q, now);
      assert longer == [Call(q, now)] && longer[1..] == [] && Run(f, t, []) == (t, []);
      assert [r] + [] == [r] == [] + [r];
    } else {
      var rest := ops[1..];
      assert longer[0] == ops[0] && longer[1..] == rest + [Call(q, now)];
      match ops[0] {
        case Call(p, at) =>
          var t, r := f(s, p, at).0, f(s, p, at).1;
          RunThenCall(f, t, rest, q, now);
          var (u, rs) := Run(f, t, rest);
          assert [r] + (rs + [f(u, q, now).1]) == ([r] + rs) + [f(u, q, now).1];
        case EvictAt(at) =>
          RunThenCall(f, s.(cache := Evict(s.cache, at)), rest, q, now);
      }
    }
  }
}
