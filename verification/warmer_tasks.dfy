/**
 * The DNS cache shared by many tasks.  A `warm` is three separate steps, the lock being released in between:
 * look in the cache, resolve, insert.  Steps of any number of tasks interleave freely with evictions.
 */
module WarmerTasks {
  import opened Words
  import opened Expiring
  import opened Warmer

  type TaskId = nat

  datatype Task =
    | Looking(host: bytes, now: uint64)
    | Resolving(host: bytes, now: uint64)
    | Inserting(host: bytes, now: uint64, resolved: Resolved)
    | Done(host: bytes, now: uint64, reply: Reply)

  /** A completed, successful lookup made on behalf of a `warm` stamped `stamp`. */
  datatype Lookup = Lookup(host: bytes, stamp: uint64, resolved: Resolved)

  datatype Shared = Shared(cache: Cache<Resolved>, tasks: map<TaskId, Task>, history: seq<Lookup>)

  datatype Action =
    | Begin(id: TaskId, host: bytes, now: uint64)
    | Look(id: TaskId)
    | Resolve(id: TaskId, answer: Reply)    // the resolver may answer anything
    | Insert(id: TaskId)
    | EvictAt(now: uint64)

  predicate Enabled(s: Shared, a: Action) {
    match a
    case Begin(id, _, _) => id !in s.tasks
    case Look(id) => id in s.tasks && s.tasks[id].Looking?
    case Resolve(id, _) => id in s.tasks && s.tasks[id].Resolving?
    case Insert(id) => id in s.tasks && s.tasks[id].Inserting?
    case EvictAt(_) => true
  }

  function Apply(c: Config, s: Shared, a: Action): Shared
    requires Enabled(s, a)
  {
    match a
    case Begin(id, host, now) => s.(tasks := s.tasks[id := Looking(host, now)])
    case Look(id) =>
      var Looking(host, now) := s.tasks[id];
      var cached := Fresh(s.cache, host, now);
      s.(tasks := s.tasks[id := if cached.Some? then Done(host, now, Ok(cached.value)) else Resolving(host, now)])
    case Resolve(id, answer) =>
      var Resolving(host, now) := s.tasks[id];
      if answer.Err? then s.(tasks := s.tasks[id := Done(host, now, answer)])
      else s.(tasks := s.tasks[id := Inserting(host, now, answer.value)],
              history := s.history + [Lookup(host, now, answer.value)])
    case Insert(id) =>
      var Inserting(host, now, resolved) := s.tasks[id];
      s.(tasks := s.tasks[id := Done(host, now, Ok(resolved))],
         cache := s.cache[host := Timed(resolved, Expiry(c, now, resolved.ttl))])
    case EvictAt(now) => s.(cache := Evict(s.cache, now))
  }

  predicate Runs(c: Config, s: Shared, actions: seq<Action>, t: Shared)
    decreases |actions|
  {
    if actions == [] then s == t
    else Enabled(s, actions[0]) && Runs(c, Apply(c, s, actions[0]), actions[1..], t)
  }

  const START := Shared(map[], map[], [])

  /** The entry cached for `host` is the result of a lookup in the history, with the expiry that lookup earns. */
  ghost predicate Earned(c: Config, history: seq<Lookup>, host: bytes, e: Timed<Resolved>) {
    exists stamp :: Lookup(host, stamp, e.value) in history && e.expires == Expiry(c, stamp, e.value.ttl)
  }

  ghost predicate Known(history: seq<Lookup>, host: bytes, resolved: Resolved) {
    exists stamp :: Lookup(host, stamp, resolved) in history
  }

  ghost predicate TaskInv(history: seq<Lookup>, t: Task) {
    match t
    case Inserting(host, now, resolved) => Lookup(host, now, resolved) in history
    case Done(host, _, Ok(resolved)) => Known(history, host, resolved)
    case _ => true
  }

  ghost predicate Inv(c: Config, s: Shared) {
    && (forall host :: host in s.cache ==> Earned(c, s.history, host, s.cache[host]))
    && (forall id :: id in s.tasks ==> TaskInv(s.history, s.tasks[id]))
  }

  lemma HistoryGrows(c: Config, history: seq<Lookup>, more: seq<Lookup>)
    ensures forall host, e :: Earned(c, history, host, e) ==> Earned(c, history + more, host, e)
    ensures forall t :: TaskInv(history, t) ==> TaskInv(history + more, t)
  {
    forall host, e | Earned(c, history, host, e)
      ensures Earned(c, history + more, host, e)
    {
      var stamp :| Lookup(host, stamp, e.value) in history && e.expires == Expiry(c, stamp, e.value.ttl);
      assert Lookup(host, stamp, e.value) in history + more;
    }
    forall t | TaskInv(history, t)
      ensures TaskInv(history + more, t)
    {
      if t.Done? && t.reply.Ok? {
        var stamp :| Lookup(t.host, stamp, t.reply.value) in history;
        assert Lookup(t.host, stamp, t.reply.value) in history + more;
      }
    }
  }

  lemma StepKeepsInv(c: Config, s: Shared, a: Action)
    requires Inv(c, s) && Enabled(s, a)
    ensures Inv(c, Apply(c, s, a))
  {
    var t := Apply(c, s, a);
    match a {
      case Look(id) =>
        var host := s.tasks[id].host;
        if Fresh(s.cache, host, s.tasks[id].now).Some? {
          assert Earned(c, s.history, host, s.cache[host]);
        }
      case Resolve(id, answer) =>
        HistoryGrows(c, s.history, t.history[|s.history|..]);
        assert t.history == s.history + t.history[|s.history|..];
      case Insert(id) =>
        assert TaskInv(s.history, s.tasks[id]);
        assert Earned(c, s.history, s.tasks[id].host, t.cache[s.tasks[id].host]);
      case _ =>
    }
  }

  lemma {:induction false} RunKeepsInv(c: Config, s: Shared, actions: seq<Action>, t: Shared)
    requires Inv(c, s) && Runs(c, s, actions, t)
    ensures Inv(c, t)
    decreases |actions|
  {
    if actions != [] {
      StepKeepsInv(c, s, actions[0]);
      RunKeepsInv(c, Apply(c, s, actions[0]), actions[1..], t);
    }
  }

  /**
   * In every interleaving, a host that reads as warm was really resolved, for a `warm` stamped less than the
   * ceiling ago; and a `warm` that returned an answer returned that of a real lookup of its host.
   */
  lemma WarmMeansResolved(c: Config, actions: seq<Action>, s: Shared, host: bytes, now: uint64)
    requires FitsMillis(c) && Runs(c, START, actions, s)
    ensures Fresh(s.cache, host, now).Some? ==>
      exists stamp: uint64 ::
        && Lookup(host, stamp, Fresh(s.cache, host, now).value) in s.history
        && now < Expiry(c, stamp, Fresh(s.cache, host, now).value.ttl)
        && now < stamp + c.maxTtl / 1_000_000
    ensures forall id :: id in s.tasks && s.tasks[id].Done? && s.tasks[id].reply.Ok? ==>
      Known(s.history, s.tasks[id].host, s.tasks[id].reply.value)
  {
    RunKeepsInv(c, START, actions, s);
    if Fresh(s.cache, host, now).Some? {
      var e := s.cache[host];
      assert Earned(c, s.history, host, e);
      var stamp :| Lookup(host, stamp, e.value) in s.history && e.expires == Expiry(c, stamp, e.value.ttl);
      MillisIsMonotone(Clamp(c, e.value.ttl), c.maxTtl);
    }
    forall id | id in s.tasks && s.tasks[id].Done? && s.tasks[id].reply.Ok?
      ensures Known(s.history, s.tasks[id].host, s.tasks[id].reply.value)
    {
      assert TaskInv(s.history, s.tasks[id]);
    }
  }

  /** Who asked: every task was begun with its host and stamp, every lookup answered such a task. */
  ghost predicate Accounted(past: seq<Action>, s: Shared) {
    && (forall id :: id in s.tasks ==> Begin(id, s.tasks[id].host, s.tasks[id].now) in past)
    && (forall l :: l in s.history ==> Asked(past, l))
  }

  ghost predicate Asked(past: seq<Action>, l: Lookup) {
    exists id :: Begin(id, l.host, l.stamp) in past && Resolve(id, Ok(l.resolved)) in past
  }

  lemma StepIsAccounted(c: Config, past: seq<Action>, s: Shared, a: Action)
    requires Accounted(past, s) && Enabled(s, a)
    ensures Accounted(past + [a], Apply(c, s, a))
  {
    var t := Apply(c, s, a);
    forall l | l in t.history
      ensures Asked(past + [a], l)
    {
      if l in s.history {
        var id :| Begin(id, l.host, l.stamp) in past && Resolve(id, Ok(l.resolved)) in past;
        assert Begin(id, l.host, l.stamp) in past + [a] && Resolve(id, Ok(l.resolved)) in past + [a];
      } else {
        assert Begin(a.id, l.host, l.stamp) in past + [a] && Resolve(a.id, Ok(l.resolved)) in past + [a];
      }
    }
  }

  lemma {:induction false} RunIsAccounted(c: Config, past: seq<Action>, s: Shared, actions: seq<Action>, t: Shared)
    requires Accounted(past, s) && Runs(c, s, actions, t)
    ensures Accounted(past + actions, t)
    decreases |actions|
  {
    if actions == [] {
      assert past + actions == past;
    } else {
      StepIsAccounted(c, past, s, actions[0]);
      RunIsAccounted(c, past + [actions[0]], Apply(c, s, actions[0]), actions[1..], t);
      assert past + [actions[0]] + actions[1..] == past + actions;
    }
  }

  /** No lookup is invented: each was a resolver answer to a task that began with that host and stamp. */
  lemma HistoryIsReal(c: Config, actions: seq<Action>, s: Shared, l: Lookup)
    requires Runs(c, START, actions, s) && l in s.history
    ensures exists id :: Begin(id, l.host, l.stamp) in actions && Resolve(id, Ok(l.resolved)) in actions
  {
    RunIsAccounted(c, [], START, actions, s);
    assert [] + actions == actions;
    assert Asked(actions, l);
  }

  // ---- what concurrency costs ----------------------------------------------

  lemma {:induction false} RunsThen(c: Config, s: Shared, actions: seq<Action>, t: Shared, a: Action)
    requires Runs(c, s, actions, t) && Enabled(t, a)
    ensures Runs(c, s, actions + [a], Apply(c, t, a))
    decreases |actions|
  {
    var longer := actions + [a];
    if actions != [] {
      RunsThen(c, Apply(c, s, actions[0]), actions[1..], t, a);
      assert longer[1..] == actions[1..] + [a];
    } else {
      assert longer[1..] == [];
    }
  }

  /**
   * The sequential guarantee does not survive interleaving: a task that began earlier may insert later and
   * leave an entry that is already stale, so a host can be cold right after a `warm` for it returned, whatever
   * lifetime of at least a millisecond the answer has.
   */
  lemma LateInsertCanCool(c: Config, host: bytes, r: Resolved) returns (run: seq<Action>, s: Shared, t: Shared)
    requires 1 <= Millis(Clamp(c, r.ttl)) < U64_MAX
    ensures Runs(c, START, run, s) && Runs(c, START, run + [Insert(0)], t)
    ensures
      var now := Millis(Clamp(c, r.ttl));
      && 1 in s.tasks && s.tasks[1] == Done(host, now, Ok(r))
      && Fresh(s.cache, host, now) == Some(r) && Fresh(t.cache, host, now) == None
  {
    var now := Millis(Clamp(c, r.ttl));
    run := [];
    s := START;
    var plan := [
      Begin(0, host, 0), Look(0), Resolve(0, Ok(r)),
      Begin(1, host, now), Look(1), Resolve(1, Ok(r)), Insert(1)];
    run, s := Then(c, run, s, plan[0]);
    run, s := Then(c, run, s, plan[1]);
    run, s := Then(c, run, s, plan[2]);
    run, s := Then(c, run, s, plan[3]);
    run, s := Then(c, run, s, plan[4]);
    run, s := Then(c, run, s, plan[5]);
    run, s := Then(c, run, s, plan[6]);
    var _, u := Then(c, run, s, Insert(0));
    t := u;
  }

  lemma Then(c: Config, run: seq<Action>, s: Shared, a: Action) returns (longer: seq<Action>, t: Shared)
    requires Runs(c, START, run, s) && Enabled(s, a)
    ensures longer == run + [a] && t == Apply(c, s, a) && Runs(c, START, longer, t)
  {
    RunsThen(c, START, run, s, a);
    longer, t := run + [a], Apply(c, s, a);
  }

  // ---- when a host is warm -------------------------------------------------

  /** When the cached entry lapses; 0 when there is none. */
  function ExpiresAt(cache: Cache<Resolved>, host: bytes): uint64 {
    if host in cache then cache[host].expires else 0
  }

  /** `id` was begun for `host` and is done with an answer it looked up or found. */
  predicate Answered(tasks: map<TaskId, Task>, id: TaskId, host: bytes) {
    id in tasks && tasks[id].host == host && tasks[id].Done? && tasks[id].reply.Ok?
  }

  /** The expiry the answer of a task earns, by the task's own stamp. */
  function Earns(c: Config, tasks: map<TaskId, Task>, id: TaskId): uint64
    requires id in tasks && tasks[id].Done? && tasks[id].reply.Ok?
  {
    Expiry(c, tasks[id].now, tasks[id].reply.value.ttl)
  }

  /**
   * What a schedule does to the expiry of `host`, read off the order of its inserts and evictions and the
   * stamps and answers of the tasks: each insert for the host replaces it, each eviction at or past it clears it.
   */
  function LastExpiry(c: Config, tasks: map<TaskId, Task>, more: seq<Action>, host: bytes, before: uint64): uint64
    decreases |more|
  {
    if more == [] then before
    else
      var after := match more[0]
        case Insert(id) => if Answered(tasks, id, host) then Earns(c, tasks, id) else before
        case EvictAt(now) => if before <= now then 0 else before
        case _ => before;
      LastExpiry(c, tasks, more[1..], host, after)
  }

  lemma {:induction false} DoneStays(c: Config, s: Shared, more: seq<Action>, u: Shared, id: TaskId)
    requires Runs(c, s, more, u) && id in s.tasks && s.tasks[id].Done?
    ensures id in u.tasks && u.tasks[id] == s.tasks[id]
    decreases |more|
  {
    if more != [] {
      DoneStays(c, Apply(c, s, more[0]), more[1..], u, id);
    }
  }

  lemma {:induction false} ExpiryIsLastExpiry(c: Config, s: Shared, more: seq<Action>, u: Shared, host: bytes)
    requires Runs(c, s, more, u)
    ensures ExpiresAt(u.cache, host) == LastExpiry(c, u.tasks, more, host, ExpiresAt(s.cache, host))
    decreases |more|
  {
    if more != [] {
      var m := Apply(c, s, more[0]);
      if more[0].Insert? {
        DoneStays(c, m, more[1..], u, more[0].id);
      }
      ExpiryIsLastExpiry(c, m, more[1..], u, host);
    }
  }

  /** The step with which a `warm` returns an answer: a hit, or its insert. */
  predicate Returns(c: Config, s: Shared, a: Action, id: TaskId) {
    Enabled(s, a) && (a == Look(id) || a == Insert(id)) && id in s.tasks &&
    Answered(Apply(c, s, a).tasks, id, s.tasks[id].host)
  }

  /**
   * Exactly when a host is still warm for the caller whose `warm` returned, at the time it passed, after any
   * further steps of other tasks: when the expiry their inserts and evictions leave is later than that time.
   * Without further steps that is always so for a hit, and for an insert unless it was written stale.
   */
  lemma WarmAfterReturnIff(c: Config, s: Shared, a: Action, id: TaskId, more: seq<Action>, u: Shared)
    requires Returns(c, s, a, id) && Runs(c, Apply(c, s, a), more, u)
    ensures
      var (host, now, m) := (s.tasks[id].host, s.tasks[id].now, Apply(c, s, a));
      && (Fresh(u.cache, host, now).Some? <==>
          now < LastExpiry(c, u.tasks, more, host, ExpiresAt(m.cache, host)))
      && (a == Look(id) ==> now < ExpiresAt(m.cache, host))
      && (a == Insert(id) ==> ExpiresAt(m.cache, host) == Earns(c, m.tasks, id))
  {
    ExpiryIsLastExpiry(c, Apply(c, s, a), more, u, s.tasks[id].host);
  }

  /** The action neither evicts at a time past `now` nor inserts an entry for `host` that is stale at `now`. */
  predicate Spares(c: Config, tasks: map<TaskId, Task>, a: Action, host: bytes, now: uint64) {
    match a
    case Insert(id) => Answered(tasks, id, host) ==> now < Earns(c, tasks, id)
    case EvictAt(t) => t <= now
    case _ => true
  }

  /** What a caller can ask of the other tasks: if every step they take spares the host, it stays as warm as the
      `warm` left it; and an insert among them makes it warm. */
  lemma {:induction false} SparedStaysWarm(c: Config, s: Shared, more: seq<Action>, u: Shared, host: bytes, now: uint64)
    requires Runs(c, s, more, u)
    requires forall a <- more :: Spares(c, u.tasks, a, host, now)
    ensures
      Fresh(u.cache, host, now).Some? <==>
      || Fresh(s.cache, host, now).Some?
      || exists id :: Insert(id) in more && Answered(u.tasks, id, host)
    decreases |more|
  {
    if more != [] {
      var a, rest := more[0], more[1..];
      var m := Apply(c, s, a);
      assert a in more && Spares(c, u.tasks, a, host, now);
      assert more == [a] + rest;
      SparedStaysWarm(c, m, rest, u, host, now);
      if a.Insert? {
        DoneStays(c, m, rest, u, a.id);
      }
    }
  }

  // ---- the steps of one call -----------------------------------------------

  /** The actions one `warm` takes when nothing comes in between. */
  function WholeWarm(s: Shared, id: TaskId, host: bytes, now: uint64, answer: Reply): seq<Action> {
    if Fresh(s.cache, host, now).Some? then [Begin(id, host, now), Look(id)]
    else if answer.Err? then [Begin(id, host, now), Look(id), Resolve(id, answer)]
    else [Begin(id, host, now), Look(id), Resolve(id, answer), Insert(id)]
  }

  /** Uninterrupted, the steps of a task do what the sequential `warm` does: same cache, same reply. */
  lemma UninterruptedIsSequential(w: Setup, s: Shared, lookups: seq<bytes>, id: TaskId, host: bytes, now: uint64)
    returns (t: Shared)
    requires id !in s.tasks
    ensures
      var (after, reply) := WarmStep(w, State(s.cache, lookups), host, now);
      && Runs(w.config, s, WholeWarm(s, id, host, now, w.answers(|lookups|, host)), t)
      && t.cache == after.cache
      && id in t.tasks && t.tasks[id] == Done(host, now, reply)
  {
    var answer := w.answers(|lookups|, host);
    var actions := WholeWarm(s, id, host, now, answer);
    t := Apply(w.config, s, Begin(id, host, now));
    RunsThen(w.config, s, [], s, Begin(id, host, now));
    RunsThen(w.config, s, actions[..1], t, Look(id));
    t := Apply(w.config, t, Look(id));
    assert actions[..2] == actions[..1] + [Look(id)];
    if Fresh(s.cache, host, now).None? {
      RunsThen(w.config, s, actions[..2], t, Resolve(id, answer));
      t := Apply(w.config, t, Resolve(id, answer));
      assert actions[..3] == actions[..2] + [Resolve(id, answer)];
      if answer.Ok? {
        RunsThen(w.config, s, actions[..3], t, Insert(id));
        t := Apply(w.config, t, Insert(id));
        assert actions == actions[..3] + [Insert(id)];
      }
    }
    assert actions[..|actions|] == actions;
  }
}
