/**
 * Epoch refreshes and SNI picks of many connections sharing one pool.  A refresh reads the clock, compares
 * with the published epoch, writes the pool and publishes, with other tasks' steps in between; a pick holds
 * the selector's mutex and a read lock on the pool.
 */
module Pipeline {
  import opened Words
  import opened Ordering
  import opened Pool
  import opened Epochs
  import Expiring
  import Selector

  type TaskId = nat

  datatype Refresh =
    | Holding(epoch: Epoch)     // the clock has been read
    | Building(epoch: Epoch)    // found different from the published epoch
    | Wrote(epoch: Epoch)       // the pool is written, the epoch not yet published

  datatype Picking =
    | Locked(dest: bytes, now: uint64)
    | Reading(dest: bytes, now: uint64, seen: Selector.ActivePool)

  datatype Picked = Picked(dest: bytes, now: uint64, seen: Selector.ActivePool, sni: Option<bytes>)

  datatype State = State(
    pool: Selector.ActivePool,
    published: Epoch,
    selector: Selector.State,
    refreshes: map<TaskId, Refresh>,
    picker: Option<Picking>,      // whoever holds the selector's mutex
    picks: seq<Picked>,
    observed: set<Epoch>)         // every epoch a clock reading gave

  datatype Action =
    | ReadClock(id: TaskId, epoch: Epoch)
    | Compare(id: TaskId)
    | WritePool(id: TaskId)
    | Publish(id: TaskId)
    | LockSelector(dest: bytes, now: uint64)
    | LockPool
    | Choose

  /** `window(e)` is the pool a refresh computes for epoch `e`; the steps depend on nothing else about it. */
  datatype Config = Config(window: Epoch -> Selector.ActivePool, setup: Selector.Setup)

  /** `Pipeline::with_resolver`. */
  function Init(c: Config, epoch: Epoch): State {
    State(c.window(epoch), epoch, Expiring.State(map[], 0), map[], None, [], {epoch})
  }

  predicate Enabled(s: State, a: Action) {
    match a
    case ReadClock(id, _) => id !in s.refreshes
    case Compare(id) => id in s.refreshes && s.refreshes[id].Holding?
    case WritePool(id) => id in s.refreshes && s.refreshes[id].Building? && !(s.picker.Some? && s.picker.value.Reading?)
    case Publish(id) => id in s.refreshes && s.refreshes[id].Wrote?
    case LockSelector(_, _) => s.picker.None?
    case LockPool => s.picker.Some? && s.picker.value.Locked?
    case Choose => s.picker.Some? && s.picker.value.Reading?
  }

  function Apply(c: Config, s: State, a: Action): State
    requires Enabled(s, a)
  {
    match a
    case ReadClock(id, epoch) => s.(refreshes := s.refreshes[id := Holding(epoch)], observed := s.observed + {epoch})
    case Compare(id) =>
      var epoch := s.refreshes[id].epoch;
      s.(refreshes := if s.published != epoch then s.refreshes[id := Building(epoch)] else s.refreshes - {id})
    case WritePool(id) =>
      var epoch := s.refreshes[id].epoch;
      s.(pool := c.window(epoch), refreshes := s.refreshes[id := Wrote(epoch)])
    case Publish(id) => s.(published := s.refreshes[id].epoch, refreshes := s.refreshes - {id})
    case LockSelector(dest, now) => s.(picker := Some(Locked(dest, now)))
    case LockPool => s.(picker := Some(Reading(s.picker.value.dest, s.picker.value.now, s.pool)))
    case Choose =>
      var Reading(dest, now, seen) := s.picker.value;
      var (after, sni) := Selector.SelectStep(c.setup, s.selector, s.pool, dest, now);
      s.(selector := after, picker := None, picks := s.picks + [Picked(dest, now, seen, sni)])
  }

  predicate Runs(c: Config, s: State, actions: seq<Action>, t: State)
    decreases |actions|
  {
    if actions == [] then s == t
    else Enabled(s, actions[0]) && Runs(c, Apply(c, s, actions[0]), actions[1..], t)
  }

  // ---- every interleaving --------------------------------------------------

  /** The pool is the whole window of some observed epoch. */
  ghost predicate WholeWindow(c: Config, observed: set<Epoch>, pool: Selector.ActivePool) {
    exists e :: e in observed && pool == c.window(e)
  }

  ghost predicate GoodPick(c: Config, observed: set<Epoch>, p: Picked) {
    && WholeWindow(c, observed, p.seen)
    && (p.sni.None? <==> p.seen == [])
    && (p.sni.Some? ==> Contains(p.seen, p.sni.value))
  }

  ghost predicate Inv(c: Config, s: State) {
    && WholeWindow(c, s.observed, s.pool)
    && s.published in s.observed
    && (forall id :: id in s.refreshes ==> s.refreshes[id].epoch in s.observed)
    && (s.picker.Some? && s.picker.value.Reading? ==> s.picker.value.seen == s.pool)
    && (forall p :: p in s.picks ==> GoodPick(c, s.observed, p))
  }

  lemma ObservingMore(c: Config, observed: set<Epoch>, more: set<Epoch>)
    ensures forall pool :: WholeWindow(c, observed, pool) ==> WholeWindow(c, observed + more, pool)
  {
    forall pool | WholeWindow(c, observed, pool)
      ensures WholeWindow(c, observed + more, pool)
    {
      var e :| e in observed && pool == c.window(e);
      assert e in observed + more;
    }
  }

  lemma ChooseKeepsInv(c: Config, s: State)
    requires Inv(c, s) && Enabled(s, Choose)
    ensures Inv(c, Apply(c, s, Choose))
  {
    var t := Apply(c, s, Choose);
    var p := t.picks[|s.picks|];
    assert t.picks == s.picks + [p] && p.seen == s.pool && t.observed == s.observed;
    assert GoodPick(c, s.observed, p);
  }

  lemma ReadClockKeepsInv(c: Config, s: State, id: TaskId, epoch: Epoch)
    requires Inv(c, s) && Enabled(s, ReadClock(id, epoch))
    ensures Inv(c, Apply(c, s, ReadClock(id, epoch)))
  {
    ObservingMore(c, s.observed, {epoch});
  }

  lemma WritePoolKeepsInv(c: Config, s: State, id: TaskId)
    requires Inv(c, s) && Enabled(s, WritePool(id))
    ensures Inv(c, Apply(c, s, WritePool(id)))
  {
    var t := Apply(c, s, WritePool(id));
    assert s.refreshes[id].epoch in s.observed && t.observed == s.observed && t.picks == s.picks;
    assert WholeWindow(c, t.observed, t.pool);
  }

  lemma StepKeepsInv(c: Config, s: State, a: Action)
    requires Inv(c, s) && Enabled(s, a)
    ensures Inv(c, Apply(c, s, a))
  {
    match a {
      case ReadClock(id, epoch) => ReadClockKeepsInv(c, s, id, epoch);
      case WritePool(id) => WritePoolKeepsInv(c, s, id);
      case Choose => ChooseKeepsInv(c, s);
      case _ => assert Apply(c, s, a).picks == s.picks && Apply(c, s, a).observed == s.observed;
    }
  }

  lemma {:induction false} RunKeepsInv(c: Config, s: State, actions: seq<Action>, t: State)
    requires Inv(c, s) && Runs(c, s, actions, t)
    ensures Inv(c, t)
    decreases |actions|
  {
    if actions != [] {
      StepKeepsInv(c, s, actions[0]);
      RunKeepsInv(c, Apply(c, s, actions[0]), actions[1..], t);
    }
  }

  /**
   * Whatever the interleaving, the pool is never a mixture: it is the whole window of an epoch that some
   * refresh or the constructor observed, and every pick is a member of the pool it read under the lock.
   */
  lemma PoolIsAlwaysWhole(c: Config, epoch: Epoch, actions: seq<Action>, s: State)
    requires Runs(c, Init(c, epoch), actions, s)
    ensures WholeWindow(c, s.observed, s.pool)
    ensures forall p :: p in s.picks ==> GoodPick(c, s.observed, p)
  {
    RunKeepsInv(c, Init(c, epoch), actions, s);
  }

  /** The configuration of a deployment: its windows are its accepted pools. */
  function Deployed(d: Deployment, setup: Selector.Setup): Config {
    Config(epoch => WindowPool(d, epoch), setup)
  }

  /**
   * So in a deployment every SNI that is ever picked is live in an epoch at most one away from an observed
   * one; and with at least one active entry configured every pick yields an SNI, so the fixed fallback is
   * never used.
   */
  lemma EveryPickIsLive(d: Deployment, setup: Selector.Setup, epoch: Epoch, actions: seq<Action>, s: State, p: Picked)
    requires Runs(Deployed(d, setup), Init(Deployed(d, setup), epoch), actions, s) && p in s.picks
    ensures d.k >= 1 ==> p.sni.Some?
    ensures p.sni.Some? ==>
      exists observed: Epoch, live: Epoch ::
        && observed in s.observed && live <= observed + 1 && observed <= live + 1
        && exists e :: e in EpochSubset(d, live) && e.sni == p.sni.value
  {
    var observed := PickedFrom(d, setup, epoch, actions, s, p);
    if d.k >= 1 { WindowIsNonEmpty(d, observed); }
    if p.sni.Some? {
      var live := WindowSniIsLive(d, observed, p.sni.value);
    }
  }

  /** The epoch whose window a pick was made from. */
  lemma PickedFrom(d: Deployment, setup: Selector.Setup, epoch: Epoch, actions: seq<Action>, s: State, p: Picked)
    returns (observed: Epoch)
    requires Runs(Deployed(d, setup), Init(Deployed(d, setup), epoch), actions, s) && p in s.picks
    ensures observed in s.observed && p.seen == WindowPool(d, observed)
    ensures p.sni.None? <==> p.seen == []
    ensures p.sni.Some? ==> Contains(p.seen, p.sni.value)
  {
    var c := Deployed(d, setup);
    PoolIsAlwaysWhole(c, epoch, actions, s);
    assert GoodPick(c, s.observed, p);
    observed :| observed in s.observed && p.seen == c.window(observed);
  }

  lemma WindowIsNonEmpty(d: Deployment, epoch: Epoch)
    requires d.k >= 1
    ensures WindowPool(d, epoch) != []
  {
    WindowIsUnion(d, epoch);
    assert |d.master| >= 1;
  }

  lemma WindowSniIsLive(d: Deployment, epoch: Epoch, sni: bytes) returns (live: Epoch)
    requires Contains(WindowPool(d, epoch), sni)
    ensures live <= epoch + 1 && epoch <= live + 1 && Contains(EpochSubset(d, live), sni)
  {
    var e := EntryOf(WindowPool(d, epoch), sni);
    live := LiveEpoch(d, epoch, e);
    InWindowIff(live, epoch);
    EntryIsContained(EpochSubset(d, live), e);
  }

  lemma EntryOf(pool: seq<PoolEntry>, sni: bytes) returns (e: PoolEntry)
    requires Contains(pool, sni)
    ensures e in Elements(pool) && e.sni == sni
  {
    e :| e in pool && e.sni == sni;
  }

  lemma EntryIsContained(pool: seq<PoolEntry>, e: PoolEntry)
    requires e in Elements(pool)
    ensures Contains(pool, e.sni)
  {
    assert e in pool;
  }

  // ---- when the published epoch is the pool's ------------------------------

  /** No two refreshes are between writing and publishing with different epochs. */
  ghost predicate OneWriter(s: State) {
    forall i, j :: i in s.refreshes && j in s.refreshes && s.refreshes[i].Wrote? && s.refreshes[j].Wrote? ==>
      s.refreshes[i].epoch == s.refreshes[j].epoch
  }

  ghost predicate OrderlyRun(c: Config, s: State, actions: seq<Action>, t: State)
    decreases |actions|
  {
    OneWriter(s) &&
    if actions == [] then s == t
    else Enabled(s, actions[0]) && OrderlyRun(c, Apply(c, s, actions[0]), actions[1..], t)
  }

  ghost predicate InStep(c: Config, s: State) {
    && (forall id :: id in s.refreshes && s.refreshes[id].Wrote? ==> s.pool == c.window(s.refreshes[id].epoch))
    && ((forall id :: id in s.refreshes ==> !s.refreshes[id].Wrote?) ==> s.pool == c.window(s.published))
  }

  lemma OrderlyStep(c: Config, s: State, a: Action)
    requires InStep(c, s) && Enabled(s, a) && OneWriter(Apply(c, s, a))
    ensures InStep(c, Apply(c, s, a))
  {
    var t := Apply(c, s, a);
    match a {
      case WritePool(id) =>
        assert t.refreshes[id].Wrote?;
      case Publish(id) =>
        assert s.pool == c.window(s.refreshes[id].epoch);
      case ReadClock(id, _) =>
        assert forall other :: other in s.refreshes ==> t.refreshes[other] == s.refreshes[other];
      case Compare(id) =>
        assert forall other :: other in s.refreshes && other != id ==>
          other in t.refreshes && t.refreshes[other] == s.refreshes[other];
      case _ =>
    }
  }

  lemma {:induction false} OrderlyRunStaysInStep(c: Config, s: State, actions: seq<Action>, t: State)
    requires InStep(c, s) && OrderlyRun(c, s, actions, t)
    ensures InStep(c, t)
    decreases |actions|
  {
    if actions != [] {
      var m := Apply(c, s, actions[0]);
      assert OneWriter(m);
      OrderlyStep(c, s, actions[0]);
      OrderlyRunStaysInStep(c, m, actions[1..], t);
    }
  }

  /** If no two refreshes that hold different epochs are ever between write and publish together, then
      whenever none is there the pool is exactly the window of the published epoch. */
  lemma PoolMatchesPublished(c: Config, epoch: Epoch, actions: seq<Action>, s: State)
    requires OrderlyRun(c, Init(c, epoch), actions, s)
    requires forall id :: id in s.refreshes ==> !s.refreshes[id].Wrote?
    ensures s.pool == c.window(s.published)
  {
    OrderlyRunStaysInStep(c, Init(c, epoch), actions, s);
  }

  // ---- and when it is not --------------------------------------------------

  /** The task of the last write in a schedule. */
  function LastWriter(past: seq<Action>): Option<TaskId> {
    if past == [] then None
    else if past[|past| - 1].WritePool? then Some(past[|past| - 1].id)
    else LastWriter(past[..|past| - 1])
  }

  /** The task of the last publication in a schedule. */
  function LastPublisher(past: seq<Action>): Option<TaskId> {
    if past == [] then None
    else if past[|past| - 1].Publish? then Some(past[|past| - 1].id)
    else LastPublisher(past[..|past| - 1])
  }

  /** What the clock last showed a task. */
  function ReadBy(past: seq<Action>, id: TaskId, start: Epoch): Epoch {
    if past == [] then start
    else
      var a := past[|past| - 1];
      if a.ReadClock? && a.id == id then a.epoch else ReadBy(past[..|past| - 1], id, start)
  }

  /** The clock reading behind the last write; the constructor's if there was none. */
  function WrittenEpoch(past: seq<Action>, start: Epoch): Epoch {
    if past == [] then start
    else
      var a, before := past[|past| - 1], past[..|past| - 1];
      if a.WritePool? then ReadBy(before, a.id, start) else WrittenEpoch(before, start)
  }

  /** The clock reading behind the last publication; the constructor's if there was none. */
  function PublishedEpoch(past: seq<Action>, start: Epoch): Epoch {
    if past == [] then start
    else
      var a, before := past[|past| - 1], past[..|past| - 1];
      if a.Publish? then ReadBy(before, a.id, start) else PublishedEpoch(before, start)
  }

  predicate Unpublished(s: State, id: TaskId) {
    id in s.refreshes && s.refreshes[id].Wrote?
  }

  /** What the schedule so far says about the shared state. */
  ghost predicate OnSchedule(c: Config, start: Epoch, past: seq<Action>, s: State) {
    && (forall id :: id in s.refreshes ==> s.refreshes[id].epoch == ReadBy(past, id, start))
    && s.pool == c.window(WrittenEpoch(past, start))
    && s.published == PublishedEpoch(past, start)
    && (forall id :: Unpublished(s, id) ==> LastWriter(past).Some?)
    && WriterInv(start, past, s)
  }

  /** If the last writer has published, and nobody after it, the two epochs are one. */
  ghost predicate WriterInv(start: Epoch, past: seq<Action>, s: State) {
    match LastWriter(past)
    case None => LastPublisher(past).None? ==> WrittenEpoch(past, start) == PublishedEpoch(past, start)
    case Some(id) =>
      if Unpublished(s, id) then s.refreshes[id].epoch == WrittenEpoch(past, start)
      else LastPublisher(past) == Some(id) ==> WrittenEpoch(past, start) == PublishedEpoch(past, start)
  }

  lemma StepIsOnSchedule(c: Config, start: Epoch, past: seq<Action>, s: State, a: Action)
    requires OnSchedule(c, start, past, s) && Enabled(s, a)
    ensures OnSchedule(c, start, past + [a], Apply(c, s, a))
  {
    var t, more := Apply(c, s, a), past + [a];
    assert more[|more| - 1] == a && more[..|more| - 1] == past;
    forall id | id in t.refreshes
      ensures t.refreshes[id].epoch == ReadBy(more, id, start)
    {
      assert id in s.refreshes || (a.ReadClock? && a.id == id);
    }
    forall id | Unpublished(t, id)
      ensures LastWriter(more).Some?
    {
      assert Unpublished(s, id) || a == WritePool(id);
    }
    match a {
      case WritePool(id) => assert Unpublished(t, id);
      case Publish(id) =>
        assert Unpublished(s, id);
        if LastWriter(past) == Some(id) {
          assert s.refreshes[id].epoch == WrittenEpoch(past, start);
        }
      case _ => assert forall id :: Unpublished(t, id) <==> Unpublished(s, id);
    }
  }

  lemma {:induction false} RunIsOnSchedule(c: Config, start: Epoch, past: seq<Action>, s: State,
                                           actions: seq<Action>, t: State)
    requires OnSchedule(c, start, past, s) && Runs(c, s, actions, t)
    ensures OnSchedule(c, start, past + actions, t)
    decreases |actions|
  {
    if actions == [] {
      assert past + actions == past;
    } else {
      StepIsOnSchedule(c, start, past, s, actions[0]);
      RunIsOnSchedule(c, start, past + [actions[0]], Apply(c, s, actions[0]), actions[1..], t);
      assert past + [actions[0]] + actions[1..] == past + actions;
    }
  }

  /**
   * Exactly when the pool is the published epoch's once no write is waiting to be published, read off the order
   * of the steps alone: when the task that wrote last is the one that published last, or the clock readings of
   * the two have the same window.
   */
  lemma PoolMatchesIff(c: Config, epoch: Epoch, actions: seq<Action>, s: State)
    requires Runs(c, Init(c, epoch), actions, s)
    requires forall id :: !Unpublished(s, id)
    ensures
      s.pool == c.window(s.published) <==>
      || LastWriter(actions) == LastPublisher(actions)
      || c.window(WrittenEpoch(actions, epoch)) == c.window(PublishedEpoch(actions, epoch))
  {
    RunIsOnSchedule(c, epoch, [], Init(c, epoch), actions, s);
    assert [] + actions == actions;
    var writer := LastWriter(actions);
    if writer.Some? {
      assert !Unpublished(s, writer.value);
    }
  }

  lemma {:induction false} RunsThen(c: Config, s: State, actions: seq<Action>, t: State, a: Action)
    requires Runs(c, s, actions, t) && Enabled(t, a)
    ensures Runs(c, s, actions + [a], Apply(c, t, a))
    decreases |actions|
  {
    var longer := actions + [a];
    if actions != [] {
      RunsThen(c, Apply(c, s, actions[0]), actions[1..], t, a);
      assert longer[1..] == actions[1..] + [a];
    } else {
      assert longer[1..] == [];
    }
  }

  lemma Then(c: Config, epoch: Epoch, run: seq<Action>, s: State, a: Action) returns (longer: seq<Action>, t: State)
    requires Runs(c, Init(c, epoch), run, s) && Enabled(s, a)
    ensures longer == run + [a] && t == Apply(c, s, a) && Runs(c, Init(c, epoch), longer, t)
  {
    RunsThen(c, Init(c, epoch), run, s, a);
    longer, t := run + [a], Apply(c, s, a);
  }

  lemma PublishBoth(c: Config, s: State, i: TaskId, j: TaskId) returns (t: State)
    requires {i, j} <= s.refreshes.Keys && i != j && s.refreshes[i].Wrote? && s.refreshes[j].Wrote?
    ensures Runs(c, s, [Publish(i), Publish(j)], t)
    ensures t == s.(published := s.refreshes[j].epoch, refreshes := s.refreshes - {i} - {j})
  {
    var a := [Publish(i), Publish(j)];
    var m := Apply(c, s, a[0]);
    assert j in m.refreshes && m.refreshes[j] == s.refreshes[j];
    t := Apply(c, m, a[1]);
    assert a[1..] == [a[1]] && a[1..][1..] == [];
    assert Runs(c, m, a[1..], t);
  }

  /** Of two refreshes that have both written, the last to write must publish last; otherwise the pool is the
      published epoch's exactly when the two windows happen to be equal. */
  lemma PublishOrderMatters(c: Config, s: State, first: TaskId, last: TaskId) returns (good: State, crossed: State)
    requires {first, last} <= s.refreshes.Keys && first != last
    requires s.refreshes[first].Wrote? && s.refreshes[last].Wrote? && s.pool == c.window(s.refreshes[last].epoch)
    ensures Runs(c, s, [Publish(first), Publish(last)], good) && good.pool == c.window(good.published)
    ensures Runs(c, s, [Publish(last), Publish(first)], crossed)
    ensures crossed.pool == c.window(crossed.published) <==>
            c.window(s.refreshes[first].epoch) == c.window(s.refreshes[last].epoch)
  {
    good := PublishBoth(c, s, first, last);
    crossed := PublishBoth(c, s, last, first);
  }

  /** Exactly two refreshes are in flight, tasks 0 and 1. */
  predicate Flying(s: State, first: Refresh, second: Refresh) {
    s.refreshes.Keys == {0, 1} && s.refreshes[0] == first && s.refreshes[1] == second
  }

  lemma BothReadTheClock(c: Config, epoch: Epoch, older: Epoch, newer: Epoch) returns (run: seq<Action>, s: State)
    ensures Runs(c, Init(c, epoch), run, s)
    ensures Flying(s, Holding(older), Holding(newer)) && s.published == epoch && s.picker == None
  {
    run, s := Then(c, epoch, [], Init(c, epoch), ReadClock(0, older));
    run, s := Then(c, epoch, run, s, ReadClock(1, newer));
  }

  /** Both refreshes have found the published epoch old. */
  lemma BothBuild(c: Config, epoch: Epoch, older: Epoch, newer: Epoch) returns (run: seq<Action>, s: State)
    requires older != epoch && newer != epoch
    ensures Runs(c, Init(c, epoch), run, s)
    ensures Flying(s, Building(older), Building(newer)) && s.picker == None
  {
    run, s := BothReadTheClock(c, epoch, older, newer);
    run, s := Then(c, epoch, run, s, Compare(0));
    run, s := Then(c, epoch, run, s, Compare(1));
  }

  /** Both are past their writes, and the older epoch's window was written last. */
  lemma WritesCross(c: Config, epoch: Epoch, older: Epoch, newer: Epoch) returns (run: seq<Action>, s: State)
    requires older != epoch && newer != epoch
    ensures Runs(c, Init(c, epoch), run, s)
    ensures Flying(s, Wrote(older), Wrote(newer)) && s.pool == c.window(older)
  {
    run, s := BothBuild(c, epoch, older, newer);
    run, s := Then(c, epoch, run, s, WritePool(1));
    run, s := Then(c, epoch, run, s, WritePool(0));
  }

  /**
   * So the pool can be left behind the published epoch: two connections arrive around an epoch boundary
   * after a quiet spell, their writes and publications cross, and nothing is in flight any more.
   */
  lemma CrossedRefreshesGoStale(c: Config, epoch: Epoch, older: Epoch, newer: Epoch)
    returns (run: seq<Action>, s: State)
    requires older != epoch && newer != epoch
    ensures Runs(c, Init(c, epoch), run, s)
    ensures s.refreshes == map[] && s.published == newer && s.pool == c.window(older)
    ensures s.pool == c.window(s.published) <==> c.window(older) == c.window(newer)
  {
    run, s := WritesCross(c, epoch, older, newer);
    run, s := Then(c, epoch, run, s, Publish(0));
    run, s := Then(c, epoch, run, s, Publish(1));
    assert s.refreshes.Keys == {};
  }

  /** And it stays behind for the rest of the epoch: a refresh that reads the published epoch writes nothing. */
  lemma CurrentRefreshIsIdle(c: Config, s: State, id: TaskId)
    requires id !in s.refreshes && s.published in s.observed
    ensures Runs(c, s, [ReadClock(id, s.published), Compare(id)], s)
  {
    var a := [ReadClock(id, s.published), Compare(id)];
    var m := Apply(c, s, a[0]);
    assert Apply(c, m, a[1]).refreshes == s.refreshes;
    assert m.observed == s.observed;
    assert a[1..] == [a[1]] && a[1..][1..] == [];
    assert Runs(c, m, a[1..], s);
  }

  // ---- picks, one after another --------------------------------------------

  /** The picks as calls of the selector, with the pools they read. */
  function AsCalls(picks: seq<Picked>): seq<Selector.Op> {
    seq(|picks|, i requires 0 <= i < |picks| =>
      Expiring.Call(Selector.Question(picks[i].seen, picks[i].dest), picks[i].now))
  }

  function Snis(picks: seq<Picked>): seq<Option<bytes>> {
    seq(|picks|, i requires 0 <= i < |picks| => picks[i].sni)
  }

  ghost predicate Sequential(c: Config, s: State) {
    Expiring.Run(Selector.Selecting(c.setup), Expiring.State(map[], 0), AsCalls(s.picks)) == (s.selector, Snis(s.picks))
  }

  lemma ChooseKeepsSequential(c: Config, s: State)
    requires Inv(c, s) && Enabled(s, Choose) && Sequential(c, s)
    ensures Sequential(c, Apply(c, s, Choose))
  {
    var Reading(dest, now, seen) := s.picker.value;
    var t := Apply(c, s, Choose);
    var p := t.picks[|s.picks|];
    Expiring.RunThenCall(Selector.Selecting(c.setup), Expiring.State(map[], 0), AsCalls(s.picks),
                         Selector.Question(seen, dest), now);
    assert t.picks == s.picks + [p];
    assert AsCalls(t.picks) == AsCalls(s.picks) + [Expiring.Call(Selector.Question(seen, dest), now)];
    assert Snis(t.picks) == Snis(s.picks) + [p.sni];
  }

  lemma {:induction false} RunKeepsSequential(c: Config, s: State, actions: seq<Action>, t: State)
    requires Inv(c, s) && Runs(c, s, actions, t) && Sequential(c, s)
    ensures Sequential(c, t)
    decreases |actions|
  {
    if actions != [] {
      StepKeepsInv(c, s, actions[0]);
      if actions[0] == Choose {
        ChooseKeepsSequential(c, s);
      } else {
        assert Apply(c, s, actions[0]).picks == s.picks && Apply(c, s, actions[0]).selector == s.selector;
      }
      RunKeepsSequential(c, Apply(c, s, actions[0]), actions[1..], t);
    }
  }

  /**
   * However connections and refreshes interleave, the picks are those of one selector that is asked one
   * destination after another, from an empty cache: same SNIs, same cache, same draws.
   */
  lemma PicksAreSequential(c: Config, epoch: Epoch, actions: seq<Action>, s: State)
    requires Runs(c, Init(c, epoch), actions, s)
    ensures
      Expiring.Run(Selector.Selecting(c.setup), Expiring.State(map[], 0), AsCalls(s.picks)) ==
      (s.selector, Snis(s.picks))
  {
    assert AsCalls([]) == [] && Snis([]) == [];
    RunKeepsSequential(c, Init(c, epoch), actions, s);
  }

  /** What the connections of a schedule ask for, in the order in which they get the selector. */
  function Asked(actions: seq<Action>): seq<(bytes, uint64)> {
    if actions == [] then []
    else (if actions[0].LockSelector? then [(actions[0].dest, actions[0].now)] else []) + Asked(actions[1..])
  }

  function Answered(picks: seq<Picked>): seq<(bytes, uint64)> {
    seq(|picks|, i requires 0 <= i < |picks| => (picks[i].dest, picks[i].now))
  }

  function Pending(picker: Option<Picking>): seq<(bytes, uint64)> {
    if picker.Some? then [(picker.value.dest, picker.value.now)] else []
  }

  /** What has been answered, and what is being answered. */
  function Requests(s: State): seq<(bytes, uint64)> {
    Answered(s.picks) + Pending(s.picker)
  }

  lemma ChooseAnswersPending(c: Config, s: State)
    requires Enabled(s, Choose)
    ensures Requests(Apply(c, s, Choose)) == Requests(s)
  {
    var t := Apply(c, s, Choose);
    var p := t.picks[|s.picks|];
    assert t.picks == s.picks + [p] && Pending(s.picker) == [(p.dest, p.now)];
    assert Answered(t.picks) == Answered(s.picks) + [(p.dest, p.now)];
  }

  lemma StepRequests(c: Config, s: State, a: Action)
    requires Enabled(s, a)
    ensures Requests(Apply(c, s, a)) == Requests(s) + if a.LockSelector? then [(a.dest, a.now)] else []
  {
    if a == Choose {
      ChooseAnswersPending(c, s);
    } else {
      var t := Apply(c, s, a);
      assert t.picks == s.picks;
      assert a.LockSelector? || Pending(t.picker) == Pending(s.picker);
    }
  }

  lemma {:induction false} RequestsGrow(c: Config, s: State, actions: seq<Action>, t: State)
    requires Runs(c, s, actions, t)
    ensures Requests(t) == Requests(s) + Asked(actions)
    decreases |actions|
  {
    if actions != [] {
      StepRequests(c, s, actions[0]);
      RequestsGrow(c, Apply(c, s, actions[0]), actions[1..], t);
    }
  }

  /** Each pick answers the destination and the time its connection asked with, in order and without omission. */
  lemma PicksAnswerRequests(c: Config, epoch: Epoch, actions: seq<Action>, s: State)
    requires Runs(c, Init(c, epoch), actions, s)
    ensures Requests(s) == Asked(actions)
  {
    RequestsGrow(c, Init(c, epoch), actions, s);
    assert Requests(Init(c, epoch)) == [];
  }

  // ---- stickiness across connections ---------------------------------------

  /** A pick that leaves the choice `sni` for `dest` alone before `deadline`. */
  predicate Harmless(p: Picked, dest: bytes, sni: bytes, deadline: uint64) {
    p.dest == dest ==> p.seen == [] || (p.now < deadline && Contains(p.seen, sni))
  }

  predicate Chose(s: State, dest: bytes, sni: bytes, deadline: uint64) {
    dest in s.selector.cache && s.selector.cache[dest] == Expiring.Timed(sni, deadline)
  }

  lemma {:induction false} PicksGrow(c: Config, s: State, actions: seq<Action>, t: State)
    requires Runs(c, s, actions, t)
    ensures s.picks <= t.picks
    decreases |actions|
  {
    if actions != [] {
      PicksGrow(c, Apply(c, s, actions[0]), actions[1..], t);
    }
  }

  lemma ChooseSticks(c: Config, s: State, dest: bytes, sni: bytes, deadline: uint64)
    requires Inv(c, s) && Enabled(s, Choose) && Chose(s, dest, sni, deadline)
    requires Harmless(Apply(c, s, Choose).picks[|s.picks|], dest, sni, deadline)
    ensures
      var p := Apply(c, s, Choose).picks[|s.picks|];
      && Chose(Apply(c, s, Choose), dest, sni, deadline)
      && (p.dest == dest && p.seen != [] ==> p.sni == Some(sni))
  {
  }

  lemma {:induction false} ChoiceSurvives(c: Config, s: State, actions: seq<Action>, t: State,
                                          dest: bytes, sni: bytes, deadline: uint64)
    requires Inv(c, s) && Runs(c, s, actions, t) && Chose(s, dest, sni, deadline)
    requires forall i :: |s.picks| <= i < |t.picks| ==> Harmless(t.picks[i], dest, sni, deadline)
    ensures forall i :: |s.picks| <= i < |t.picks| && t.picks[i].dest == dest && t.picks[i].seen != [] ==>
      t.picks[i].sni == Some(sni)
    decreases |actions|
  {
    if actions != [] {
      var m := Apply(c, s, actions[0]);
      StepKeepsInv(c, s, actions[0]);
      PicksGrow(c, m, actions[1..], t);
      if actions[0] == Choose {
        assert t.picks[|s.picks|] == m.picks[|s.picks|];
        ChooseSticks(c, s, dest, sni, deadline);
      }
      ChoiceSurvives(c, m, actions[1..], t, dest, sni, deadline);
    }
  }

  /**
   * Stickiness of the whole pipeline: when a connection's pick for `dest` at time `now` was a miss, every later
   * pick for `dest` by any connection presents the same SNI, whatever refreshes and other picks come between,
   * as long as such picks are made before min(now + ttl, u64::MAX) and the pools they read hold the SNI.
   */
  lemma PicksAreSticky(c: Config, epoch: Epoch, earlier: seq<Action>, s: State, later: seq<Action>, t: State)
    requires Runs(c, Init(c, epoch), earlier, s) && Enabled(s, Choose)
    requires
      var Reading(dest, now, seen) := s.picker.value;
      seen != [] && Selector.Hit(s.selector.cache, seen, dest, now).None?
    requires Runs(c, Apply(c, s, Choose), later, t)
    ensures
      var (n, Reading(dest, now, _)) := (|s.picks|, s.picker.value);
      && n < |t.picks| && t.picks[n].dest == dest && t.picks[n].sni.Some?
      && ((forall i :: n < i < |t.picks| ==>
             Harmless(t.picks[i], dest, t.picks[n].sni.value, SaturatingAdd(now, c.setup.ttl))) ==>
          forall i :: n < i < |t.picks| && t.picks[i].dest == dest && t.picks[i].seen != [] ==>
            t.picks[i].sni == t.picks[n].sni)
  {
    var m, n := Apply(c, s, Choose), |s.picks|;
    var Reading(dest, now, seen) := s.picker.value;
    RunKeepsInv(c, Init(c, epoch), earlier, s);
    StepKeepsInv(c, s, Choose);
    PicksGrow(c, m, later, t);
    assert t.picks[n] == m.picks[n];
    var sni, deadline := m.picks[n].sni.value, SaturatingAdd(now, c.setup.ttl);
    assert Chose(m, dest, sni, deadline);
    if forall i :: n < i < |t.picks| ==> Harmless(t.picks[i], dest, sni, deadline) {
      ChoiceSurvives(c, m, later, t, dest, sni, deadline);
    }
  }

  // ---- one connection at a time --------------------------------------------

  const FALLBACK_SNI: bytes :=
    [119, 119, 119, 46, 109, 105, 99, 114, 111, 115, 111, 102, 116, 46, 99, 111, 109]   // "www.microsoft.com"

  /** The shared state as a single task drives it. */
  class Pipeline {
    const d: Deployment
    const selector: Selector.Selector
    var pool: Selector.ActivePool
    var published: Epoch

    ghost predicate Valid()
      reads this
    {
      pool == WindowPool(d, published)
    }

    constructor (d: Deployment, selector: Selector.Selector, epoch: Epoch)
      ensures Valid() && this.d == d && this.selector == selector && published == epoch
    {
      this.d, this.selector, this.published := d, selector, epoch;
      var window := AcceptedPoolWindow(d, epoch);
      this.pool := window;
    }

    /** `maybe_refresh_epoch`, the clock showing `epoch`. */
    method MaybeRefreshEpoch(epoch: Epoch)
      requires Valid()
      modifies this
      ensures Valid() && published == epoch
      ensures old(published) == epoch ==> pool == old(pool)
    {
      if published != epoch {
        var window := AcceptedPoolWindow(d, epoch);
        pool := window;
        published := epoch;
      }
    }

    /** The SNI a connection to `dest` presents: refresh, then pick, falling back only on an empty pool. */
    method SniFor(dest: bytes, epoch: Epoch, now: uint64, rng: Selector.Rng) returns (sni: bytes)
      requires Valid()
      modifies this, selector, rng
      ensures Valid() && published == epoch
      ensures
        var before := Expiring.State(old(selector.cache), old(rng.drawn));
        var setup := Selector.Setup(selector.stickyTtl, rng.draws);
        var (after, picked) := Selector.SelectStep(setup, before, pool, dest, now);
        && Expiring.State(selector.cache, rng.drawn) == after
        && sni == (if picked.Some? then picked.value else FALLBACK_SNI)
        && (d.k == 0 ==> sni == [119, 119, 119, 46, 109, 105, 99, 114, 111, 115, 111, 102, 116, 46, 99, 111, 109])
      ensures d.k >= 1 ==> Contains(WindowPool(d, epoch), sni)
    {
      MaybeRefreshEpoch(epoch);
      var picked := selector.Select(pool, dest, now, rng);
      sni := if picked.Some? then picked.value else FALLBACK_SNI;
      WindowIsUnion(d, epoch);
    }
  }
}
