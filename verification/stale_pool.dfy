/** A deployment, and a run of its pipeline, that end with a pool the published epoch does not have. */
module StalePool {
  import opened Words
  import opened Ordering
  import opened Pool
  import opened Sampler
  import opened Epochs
  import opened Pipeline
  import Selector
  import TunnelProto

  const USUAL: PoolEntry := PoolEntry([97], 1.0)
  const OTHER: PoolEntry := PoolEntry([98], 1.0)

  /** Two entries of which one is active: the other one in the epoch `rare`, the usual one in all other epochs. */
  ghost predicate OneRareEpoch(d: Deployment, rare: Epoch) {
    && d.master == [USUAL, OTHER] && d.k == 1
    && (forall e: Epoch :: e != rare ==> d.ln(DeriveSeed(d, e), 0) > d.ln(DeriveSeed(d, e), 1))
    && d.ln(DeriveSeed(d, rare), 1) > d.ln(DeriveSeed(d, rare), 0)
  }

  /** There is such a deployment: the MAC singles out one message, the seed decides the draws. */
  lemma Deploy(rare: Epoch) returns (d: Deployment)
    ensures OneRareEpoch(d, rare)
  {
    var salt: Salt := seq(16, _ => 0);
    var usual: TunnelProto.Tag, other: TunnelProto.Tag := seq(32, _ => 0), seq(32, _ => 1);
    var message := SeedMessage(salt, rare);
    var hmac: TunnelProto.Hmac := (_, m) => if m == message then other else usual;
    var ln: LogDraws := (seed, i) => if (seed == other) == (i == 1) then 0.0 else -1.0;
    var master: MasterList := [USUAL, OTHER];
    d := Deployment(hmac, ln, [], salt, master, 1);
    assert other[0] != usual[0];
    forall e: Epoch
      ensures DeriveSeed(d, e) == if e == rare then other else usual
    {
      SeedMessageIsUnambiguous(salt, e, salt, rare);
    }
  }

  lemma LiveEntry(d: Deployment, rare: Epoch, e: Epoch)
    requires OneRareEpoch(d, rare)
    ensures Elements(EpochSubset(d, e)) == {if e == rare then OTHER else USUAL}
  {
    var seed, pool := DeriveSeed(d, e), EpochSubset(d, e);
    SubsetIsTop(d.master, d.ln, seed, 1);
    assert pool[0] in Elements(pool) && pool == [pool[0]];
    var wins: nat := if e == rare then 1 else 0;
    if pool[0] != d.master[wins] {
      assert d.master[1 - wins] in pool && d.master[wins] !in pool;
      MembersOutrankOthers(d.master, d.ln, seed, 1, 1 - wins, wins);
    }
  }

  /** The other entry is accepted exactly around the rare epoch. */
  lemma OtherIsAcceptedIff(d: Deployment, rare: Epoch, epoch: Epoch)
    requires OneRareEpoch(d, rare)
    ensures OTHER in Elements(WindowPool(d, epoch)) <==> rare in EpochWindow(epoch)
  {
    var w := EpochWindow(epoch);
    LiveEntry(d, rare, w[0]);
    LiveEntry(d, rare, w[1]);
    LiveEntry(d, rare, w[2]);
    EntriesOfWindow(d, epoch);
    assert rare in w <==> rare == w[0] || rare == w[1] || rare == w[2];
  }

  lemma WindowsDiffer(d: Deployment, older: Epoch, newer: Epoch)
    requires older < newer < U64_MAX && OneRareEpoch(d, newer + 1)
    ensures WindowPool(d, older) != WindowPool(d, newer)
  {
    OtherIsAcceptedIff(d, newer + 1, older);
    OtherIsAcceptedIff(d, newer + 1, newer);
    InWindowIff(newer + 1, older);
    InWindowIff(newer + 1, newer);
  }

  /**
   * The pool does not always match the published epoch when nothing is in flight: for any start and any two
   * later readings there is a deployment and a run that leaves it behind.
   */
  lemma PoolCanStayBehind(setup: Selector.Setup, epoch: Epoch, older: Epoch, newer: Epoch)
    returns (d: Deployment, run: seq<Action>, s: State)
    requires older != epoch && newer != epoch && older < newer < U64_MAX
    ensures Runs(Deployed(d, setup), Init(Deployed(d, setup), epoch), run, s)
    ensures s.refreshes == map[] && s.published == newer && s.pool != WindowPool(d, s.published)
  {
    d := Deploy(newer + 1);
    WindowsDiffer(d, older, newer);
    run, s := CrossedRefreshesGoStale(Deployed(d, setup), epoch, older, newer);
  }
}
