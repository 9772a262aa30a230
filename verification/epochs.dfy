/** Epoch arithmetic and the +-1 epoch acceptance window. */
module Epochs {
  import opened Words
  import opened Ordering
  import opened Pool
  import opened Sampler
  import TunnelProto

  type Epoch = uint64

  /** A zero-length epoch counts as one second. */
  function EpochSeconds(epochLen: uint64): uint64 {
    if epochLen < 1 then 1 else epochLen
  }

  function EpochAt(unixSecs: uint64, epochLen: uint64): Epoch {
    unixSecs / EpochSeconds(epochLen)
  }

  function EpochWindow(epoch: Epoch): seq<Epoch> {
    [SaturatingSub(epoch, 1), epoch, SaturatingAdd(epoch, 1)]
  }

  /** The window is exactly the epochs at distance at most one, at both ends of the range as well. */
  lemma InWindowIff(e: Epoch, epoch: Epoch)
    ensures e in EpochWindow(epoch) <==> e <= epoch + 1 && epoch <= e + 1
  {
    var w := EpochWindow(epoch);
    assert w[0] in w && w[1] in w && w[2] in w;
  }

  lemma QuotientStep(x: nat, y: nat, len: nat)
    requires len > 0 && x <= y <= x + len
    ensures x / len <= y / len <= x / len + 1
  {
    var p := x / len;
    assert len * p <= x < len * p + len;
    Quotient(y, len, if y < len * p + len then p else p + 1);
  }

  /** Epoch `e` is the interval of one epoch length that starts at `e` epoch lengths; of length 0 it is second `e`. */
  lemma EpochIff(t: uint64, epochLen: uint64, e: Epoch)
    ensures epochLen >= 1 ==> (EpochAt(t, epochLen) == e <==> epochLen * e <= t < epochLen * e + epochLen)
    ensures epochLen == 0 ==> (EpochAt(t, epochLen) == e <==> t == e)
  {
    var len: nat := if epochLen >= 1 then epochLen else 1;
    if len * e <= t < len * e + len {
      Quotient(t, len, e);
    }
  }

  /** Clocks at most one epoch length apart (one second for a length of 0) are in epochs at most one apart. */
  lemma SkewCostsOneEpoch(a: uint64, b: uint64, epochLen: uint64)
    requires
      var len: int := if epochLen >= 1 then epochLen else 1;
      a <= b + len && b <= a + len
    ensures EpochAt(a, epochLen) <= EpochAt(b, epochLen) + 1 && EpochAt(b, epochLen) <= EpochAt(a, epochLen) + 1
    ensures EpochAt(a, epochLen) in EpochWindow(EpochAt(b, epochLen))
  {
    var len := EpochSeconds(epochLen);
    if a <= b { QuotientStep(a, b, len); } else { QuotientStep(b, a, len); }
    InWindowIff(EpochAt(a, epochLen), EpochAt(b, epochLen));
  }

  /** One second more is too much for some pair of clocks, for every epoch length up to half the clock's range. */
  lemma SkewBoundIsTight(epochLen: uint64) returns (a: uint64, b: uint64)
    requires epochLen <= 0x7FFF_FFFF_FFFF_FFFF
    ensures b - a == if epochLen >= 1 then epochLen + 1 else 2
    ensures EpochAt(a, epochLen) !in EpochWindow(EpochAt(b, epochLen))
  {
    var len: nat := EpochSeconds(epochLen);
    a, b := len - 1, 2 * len;
    Quotient(a, len, 0);
    Quotient(b, len, 2);
    InWindowIff(EpochAt(a, epochLen), EpochAt(b, epochLen));
  }

  // ---- the pools of a deployment -------------------------------------------

  const SALT_LEN: nat := 16
  const DOMAIN_TAG: bytes := [104, 121, 100, 114, 97, 45, 112, 111, 111, 108, 45, 118, 49]   // "hydra-pool-v1"

  type Salt = s: bytes | |s| == 16 witness seq(16, _ => 0)

  /** What client and server share. */
  datatype Deployment = Deployment(
    hmac: TunnelProto.Hmac, ln: LogDraws, secret: bytes, salt: Salt, master: MasterList, k: nat)

  /** What `derive_seed` authenticates. */
  function SeedMessage(salt: Salt, epoch: Epoch): bytes {
    DOMAIN_TAG + salt + Le64(epoch)
  }

  /** `derive_seed`. */
  function DeriveSeed(d: Deployment, epoch: Epoch): Seed {
    d.hmac(d.secret, SeedMessage(d.salt, epoch))
  }

  /** The fixed-width fields make the message unambiguous: it determines salt and epoch. */
  lemma SeedMessageIsUnambiguous(salt: Salt, epoch: Epoch, salt': Salt, epoch': Epoch)
    ensures SeedMessage(salt, epoch) == SeedMessage(salt', epoch') <==> salt == salt' && epoch == epoch'
  {
    var m, m' := SeedMessage(salt, epoch), SeedMessage(salt', epoch');
    assert m[13..29] == salt && m'[13..29] == salt';
    assert m[29..] == Le64(epoch) && m'[29..] == Le64(epoch');
    Le64Bijective(epoch, Le64(epoch));
    Le64Bijective(epoch', Le64(epoch'));
  }

  /**
   * The seed of an epoch: the MAC, under the shared secret, of the 13 bytes "hydra-pool-v1", the 16 of the salt
   * and the epoch's 8, little-endian.  No other message has that layout.
   */
  lemma SeedIsMacOf(d: Deployment, epoch: Epoch, message: bytes)
    requires |message| == 37
    requires message[..13] == [104, 121, 100, 114, 97, 45, 112, 111, 111, 108, 45, 118, 49]
    requires message[13..29] == d.salt
    requires
      var m := message;
      epoch == (m[29] as int) + 0x100 * (m[30] as int) + 0x1_0000 * (m[31] as int) + 0x100_0000 * (m[32] as int)
               + 0x1_0000_0000 * (m[33] as int) + 0x100_0000_0000 * (m[34] as int) + 0x1_0000_0000_0000 * (m[35] as int)
               + 0x100_0000_0000_0000 * (m[36] as int)
    ensures DeriveSeed(d, epoch) == d.hmac(d.secret, message)
  {
    Le64Value(message[29..]);
    Le64Bijective(epoch, message[29..]);
    assert message == message[..13] + message[13..29] + message[29..];
    assert message == SeedMessage(d.salt, epoch);
  }

  /** `keyed_epoch_subset`. */
  function EpochSubset(d: Deployment, epoch: Epoch): seq<PoolEntry> {
    Subset(d.master, d.ln, DeriveSeed(d, epoch), d.k)
  }

  method KeyedEpochSubset(d: Deployment, epoch: Epoch) returns (pool: seq<PoolEntry>)
    ensures pool == EpochSubset(d, epoch)
  {
    pool := SubsetFromSeed(d.master, d.ln, DeriveSeed(d, epoch), d.k);
  }

  /** An epoch's subset has min(k, n) of the master list's entries, those with the largest keys under its seed. */
  lemma EpochSubsetIsTop(d: Deployment, epoch: Epoch, i: nat, j: nat)
    requires i < |d.master| && j < |d.master|
    requires d.master[i] in EpochSubset(d, epoch) && d.master[j] !in EpochSubset(d, epoch)
    ensures
      var seed := DeriveSeed(d, epoch);
      var (x, y) := (d.ln(seed, i) / d.master[i].weight, d.ln(seed, j) / d.master[j].weight);
      x > y || (x == y && i < j)
    ensures |EpochSubset(d, epoch)| == if d.k <= |d.master| then d.k else |d.master|
  {
    MembersOutrankOthers(d.master, d.ln, DeriveSeed(d, epoch), d.k, i, j);
    SubsetIsTop(d.master, d.ln, DeriveSeed(d, epoch), d.k);
  }

  function AnyOf(d: Deployment, epochs: seq<Epoch>): set<PoolEntry> {
    if epochs == [] then {} else AnyOf(d, epochs[..|epochs| - 1]) + Elements(EpochSubset(d, epochs[|epochs| - 1]))
  }

  /** The accepted pool: the entries of the master list that are live in some epoch of the window. */
  function WindowPool(d: Deployment, epoch: Epoch): seq<PoolEntry> {
    Filter(d.master, AnyOf(d, EpochWindow(epoch)))
  }

  /** Every key of the map is the SNI of its value, a master-list entry. */
  ghost predicate Keyed(master: MasterList, union: map<bytes, PoolEntry>) {
    forall sni :: sni in union ==> union[sni] in master && union[sni].sni == sni
  }

  ghost function Values(union: map<bytes, PoolEntry>): set<PoolEntry> {
    set sni | sni in union :: union[sni]
  }

  lemma OrInsert(master: MasterList, union: map<bytes, PoolEntry>, e: PoolEntry)
    requires Keyed(master, union) && e in master
    ensures
      var after := if e.sni in union then union else union[e.sni := e];
      Keyed(master, after) && Values(after) == Values(union) + {e}
  {
    CanonicalIsDistinct(master);
    var after := if e.sni in union then union else union[e.sni := e];
    if e.sni in union {
      var i, j :| 0 <= i < |master| && 0 <= j < |master| && master[i] == union[e.sni] && master[j] == e;
      assert union[e.sni] == e;
    } else {
      assert forall sni :: sni in union ==> after[sni] == union[sni];
      assert after[e.sni] == e;
    }
  }

  /** `into_values().collect()`, in whatever order the map yields them. */
  method IntoValues(master: MasterList, union: map<bytes, PoolEntry>) returns (values: seq<PoolEntry>)
    requires Keyed(master, union)
    ensures Distinct(values) && Elements(values) == Values(union)
  {
    values := [];
    var todo := union.Keys;
    while todo != {}
      invariant todo <= union.Keys
      invariant Distinct(values)
      invariant Elements(values) == set sni | sni in union && sni !in todo :: union[sni]
      decreases |todo|
    {
      var sni :| sni in todo;
      assert union[sni] !in Elements(values);
      ghost var before := values;
      values := values + [union[sni]];
      todo := todo - {sni};
      assert Elements(values) == Elements(before) + {union[sni]};
    }
    assert Elements(values) == Values(union);
  }

  /** The inner loop: one epoch's entries, each inserted unless its SNI is already there. */
  method InsertAll(master: MasterList, before: map<bytes, PoolEntry>, subset: seq<PoolEntry>)
    returns (union: map<bytes, PoolEntry>)
    requires Keyed(master, before) && Elements(subset) <= Elements(master)
    ensures Keyed(master, union) && Values(union) == Values(before) + Elements(subset)
  {
    union := before;
    for j := 0 to |subset|
      invariant Keyed(master, union)
      invariant Values(union) == Values(before) + Elements(subset[..j])
    {
      var entry := subset[j];
      assert entry in Elements(subset);
      assert entry in Elements(master);
      OrInsert(master, union, entry);
      assert Elements(subset[..j + 1]) == Elements(subset[..j]) + {entry};
      if entry.sni !in union {
        union := union[entry.sni := entry];
      }
    }
    assert subset[..|subset|] == subset;
  }

  /** `accepted_pool_window`. */
  method AcceptedPoolWindow(d: Deployment, epoch: Epoch) returns (pool: seq<PoolEntry>)
    ensures pool == WindowPool(d, epoch)
  {
    var union: map<bytes, PoolEntry> := map[];
    var window := EpochWindow(epoch);
    for i := 0 to |window|
      invariant Keyed(d.master, union)
      invariant Values(union) == AnyOf(d, window[..i])
    {
      var subset := KeyedEpochSubset(d, window[i]);
      SubsetIsTop(d.master, d.ln, DeriveSeed(d, window[i]), d.k);
      union := InsertAll(d.master, union, subset);
      assert window[..i + 1][..i] == window[..i];
    }
    assert window[..|window|] == window;
    var values := IntoValues(d.master, union);
    assert Elements(values) <= Elements(d.master);
    FromUnsortedIsFilter(d.master, values);
    pool := FromUnsorted(values);
  }

  lemma WindowEntries(d: Deployment, epoch: Epoch)
    ensures
      AnyOf(d, EpochWindow(epoch)) ==
      Elements(EpochSubset(d, SaturatingSub(epoch, 1))) + Elements(EpochSubset(d, epoch))
      + Elements(EpochSubset(d, SaturatingAdd(epoch, 1)))
  {
    var w := EpochWindow(epoch);
    assert w[..2][..1] == w[..1] && w[..1][..0] == [];
    assert AnyOf(d, w[..1]) == AnyOf(d, []) + Elements(EpochSubset(d, w[0]));
    assert AnyOf(d, w[..2]) == AnyOf(d, w[..1]) + Elements(EpochSubset(d, w[1]));
  }

  /**
   * The window pool is the union of three epochs' subsets, strictly sorted, with the master list's own
   * entries and so its weights; it has between min(k, n) and min(3k, n) of them.
   */
  lemma WindowIsUnion(d: Deployment, epoch: Epoch)
    ensures
      var pool := WindowPool(d, epoch);
      && Canonical(pool)
      && Elements(pool) ==
           Elements(EpochSubset(d, SaturatingSub(epoch, 1))) + Elements(EpochSubset(d, epoch))
           + Elements(EpochSubset(d, SaturatingAdd(epoch, 1)))
      && Elements(pool) <= Elements(d.master)
      && Min(d.k, |d.master|) <= |pool| <= Min(3 * d.k, |d.master|)
  {
    var pool := WindowPool(d, epoch);
    var a, b := EpochSubset(d, SaturatingSub(epoch, 1)), EpochSubset(d, epoch);
    var c := EpochSubset(d, SaturatingAdd(epoch, 1));
    WindowEntries(d, epoch);
    SubsetIsTop(d.master, d.ln, DeriveSeed(d, SaturatingSub(epoch, 1)), d.k);
    SubsetIsTop(d.master, d.ln, DeriveSeed(d, epoch), d.k);
    SubsetIsTop(d.master, d.ln, DeriveSeed(d, SaturatingAdd(epoch, 1)), d.k);
    FilterKeepsCanonical(d.master, AnyOf(d, EpochWindow(epoch)));
    assert Elements(pool) == Elements(a) + Elements(b) + Elements(c);
    CanonicalCount(a);
    CanonicalCount(b);
    CanonicalCount(c);
    CanonicalCount(pool);
    CanonicalCount(d.master);
    SubsetCount(Elements(b), Elements(pool));
    SubsetCount(Elements(pool), Elements(d.master));
  }

  /** An entry is accepted exactly when it is live in an epoch at distance at most one. */
  lemma AcceptedIffLive(d: Deployment, epoch: Epoch, entry: PoolEntry)
    ensures
      entry in WindowPool(d, epoch) <==>
      exists e: Epoch :: e <= epoch + 1 && epoch <= e + 1 && entry in EpochSubset(d, e)
  {
    ElementIff(WindowPool(d, epoch), entry);
    if entry in WindowPool(d, epoch) {
      var e := LiveEpoch(d, epoch, entry);
      InWindowIff(e, epoch);
      ElementIff(EpochSubset(d, e), entry);
    }
    forall e: Epoch | e <= epoch + 1 && epoch <= e + 1 && entry in EpochSubset(d, e)
      ensures entry in Elements(WindowPool(d, epoch))
    {
      InWindowIff(e, epoch);
      NeighbourIsCovered(d, e, epoch);
      ElementIff(EpochSubset(d, e), entry);
    }
  }

  lemma ElementIff(pool: seq<PoolEntry>, entry: PoolEntry)
    ensures entry in pool <==> entry in Elements(pool)
  {
  }

  /** An epoch of the window in which an accepted entry is live. */
  lemma LiveEpoch(d: Deployment, epoch: Epoch, entry: PoolEntry) returns (e: Epoch)
    requires entry in Elements(WindowPool(d, epoch))
    ensures e in EpochWindow(epoch) && entry in Elements(EpochSubset(d, e))
  {
    var w := EpochWindow(epoch);
    EntriesOfWindow(d, epoch);
    e := if entry in Elements(EpochSubset(d, w[0])) then w[0]
         else if entry in Elements(EpochSubset(d, w[1])) then w[1] else w[2];
    assert w[0] in w && w[1] in w && w[2] in w;
  }

  lemma EntriesOfWindow(d: Deployment, epoch: Epoch)
    ensures
      var w := EpochWindow(epoch);
      Elements(WindowPool(d, epoch)) ==
      Elements(EpochSubset(d, w[0])) + Elements(EpochSubset(d, w[1])) + Elements(EpochSubset(d, w[2]))
  {
    WindowIsUnion(d, epoch);
  }

  lemma CanonicalCount(s: seq<PoolEntry>)
    requires Canonical(s)
    ensures |Elements(s)| == |s|
  {
    CanonicalIsDistinct(s);
    DistinctIffCount(s);
  }

  /** At either end of the range the repeated epoch adds nothing: the window is two epochs wide. */
  lemma WindowAtTheEnds(d: Deployment)
    ensures Elements(WindowPool(d, 0)) == Elements(EpochSubset(d, 0)) + Elements(EpochSubset(d, 1))
    ensures Elements(WindowPool(d, U64_MAX)) ==
              Elements(EpochSubset(d, U64_MAX - 1)) + Elements(EpochSubset(d, U64_MAX))
    ensures |WindowPool(d, 0)| <= 2 * d.k && |WindowPool(d, U64_MAX)| <= 2 * d.k
  {
    WindowIsUnion(d, 0);
    WindowIsUnion(d, U64_MAX);
    TwoSubsetCount(d, 0, 0, 1);
    TwoSubsetCount(d, U64_MAX, U64_MAX - 1, U64_MAX);
  }

  lemma TwoSubsetCount(d: Deployment, epoch: Epoch, first: Epoch, second: Epoch)
    requires Elements(WindowPool(d, epoch)) == Elements(EpochSubset(d, first)) + Elements(EpochSubset(d, second))
    ensures |WindowPool(d, epoch)| <= 2 * d.k
  {
    WindowIsUnion(d, epoch);
    SubsetIsTop(d.master, d.ln, DeriveSeed(d, first), d.k);
    SubsetIsTop(d.master, d.ln, DeriveSeed(d, second), d.k);
    CanonicalCount(EpochSubset(d, first));
    CanonicalCount(EpochSubset(d, second));
    CanonicalCount(WindowPool(d, epoch));
  }

  /**
   * Clock skew: if the two clocks differ by at most one epoch length, every SNI of the client's epoch subset
   * is accepted by the server, up to and including both ends of the 64-bit range.
   */
  lemma SkewedClientIsAccepted(d: Deployment, clientClock: uint64, serverClock: uint64, epochLen: uint64, sni: bytes)
    requires
      var len: int := if epochLen >= 1 then epochLen else 1;
      clientClock <= serverClock + len && serverClock <= clientClock + len
    requires exists e :: e in EpochSubset(d, EpochAt(clientClock, epochLen)) && e.sni == sni
    ensures exists e :: e in WindowPool(d, EpochAt(serverClock, epochLen)) && e.sni == sni
  {
    var mine, theirs := EpochAt(clientClock, epochLen), EpochAt(serverClock, epochLen);
    SkewCostsOneEpoch(clientClock, serverClock, epochLen);
    NeighbourIsCovered(d, mine, theirs);
    var e :| e in EpochSubset(d, mine) && e.sni == sni;
    assert e in Elements(WindowPool(d, theirs));
    assert e in WindowPool(d, theirs);
  }

  lemma NeighbourIsCovered(d: Deployment, e: Epoch, epoch: Epoch)
    requires e in EpochWindow(epoch)
    ensures Elements(EpochSubset(d, e)) <= Elements(WindowPool(d, epoch))
  {
    WindowIsUnion(d, epoch);
  }

  /** Two parties that both use windows one epoch apart share at least both single-epoch subsets. */
  lemma NeighbouringWindowsOverlap(d: Deployment, a: Epoch, b: Epoch)
    requires a <= b + 1 && b <= a + 1
    ensures Elements(EpochSubset(d, a)) + Elements(EpochSubset(d, b))
              <= Elements(WindowPool(d, a)) * Elements(WindowPool(d, b))
  {
    InWindowIff(a, a);
    InWindowIff(b, b);
    InWindowIff(a, b);
    InWindowIff(b, a);
    NeighbourIsCovered(d, a, a);
    NeighbourIsCovered(d, b, b);
    NeighbourIsCovered(d, a, b);
    NeighbourIsCovered(d, b, a);
  }
}
