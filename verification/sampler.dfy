/** A-Res: one key per entry in list order, the `k` largest keys win. */
module Sampler {
  import opened Words
  import opened Ordering
  import opened Pool

  type Seed = bytes

  type NonPositive = x: real | x <= 0.0

  /** `ln(u)` of the i-th draw of the generator seeded with `seed`; only its sign is known. */
  type LogDraws = (Seed, nat) -> NonPositive

  datatype Keyed = Keyed(key: real, entry: PoolEntry)

  /** The comparator: larger key first, ties by SNI. */
  predicate RankLeq(a: Keyed, b: Keyed) {
    a.key > b.key || (a.key == b.key && !Less(b.entry.sni, a.entry.sni))
  }

  /** `a` outranks `b`. */
  predicate Beats(a: Keyed, b: Keyed) {
    !RankLeq(b, a)
  }

  lemma RankLeqIsPreorder()
    ensures TotalPreorder(RankLeq)
  {
    SniLeqIsPreorder();
    forall x: Keyed, y: Keyed
      ensures RankLeq(x, y) || RankLeq(y, x)
    {
      assert SniLeq(x.entry, y.entry) || SniLeq(y.entry, x.entry);
    }
    forall x: Keyed, y: Keyed, z: Keyed | RankLeq(x, y) && RankLeq(y, z)
      ensures RankLeq(x, z)
    {
      if x.key == y.key == z.key {
        assert SniLeq(x.entry, y.entry) && SniLeq(y.entry, z.entry);
        assert SniLeq(x.entry, z.entry);
      }
    }
  }

  lemma BeatsIsTransitive(a: Keyed, b: Keyed, c: Keyed)
    requires Beats(a, b) && Beats(b, c)
    ensures Beats(a, c)
  {
    RankLeqIsPreorder();
    assert RankLeq(a, b) && RankLeq(b, c);
  }

  lemma BeatsIsAsymmetric(a: Keyed, b: Keyed)
    ensures !(Beats(a, b) && Beats(b, a))
  {
    RankLeqIsPreorder();
  }

  lemma OneBeatsTheOther(a: Keyed, b: Keyed)
    requires a.entry.sni != b.entry.sni
    ensures Beats(a, b) || Beats(b, a)
  {
    LessIsTotal(a.entry.sni, b.entry.sni);
  }

  // ---- rank and choice -----------------------------------------------------

  function Beaters(ks: seq<Keyed>, x: Keyed): set<Keyed> {
    set y | y in ks && Beats(y, x)
  }

  function Rank(ks: seq<Keyed>, x: Keyed): nat {
    |Beaters(ks, x)|
  }

  /** The members: fewer than `k` entries outrank them. */
  function Chosen(ks: seq<Keyed>, k: nat): set<Keyed> {
    set x | x in ks && Rank(ks, x) < k
  }

  function Entries(xs: set<Keyed>): set<PoolEntry> {
    set x | x in xs :: x.entry
  }

  ghost predicate DistinctKeyed(ks: seq<Keyed>) {
    forall i, j :: 0 <= i < j < |ks| ==> ks[i].entry.sni != ks[j].entry.sni
  }

  lemma SubsetCount<T>(a: set<T>, b: set<T>)
    requires a <= b
    ensures |a| <= |b|
    ensures |a| == |b| ==> a == b
  {
    assert b == a + (b - a);
  }

  lemma BeatenRanksLower(ks: seq<Keyed>, x: Keyed, y: Keyed)
    requires x in ks && Beats(x, y)
    ensures Rank(ks, x) < Rank(ks, y)
  {
    forall z | z in Beaters(ks, x)
      ensures z in Beaters(ks, y)
    {
      BeatsIsTransitive(z, x, y);
    }
    BeatsIsAsymmetric(x, x);
    assert x in Beaters(ks, y) && x !in Beaters(ks, x);
    SubsetCount(Beaters(ks, x) + {x}, Beaters(ks, y));
  }

  lemma RankBelowCount(ks: seq<Keyed>, x: Keyed)
    requires x in ks
    ensures Rank(ks, x) < |ks|
  {
    BeatsIsAsymmetric(x, x);
    DistinctIffCount(ks);
    SubsetCount(Beaters(ks, x) + {x}, Elements(ks));
  }

  /** A set of min(k, n) entries whose members outrank all non-members. */
  ghost predicate IsTop(ks: seq<Keyed>, k: nat, top: set<Keyed>) {
    && top <= Elements(ks)
    && |top| == Min(k, |ks|)
    && forall x, y :: x in top && y in ks && y !in top ==> Beats(x, y)
  }

  /** There is only one such set. */
  lemma TopIsUnique(ks: seq<Keyed>, k: nat, top: set<Keyed>)
    requires Distinct(ks) && IsTop(ks, k, top)
    ensures top == Chosen(ks, k)
  {
    DistinctIffCount(ks);
    forall x | x in ks
      ensures x in top <==> Rank(ks, x) < k
    {
      BeatsIsAsymmetric(x, x);
      if x in top {
        forall z | z in Beaters(ks, x)
          ensures z in top - {x}
        {
          BeatsIsAsymmetric(x, z);
        }
        SubsetCount(Beaters(ks, x), top - {x});
      } else {
        SubsetCount(top, Beaters(ks, x));
        if top == Elements(ks) { assert x in Elements(ks); }
        SubsetCount(top, Elements(ks));
      }
    }
  }

  lemma RankOrder(ks: seq<Keyed>)
    requires DistinctKeyed(ks)
    ensures
      var sorted := Sort(RankLeq, ks);
      && |sorted| == |ks| && Elements(sorted) == Elements(ks) && Distinct(sorted)
      && forall p, q :: 0 <= p < q < |sorted| ==> Beats(sorted[p], sorted[q])
  {
    var sorted := Sort(RankLeq, ks);
    RankLeqIsPreorder();
    SortSorts(RankLeq, ks);
    SameMultisetSameElements(sorted, ks);
    PermutationKeepsDistinct(ks, sorted);
    forall p, q | 0 <= p < q < |sorted|
      ensures Beats(sorted[p], sorted[q])
    {
      var x, y := sorted[p], sorted[q];
      assert x in Elements(sorted) && y in Elements(sorted);
      assert RankLeq(x, y) && x != y;
      var i, j :| 0 <= i < |ks| && 0 <= j < |ks| && ks[i] == x && ks[j] == y;
      assert x.entry.sni != y.entry.sni;
      OneBeatsTheOther(x, y);
    }
  }

  /** The best-ranked prefix of the sorted keys is that set. */
  lemma SortedPrefixIsTop(ks: seq<Keyed>, k: nat)
    requires DistinctKeyed(ks)
    ensures
      var sorted := Sort(RankLeq, ks);
      && |sorted| == |ks| && Distinct(sorted)
      && IsTop(ks, k, Elements(sorted[..Min(k, |ks|)]))
  {
    var sorted := Sort(RankLeq, ks);
    RankOrder(ks);
    var n := Min(k, |ks|);
    var top := Elements(sorted[..n]);
    DistinctIffCount(sorted[..n]);
    assert top <= Elements(sorted);
    forall x, y | x in top && y in ks && y !in top
      ensures Beats(x, y)
    {
      assert y in Elements(ks);
      var p :| 0 <= p < n && sorted[p] == x;
      var q :| 0 <= q < |sorted| && sorted[q] == y;
      assert n <= q;
    }
  }

  lemma ChosenIsTop(ks: seq<Keyed>, k: nat)
    requires DistinctKeyed(ks)
    ensures IsTop(ks, k, Chosen(ks, k))
  {
    SortedPrefixIsTop(ks, k);
    TopIsUnique(ks, k, Elements(Sort(RankLeq, ks)[..Min(k, |ks|)]));
  }

  // ---- the subset of a seed ------------------------------------------------

  /** The keys, drawn in list order. */
  function KeyedList(m: seq<PoolEntry>, ln: LogDraws, seed: Seed): (ks: seq<Keyed>)
    requires forall e <- m :: e.weight > 0.0
    ensures |ks| == |m|
    ensures forall i :: 0 <= i < |m| ==> ks[i] == Keyed(ln(seed, i) / m[i].weight, m[i])
  {
    seq(|m|, i requires 0 <= i < |m| => Keyed(ln(seed, i) / m[i].weight, m[i]))
  }

  /** The entries of the list that are chosen, in the list's own order. */
  function Subset(m: MasterList, ln: LogDraws, seed: Seed, k: nat): seq<PoolEntry> {
    Filter(m, Entries(Chosen(KeyedList(m, ln, seed), k)))
  }

  class Rng {
    const ln: LogDraws
    const seed: Seed
    var drawn: nat

    /** `ChaCha20Rng::from_seed`. */
    constructor (ln: LogDraws, seed: Seed)
      ensures this.ln == ln && this.seed == seed && drawn == 0
    {
      this.ln, this.seed, this.drawn := ln, seed, 0;
    }

    method LnNext() returns (x: real)
      modifies this
      ensures x == ln(seed, old(drawn)) && drawn == old(drawn) + 1
    {
      x := ln(seed, drawn);
      drawn := drawn + 1;
    }
  }

  lemma KeyedIsDistinct(m: MasterList, ln: LogDraws, seed: Seed)
    ensures DistinctKeyed(KeyedList(m, ln, seed)) && Distinct(KeyedList(m, ln, seed))
  {
    CanonicalIsDistinct(m);
  }

  function EntriesOf(ks: seq<Keyed>): seq<PoolEntry> {
    seq(|ks|, i requires 0 <= i < |ks| => ks[i].entry)
  }

  lemma KeyedIsInjective(m: MasterList, ln: LogDraws, seed: Seed)
    ensures
      var ks := KeyedList(m, ln, seed);
      forall x, y :: x in ks && y in ks && x.entry == y.entry ==> x == y
  {
    var ks := KeyedList(m, ln, seed);
    KeyedIsDistinct(m, ln, seed);
    forall x, y | x in ks && y in ks && x.entry == y.entry
      ensures x == y
    {
      var i, j :| 0 <= i < |ks| && 0 <= j < |ks| && ks[i] == x && ks[j] == y;
    }
  }

  lemma EntriesOfElements(ks: seq<Keyed>)
    ensures Elements(EntriesOf(ks)) == Entries(Elements(ks))
  {
    var es := EntriesOf(ks);
    forall e | e in es
      ensures e in Entries(Elements(ks))
    {
      var i :| 0 <= i < |es| && es[i] == e;
      assert ks[i] in Elements(ks);
    }
    forall e | e in Entries(Elements(ks))
      ensures e in es
    {
      var x :| x in ks && x.entry == e;
      var i :| 0 <= i < |ks| && ks[i] == x;
      assert es[i] == e;
    }
  }

  lemma TakenEntries(m: MasterList, ln: LogDraws, seed: Seed, taken: seq<Keyed>)
    requires Distinct(taken) && Elements(taken) <= Elements(KeyedList(m, ln, seed))
    ensures Distinct(EntriesOf(taken))
    ensures Elements(EntriesOf(taken)) == Entries(Elements(taken))
    ensures Elements(EntriesOf(taken)) <= Elements(m)
  {
    var ks := KeyedList(m, ln, seed);
    KeyedIsInjective(m, ln, seed);
    EntriesOfElements(taken);
    forall i | 0 <= i < |taken|
      ensures taken[i] in ks && taken[i].entry in m
    {
      assert taken[i] in Elements(taken);
    }
  }

  /** Sorting by rank, cutting at `k` and sorting by SNI yields the declared subset. */
  lemma SortedPrefixIsSubset(m: MasterList, ln: LogDraws, seed: Seed, k: nat)
    ensures
      var sorted := Sort(RankLeq, KeyedList(m, ln, seed));
      && |sorted| == |m|
      && FromUnsorted(EntriesOf(sorted[..Min(k, |m|)])) == Subset(m, ln, seed, k)
  {
    var ks := KeyedList(m, ln, seed);
    var sorted := Sort(RankLeq, ks);
    KeyedIsDistinct(m, ln, seed);
    SortedPrefixIsTop(ks, k);
    var taken := sorted[..Min(k, |m|)];
    TopIsUnique(ks, k, Elements(taken));
    TakenEntries(m, ln, seed, taken);
    FromUnsortedIsFilter(m, EntriesOf(taken));
  }

  /** `subset_from_seed`. */
  method SubsetFromSeed(m: MasterList, ln: LogDraws, seed: Seed, k: nat) returns (pool: seq<PoolEntry>)
    ensures pool == Subset(m, ln, seed, k)
  {
    var n := Min(k, |m|);
    var rng := new Rng(ln, seed);
    var keyed: seq<Keyed> := [];
    for i := 0 to |m|
      invariant rng.drawn == i && rng.ln == ln && rng.seed == seed
      invariant keyed == KeyedList(m, ln, seed)[..i]
    {
      var lnU := rng.LnNext();
      keyed := keyed + [Keyed(lnU / m[i].weight, m[i])];
    }
    assert keyed == KeyedList(m, ln, seed);
    SortedPrefixIsSubset(m, ln, seed, k);
    keyed := Sort(RankLeq, keyed);
    pool := FromUnsorted(EntriesOf(keyed[..n]));
  }

  // ---- what the subset is --------------------------------------------------

  lemma KeyOf(m: MasterList, ln: LogDraws, seed: Seed, e: PoolEntry) returns (i: nat)
    requires e in m
    ensures i < |m| && m[i] == e && KeyedList(m, ln, seed)[i].entry == e
  {
    i :| 0 <= i < |m| && m[i] == e;
  }

  /** An entry is in the subset exactly when fewer than `k` entries outrank it. */
  lemma MemberIffRank(m: MasterList, ln: LogDraws, seed: Seed, k: nat, i: nat)
    requires i < |m|
    ensures
      var ks := KeyedList(m, ln, seed);
      m[i] in Subset(m, ln, seed, k) <==> Rank(ks, ks[i]) < k
  {
    var ks := KeyedList(m, ln, seed);
    CanonicalIsDistinct(m);
    if m[i] in Subset(m, ln, seed, k) {
      var x :| x in Chosen(ks, k) && x.entry == m[i];
      var j :| 0 <= j < |ks| && ks[j] == x;
      assert m[j].sni == m[i].sni;
    }
    if Rank(ks, ks[i]) < k {
      assert ks[i] in Chosen(ks, k);
    }
  }

  /** The subset is strictly sorted and has min(k, n) entries, all of them the list's own. */
  lemma SubsetIsTop(m: MasterList, ln: LogDraws, seed: Seed, k: nat)
    ensures
      var pool := Subset(m, ln, seed, k);
      && Canonical(pool) && Elements(pool) <= Elements(m)
      && |pool| == Min(k, |m|)
  {
    var ks := KeyedList(m, ln, seed);
    KeyedIsDistinct(m, ln, seed);
    SortedPrefixIsTop(ks, k);
    SortedPrefixIsSubset(m, ln, seed, k);
    var taken := Sort(RankLeq, ks)[..Min(k, |m|)];
    FilterKeepsCanonical(m, Entries(Chosen(ks, k)));
    SameMultisetSameElements(FromUnsorted(EntriesOf(taken)), EntriesOf(taken));
  }

  /** Every entry of the subset outranks every entry left out: by key, then by SNI, that is by list position. */
  lemma MembersOutrankOthers(m: MasterList, ln: LogDraws, seed: Seed, k: nat, i: nat, j: nat)
    requires i < |m| && j < |m|
    requires m[i] in Subset(m, ln, seed, k) && m[j] !in Subset(m, ln, seed, k)
    ensures
      var (x, y) := (ln(seed, i) / m[i].weight, ln(seed, j) / m[j].weight);
      x > y || (x == y && i < j)
  {
    var ks := KeyedList(m, ln, seed);
    MemberIffRank(m, ln, seed, k, i);
    MemberIffRank(m, ln, seed, k, j);
    KeyedIsDistinct(m, ln, seed);
    ChosenIsTop(ks, k);
    assert ks[i] in Chosen(ks, k) && ks[j] in ks;
    assert Beats(ks[i], ks[j]);
    if j < i { LessIsAsymmetric(m[j].sni, m[i].sni); }
  }

  /** Together these facts determine it: any such pool whose entries outrank the rest is the subset. */
  lemma SubsetIsUnique(m: MasterList, ln: LogDraws, seed: Seed, k: nat, pool: seq<PoolEntry>)
    requires Canonical(pool) && Elements(pool) <= Elements(m) && |pool| == Min(k, |m|)
    requires
      var ks := KeyedList(m, ln, seed);
      forall i, j :: 0 <= i < |m| && 0 <= j < |m| && m[i] in pool && m[j] !in pool ==> Beats(ks[i], ks[j])
    ensures pool == Subset(m, ln, seed, k)
  {
    var ks := KeyedList(m, ln, seed);
    var top := set x | x in ks && x.entry in pool;
    KeyedIsDistinct(m, ln, seed);
    CanonicalIsDistinct(pool);
    TopOfPool(m, ln, seed, pool, top);
    forall x, y | x in top && y in ks && y !in top
      ensures Beats(x, y)
    {
      var i, j :| 0 <= i < |ks| && 0 <= j < |ks| && ks[i] == x && ks[j] == y;
      assert m[i] in pool && m[j] !in pool;
    }
    TopIsUnique(ks, k, top);
    FilterKeepsCanonical(m, Entries(top));
    CanonicalIsUnique(pool, Filter(m, Entries(top)));
  }

  lemma TopOfPool(m: MasterList, ln: LogDraws, seed: Seed, pool: seq<PoolEntry>, top: set<Keyed>)
    requires Canonical(pool) && Elements(pool) <= Elements(m)
    requires top == set x | x in KeyedList(m, ln, seed) && x.entry in pool
    ensures |top| == |pool| && Entries(top) == Elements(pool) && top <= Elements(KeyedList(m, ln, seed))
    ensures Elements(Filter(m, Entries(top))) == Elements(pool)
  {
    var ks := KeyedList(m, ln, seed);
    forall e | e in Elements(pool)
      ensures e in Entries(top)
    {
      assert e in Elements(m);
      var i := KeyOf(m, ln, seed, e);
      assert ks[i] in top;
    }
    assert Entries(top) == Elements(pool);
    KeyedIsInjective(m, ln, seed);
    InjectiveCount(top);
    CanonicalIsDistinct(pool);
    DistinctIffCount(pool);
    FilterKeepsCanonical(m, Entries(top));
  }

  lemma {:induction false} InjectiveCount(xs: set<Keyed>)
    requires forall x, y :: x in xs && y in xs && x.entry == y.entry ==> x == y
    ensures |Entries(xs)| == |xs|
  {
    if xs != {} {
      var x :| x in xs;
      var rest := xs - {x};
      InjectiveCount(rest);
      assert Entries(xs) == Entries(rest) + {x.entry};
      assert x.entry !in Entries(rest);
    }
  }

  /** Subsets are nested in `k`. */
  lemma SubsetsNest(m: MasterList, ln: LogDraws, seed: Seed, k: nat, k': nat)
    requires k <= k'
    ensures Elements(Subset(m, ln, seed, k)) <= Elements(Subset(m, ln, seed, k'))
  {
    var ks := KeyedList(m, ln, seed);
    assert Chosen(ks, k) <= Chosen(ks, k');
  }
}
