/** Raising one entry's weight under a fixed seed: it can only enter, and then exactly the last member leaves. */
module Weights {
  import opened Words
  import opened Ordering
  import opened Pool
  import opened Sampler

  ghost predicate Raised(m: MasterList, m': MasterList, t: nat) {
    && t < |m| == |m'|
    && m'[t].sni == m[t].sni && m[t].weight <= m'[t].weight
    && forall i :: 0 <= i < |m| && i != t ==> m'[i] == m[i]
  }

  predicate Member(m: MasterList, ln: LogDraws, seed: Seed, k: nat, i: nat)
    requires i < |m|
  {
    m[i] in Subset(m, ln, seed, k)
  }

  /** Logarithms of draws from (0, 1] are not positive, so a larger weight cannot lower the key. */
  lemma KeyGrows(x: NonPositive, w: real, w': real)
    requires 0.0 < w <= w'
    ensures x / w <= x / w'
  {
    var a, b := x / w, x / w';
    assert a * w == b * w' == x;
  }

  lemma RaisedKeys(m: MasterList, m': MasterList, t: nat, ln: LogDraws, seed: Seed)
    requires Raised(m, m', t)
    ensures
      var (ks, ks') := (KeyedList(m, ln, seed), KeyedList(m', ln, seed));
      && ks[t].key <= ks'[t].key
      && (forall i :: 0 <= i < |m| && i != t ==> ks'[i] == ks[i])
      && (forall x :: Beats(ks[t], x) ==> Beats(ks'[t], x))
      && (forall x :: Beats(x, ks'[t]) ==> Beats(x, ks[t]))
  {
    KeyGrows(ln(seed, t), m[t].weight, m'[t].weight);
  }

  /** The entries other than `t` that outrank `x`; they are the same before and after. */
  function Others(ks: seq<Keyed>, t: nat, x: Keyed): set<Keyed>
    requires t < |ks|
  {
    set y | y in ks && y != ks[t] && Beats(y, x)
  }

  lemma OthersCarryOver(ks: seq<Keyed>, ks': seq<Keyed>, t: nat, x: Keyed)
    requires t < |ks| == |ks'| && DistinctKeyed(ks')
    requires forall i :: 0 <= i < |ks| && i != t ==> ks'[i] == ks[i]
    ensures Others(ks, t, x) <= Others(ks', t, x)
  {
    forall y | y in Others(ks, t, x)
      ensures y in Others(ks', t, x)
    {
      var i :| 0 <= i < |ks| && ks[i] == y;
      assert ks'[i] == y && ks'[i].entry.sni != ks'[t].entry.sni;
    }
  }

  lemma OthersAgree(m: MasterList, m': MasterList, t: nat, ln: LogDraws, seed: Seed, x: Keyed)
    requires Raised(m, m', t)
    ensures
      var (ks, ks') := (KeyedList(m, ln, seed), KeyedList(m', ln, seed));
      Others(ks, t, x) == Others(ks', t, x)
  {
    var ks, ks' := KeyedList(m, ln, seed), KeyedList(m', ln, seed);
    KeyedIsDistinct(m, ln, seed);
    KeyedIsDistinct(m', ln, seed);
    OthersCarryOver(ks, ks', t, x);
    OthersCarryOver(ks', ks, t, x);
  }

  lemma RankSplits(ks: seq<Keyed>, t: nat, x: Keyed)
    requires t < |ks|
    ensures Rank(ks, x) == |Others(ks, t, x)| + if Beats(ks[t], x) then 1 else 0
  {
    if Beats(ks[t], x) {
      assert Beaters(ks, x) == Others(ks, t, x) + {ks[t]};
    } else {
      assert Beaters(ks, x) == Others(ks, t, x);
    }
  }

  lemma OtherRanks(m: MasterList, m': MasterList, t: nat, ln: LogDraws, seed: Seed, i: nat)
    requires Raised(m, m', t) && i < |m| && i != t
    ensures
      var (ks, ks') := (KeyedList(m, ln, seed), KeyedList(m', ln, seed));
      Rank(ks', ks'[i]) == Rank(ks, ks[i]) + if Beats(ks'[t], ks[i]) && !Beats(ks[t], ks[i]) then 1 else 0
  {
    var ks, ks' := KeyedList(m, ln, seed), KeyedList(m', ln, seed);
    RaisedKeys(m, m', t, ln, seed);
    OthersAgree(m, m', t, ln, seed, ks[i]);
    RankSplits(ks, t, ks[i]);
    RankSplits(ks', t, ks[i]);
  }

  lemma RaisedRank(m: MasterList, m': MasterList, t: nat, ln: LogDraws, seed: Seed)
    requires Raised(m, m', t)
    ensures
      var (ks, ks') := (KeyedList(m, ln, seed), KeyedList(m', ln, seed));
      Rank(ks', ks'[t]) <= Rank(ks, ks[t])
  {
    var ks, ks' := KeyedList(m, ln, seed), KeyedList(m', ln, seed);
    RaisedKeys(m, m', t, ln, seed);
    OthersAgree(m, m', t, ln, seed, ks'[t]);
    BeatsIsAsymmetric(ks[t], ks[t]);
    BeatsIsAsymmetric(ks'[t], ks'[t]);
    RankSplits(ks, t, ks[t]);
    RankSplits(ks', t, ks'[t]);
    SubsetCount(Others(ks, t, ks'[t]), Others(ks, t, ks[t]));
  }

  /** Either direction of one comparison, in terms of ranks. */
  lemma BeatsIffRank(m: MasterList, ln: LogDraws, seed: Seed, i: nat, j: nat)
    requires i < |m| && j < |m|
    ensures var ks := KeyedList(m, ln, seed); Beats(ks[i], ks[j]) <==> Rank(ks, ks[i]) < Rank(ks, ks[j])
  {
    var ks := KeyedList(m, ln, seed);
    if i != j {
      KeyedIsDistinct(m, ln, seed);
      OneBeatsTheOther(ks[i], ks[j]);
    } else {
      BeatsIsAsymmetric(ks[i], ks[i]);
    }
    if Beats(ks[i], ks[j]) { BeatenRanksLower(ks, ks[i], ks[j]); }
    if Beats(ks[j], ks[i]) { BeatenRanksLower(ks, ks[j], ks[i]); }
  }

  /** How one other entry's membership can change. */
  lemma OtherMembership(m: MasterList, m': MasterList, t: nat, ln: LogDraws, seed: Seed, k: nat, i: nat)
    requires Raised(m, m', t) && i < |m| && i != t
    ensures
      var (ks, ks') := (KeyedList(m, ln, seed), KeyedList(m', ln, seed));
      && (Member(m, ln, seed, k, i) <==> Rank(ks, ks[i]) < k)
      && (Member(m', ln, seed, k, i) <==> Rank(ks', ks'[i]) < k)
      && Rank(ks', ks'[i]) ==
           Rank(ks, ks[i])
           + if Rank(ks', ks'[t]) < Rank(ks', ks'[i]) && Rank(ks, ks[i]) <= Rank(ks, ks[t]) then 1 else 0
  {
    RaisedKeys(m, m', t, ln, seed);
    MemberIffRank(m, ln, seed, k, i);
    MemberIffRank(m', ln, seed, k, i);
    OtherRanks(m, m', t, ln, seed, i);
    BeatsIffRank(m, ln, seed, t, i);
    BeatsIffRank(m', ln, seed, t, i);
  }

  lemma DifferentRanks(m: MasterList, ln: LogDraws, seed: Seed, i: nat, j: nat)
    requires i < |m| && j < |m| && i != j
    ensures var ks := KeyedList(m, ln, seed); Rank(ks, ks[i]) != Rank(ks, ks[j])
  {
    var ks := KeyedList(m, ln, seed);
    KeyedIsDistinct(m, ln, seed);
    OneBeatsTheOther(ks[i], ks[j]);
    BeatsIffRank(m, ln, seed, i, j);
    BeatsIffRank(m, ln, seed, j, i);
  }

  /** Unless `t` newly enters, nobody's membership changes. */
  lemma NoEntryNoChange(m: MasterList, m': MasterList, t: nat, ln: LogDraws, seed: Seed, k: nat, i: nat)
    requires Raised(m, m', t) && i < |m|
    requires Member(m, ln, seed, k, t) || !Member(m', ln, seed, k, t)
    ensures Member(m', ln, seed, k, i) == Member(m, ln, seed, k, i)
  {
    RaisedRank(m, m', t, ln, seed);
    MemberIffRank(m, ln, seed, k, t);
    MemberIffRank(m', ln, seed, k, t);
    if i != t {
      OtherMembership(m, m', t, ln, seed, k, i);
      DifferentRanks(m, ln, seed, i, t);
    }
  }

  /** Some entry has rank p: the p-th in rank order, outranked by exactly the earlier ones. */
  lemma RankIsTaken(ks: seq<Keyed>, p: nat) returns (i: nat)
    requires DistinctKeyed(ks) && p < |ks|
    ensures i < |ks| && Rank(ks, ks[i]) == p
  {
    var sorted := Sort(RankLeq, ks);
    RankOrder(ks);
    var x, before := sorted[p], Elements(sorted[..p]);
    assert x in Elements(sorted);
    assert x in Elements(ks);
    i :| 0 <= i < |ks| && ks[i] == x;
    forall q | 0 <= q < |sorted|
      ensures Beats(sorted[q], x) <==> sorted[q] in before
    {
      if q < p {
        assert sorted[..p][q] == sorted[q];
      } else {
        BeatsIsAsymmetric(sorted[q], x);
      }
    }
    forall y
      ensures y in Beaters(ks, x) <==> y in before
    {
      assert y in ks <==> y in Elements(sorted);
    }
    assert Beaters(ks, x) == before;
    DistinctIffCount(sorted[..p]);
  }

  /** When somebody is left out, the lowest-ranked member has rank k - 1. */
  lemma LastMember(m: MasterList, ln: LogDraws, seed: Seed, k: nat) returns (last: nat)
    requires 0 < k < |m|
    ensures last < |m|
    ensures var ks := KeyedList(m, ln, seed); Rank(ks, ks[last]) == k - 1
  {
    var ks := KeyedList(m, ln, seed);
    KeyedIsDistinct(m, ln, seed);
    last := RankIsTaken(ks, k - 1);
  }

  /** `last` was the lowest-ranked member; it leaves, `t` enters, and nobody else moves. */
  ghost predicate Displaces(m: MasterList, m': MasterList, t: nat, last: nat, ln: LogDraws, seed: Seed, k: nat)
    requires Raised(m, m', t)
  {
    var ks := KeyedList(m, ln, seed);
    && last < |m| && last != t
    && !Member(m, ln, seed, k, t) && Member(m', ln, seed, k, t)
    && Member(m, ln, seed, k, last) && !Member(m', ln, seed, k, last)
    && (forall i :: 0 <= i < |m| && i != last && Member(m, ln, seed, k, i) ==> Beats(ks[i], ks[last]))
    && (forall i :: 0 <= i < |m| && i != t && i != last ==> Member(m', ln, seed, k, i) == Member(m, ln, seed, k, i))
  }

  lemma RaisedOutsiderEnters(m: MasterList, m': MasterList, t: nat, ln: LogDraws, seed: Seed, k: nat)
    returns (last: nat)
    requires Raised(m, m', t) && !Member(m, ln, seed, k, t) && Member(m', ln, seed, k, t)
    ensures Displaces(m, m', t, last, ln, seed, k)
  {
    var ks := KeyedList(m, ln, seed);
    MemberIffRank(m, ln, seed, k, t);
    MemberIffRank(m', ln, seed, k, t);
    RankBelowCount(ks, ks[t]);
    last := LastMember(m, ln, seed, k);
    forall i | 0 <= i < |m| && i != t
      ensures Member(m', ln, seed, k, i) == (i != last && Member(m, ln, seed, k, i))
      ensures i != last && Member(m, ln, seed, k, i) ==> Beats(ks[i], ks[last])
    {
      OtherMembership(m, m', t, ln, seed, k, i);
      DifferentRanks(m', ln, seed, i, t);
      BeatsIffRank(m, ln, seed, i, last);
      if i != last {
        DifferentRanks(m, ln, seed, i, last);
      }
    }
    MemberIffRank(m, ln, seed, k, last);
  }

  /**
   * Raising a weight never drops the entry: either the chosen SNIs are unchanged, or that entry enters and
   * exactly the previously lowest-ranked member leaves.
   */
  lemma RaisingAWeight(m: MasterList, m': MasterList, t: nat, ln: LogDraws, seed: Seed, k: nat)
    requires Raised(m, m', t)
    ensures Member(m, ln, seed, k, t) ==> Member(m', ln, seed, k, t)
    ensures
      || (forall i :: 0 <= i < |m| ==> Member(m', ln, seed, k, i) == Member(m, ln, seed, k, i))
      || (exists last :: Displaces(m, m', t, last, ln, seed, k))
  {
    if Member(m, ln, seed, k, t) || !Member(m', ln, seed, k, t) {
      forall i | 0 <= i < |m|
        ensures Member(m', ln, seed, k, i) == Member(m, ln, seed, k, i)
      {
        NoEntryNoChange(m, m', t, ln, seed, k, i);
      }
    } else {
      var last := RaisedOutsiderEnters(m, m', t, ln, seed, k);
    }
  }
}
