/** Pool entries, the validated master list and the pools drawn from it. */
module Pool {
  import opened Words
  import opened Ordering

  datatype PoolEntry = PoolEntry(sni: bytes, weight: real)

  predicate SniLeq(a: PoolEntry, b: PoolEntry) {
    !Less(b.sni, a.sni)
  }

  lemma SniLeqIsPreorder()
    ensures TotalPreorder(SniLeq)
  {
    forall x: PoolEntry, y: PoolEntry
      ensures SniLeq(x, y) || SniLeq(y, x)
    {
      if Less(y.sni, x.sni) { LessIsAsymmetric(y.sni, x.sni); }
    }
    forall x: PoolEntry, y: PoolEntry, z: PoolEntry | SniLeq(x, y) && SniLeq(y, z)
      ensures SniLeq(x, z)
    {
      if Less(z.sni, x.sni) {
        LessIsTotal(x.sni, y.sni);
        if Less(x.sni, y.sni) { LessIsTransitive(z.sni, x.sni, y.sni); }
      }
    }
  }

  /** Sorted by SNI without repetition. */
  predicate Canonical(s: seq<PoolEntry>) {
    forall i, j :: 0 <= i < j < |s| ==> Less(s[i].sni, s[j].sni)
  }

  predicate ValidEntry(e: PoolEntry) {
    e.sni != [] && e.weight > 0.0
  }

  type MasterList = s: seq<PoolEntry> | s != [] && Canonical(s) && forall e <- s :: ValidEntry(e)
    witness [PoolEntry([97], 1.0)]

  /** `ActivePool::contains`. */
  predicate Contains(pool: seq<PoolEntry>, sni: bytes) {
    exists e <- pool :: e.sni == sni
  }

  ghost predicate DistinctSnis(s: seq<PoolEntry>) {
    forall i, j :: 0 <= i < j < |s| ==> s[i].sni != s[j].sni
  }

  // ---- canonical sequences -------------------------------------------------

  lemma CanonicalIsDistinct(s: seq<PoolEntry>)
    requires Canonical(s)
    ensures Distinct(s) && DistinctSnis(s)
  {
    forall i, j | 0 <= i < j < |s|
      ensures s[i].sni != s[j].sni
    {
      LessIsAsymmetric(s[i].sni, s[j].sni);
    }
  }

  /** A canonical sequence is determined by its set of entries. */
  lemma {:induction false} CanonicalIsUnique(a: seq<PoolEntry>, b: seq<PoolEntry>)
    requires Canonical(a) && Canonical(b) && Elements(a) == Elements(b)
    ensures a == b
  {
    CanonicalIsDistinct(a);
    CanonicalIsDistinct(b);
    DistinctIffCount(a);
    DistinctIffCount(b);
    if a != [] {
      assert a[0] in Elements(a) && b[0] in Elements(b);
      assert a[0] in b && b[0] in a;
      if a[0] != b[0] {
        LessIsAsymmetric(a[0].sni, b[0].sni);
      }
      assert Elements(a[1..]) == Elements(a) - {a[0]};
      assert Elements(b[1..]) == Elements(b) - {b[0]};
      CanonicalIsUnique(a[1..], b[1..]);
      assert a == [a[0]] + a[1..] && b == [b[0]] + b[1..];
    }
  }

  /** Sorting entries with distinct SNIs gives the canonical sequence. */
  lemma SortIsCanonical(s: seq<PoolEntry>)
    requires DistinctSnis(s)
    ensures Canonical(Sort(SniLeq, s)) && Elements(Sort(SniLeq, s)) == Elements(s)
  {
    var t := Sort(SniLeq, s);
    SniLeqIsPreorder();
    SortSorts(SniLeq, s);
    SameMultisetSameElements(t, s);
    PermutationKeepsDistinct(s, t);
    forall i, j | 0 <= i < j < |t|
      ensures Less(t[i].sni, t[j].sni)
    {
      assert SniLeq(t[i], t[j]);
      LessIsTotal(t[i].sni, t[j].sni);
      assert t[i] in Elements(t) && t[j] in Elements(t);
      assert t[i] in s && t[j] in s;
      var p, q :| 0 <= p < |s| && 0 <= q < |s| && s[p] == t[i] && s[q] == t[j];
    }
  }

  lemma {:induction false} FilterKeepsCanonical(s: seq<PoolEntry>, keep: set<PoolEntry>)
    requires Canonical(s)
    ensures Canonical(Filter(s, keep))
    ensures Elements(Filter(s, keep)) == Elements(s) * keep
  {
    if s != [] {
      FilterKeepsCanonical(s[1..], keep);
      var rest := Filter(s[1..], keep);
      forall j | 0 <= j < |rest|
        ensures Less(s[0].sni, rest[j].sni)
      {
        assert rest[j] in s[1..];
      }
    }
  }

  /** `ActivePool::from_unsorted`. */
  function FromUnsorted(entries: seq<PoolEntry>): seq<PoolEntry> {
    Sort(SniLeq, entries)
  }

  /** Collecting entries of a canonical list in any order and sorting is filtering the list. */
  lemma FromUnsortedIsFilter(m: seq<PoolEntry>, chosen: seq<PoolEntry>)
    requires Canonical(m) && Distinct(chosen) && Elements(chosen) <= Elements(m)
    ensures FromUnsorted(chosen) == Filter(m, Elements(chosen))
  {
    CanonicalIsDistinct(m);
    forall i, j | 0 <= i < j < |chosen|
      ensures chosen[i].sni != chosen[j].sni
    {
      assert chosen[i] in Elements(chosen) && chosen[j] in Elements(chosen);
      assert chosen[i] in m && chosen[j] in m;
      var p, q :| 0 <= p < |m| && 0 <= q < |m| && m[p] == chosen[i] && m[q] == chosen[j];
    }
    SortIsCanonical(chosen);
    FilterKeepsCanonical(m, Elements(chosen));
    CanonicalIsUnique(FromUnsorted(chosen), Filter(m, Elements(chosen)));
  }

  // ---- `MasterList::new` ---------------------------------------------------

  datatype PoolError =
    | EmptyMasterList
    | EmptySni(index: nat)
    | InvalidWeight(index: nat, weight: real)
    | DuplicateSni(sni: bytes)

  ghost predicate FirstInvalid(entries: seq<PoolEntry>, i: nat) {
    && i < |entries|
    && !ValidEntry(entries[i])
    && forall j :: 0 <= j < i ==> ValidEntry(entries[j])
  }

  ghost predicate AllValid(entries: seq<PoolEntry>) {
    forall i :: 0 <= i < |entries| ==> ValidEntry(entries[i])
  }

  ghost predicate Repeated(entries: seq<PoolEntry>, sni: bytes) {
    exists i, j :: 0 <= i < j < |entries| && entries[i].sni == sni && entries[j].sni == sni
  }

  ghost predicate LeastRepeated(entries: seq<PoolEntry>, sni: bytes) {
    Repeated(entries, sni) && forall other :: Repeated(entries, other) ==> !Less(other, sni)
  }

  /** What `MasterList::new` may answer on `input`. */
  ghost predicate Answers(input: seq<PoolEntry>, r: Result<MasterList, PoolError>) {
    match r
    case Ok(list) => multiset(list) == multiset(input)
    case Err(EmptyMasterList) => input == []
    case Err(EmptySni(i)) => FirstInvalid(input, i) && input[i].sni == []
    case Err(InvalidWeight(i, w)) => FirstInvalid(input, i) && input[i].sni != [] && w == input[i].weight
    case Err(DuplicateSni(sni)) => AllValid(input) && LeastRepeated(input, sni)
  }

  method CheckEntries(entries: seq<PoolEntry>) returns (bad: Option<PoolError>)
    ensures bad.None? ==> AllValid(entries)
    ensures bad.Some? ==> (bad.value.EmptySni? || bad.value.InvalidWeight?) && Answers(entries, Err(bad.value))
  {
    for i := 0 to |entries|
      invariant forall j :: 0 <= j < i ==> ValidEntry(entries[j])
    {
      if entries[i].sni == [] {
        assert FirstInvalid(entries, i);
        return Some(EmptySni(i));
      }
      if entries[i].weight <= 0.0 {
        assert FirstInvalid(entries, i);
        return Some(InvalidWeight(i, entries[i].weight));
      }
    }
    return None;
  }

  /** `MasterList::new`. */
  method NewMasterList(input: seq<PoolEntry>) returns (r: Result<MasterList, PoolError>)
    ensures Answers(input, r)
  {
    var entries := input;
    if entries == [] { return Err(EmptyMasterList); }
    var bad := CheckEntries(entries);
    if bad.Some? { return Err(bad.value); }
    entries := Sort(SniLeq, entries);
    SniLeqIsPreorder();
    SortSorts(SniLeq, input);
    PermutedEntriesAreValid(input, entries);
    for i := 0 to |entries| - 1
      invariant forall p, q :: 0 <= p < q <= i ==> Less(entries[p].sni, entries[q].sni)
    {
      if entries[i].sni == entries[i + 1].sni {
        FirstEqualPairIsLeast(entries, i);
        PermutationKeepsRepeated(input, entries);
        return Err(DuplicateSni(entries[i].sni));
      }
      LessIsTotal(entries[i].sni, entries[i + 1].sni);
      assert SniLeq(entries[i], entries[i + 1]);
      forall p | 0 <= p < i
        ensures Less(entries[p].sni, entries[i + 1].sni)
      {
        LessIsTransitive(entries[p].sni, entries[i].sni, entries[i + 1].sni);
      }
    }
    return Ok(entries);
  }

  lemma PermutedEntriesAreValid(a: seq<PoolEntry>, b: seq<PoolEntry>)
    requires multiset(a) == multiset(b) && AllValid(a)
    ensures AllValid(b) && |a| == |b|
  {
    SameMultisetSameElements(a, b);
    forall i | 0 <= i < |b|
      ensures ValidEntry(b[i])
    {
      assert b[i] in Elements(b);
      assert b[i] in a;
    }
  }

  lemma FirstEqualPairIsLeast(s: seq<PoolEntry>, i: nat)
    requires SortedBy(SniLeq, s) && i + 1 < |s| && s[i].sni == s[i + 1].sni
    requires forall p, q :: 0 <= p < q <= i ==> Less(s[p].sni, s[q].sni)
    ensures LeastRepeated(s, s[i].sni)
  {
    forall other | Repeated(s, other)
      ensures !Less(other, s[i].sni)
    {
      var p, q :| 0 <= p < q < |s| && s[p].sni == other && s[q].sni == other;
      if i < q {
        assert SniLeq(s[i], s[q]);
      }
    }
  }

  lemma PermutationKeepsOneRepeated(a: seq<PoolEntry>, b: seq<PoolEntry>, sni: bytes)
    requires multiset(a) == multiset(b) && Repeated(a, sni)
    ensures Repeated(b, sni)
  {
    var i, j :| 0 <= i < j < |a| && a[i].sni == sni && a[j].sni == sni;
    SameMultisetSameElements(a, b);
    assert a[i] in Elements(a) && a[j] in Elements(a);
    if a[i] == a[j] {
      assert Twice(a, a[i]);
      TwiceIffMultiplicity(a, a[i]);
      TwiceIffMultiplicity(b, a[i]);
    } else {
      var p, q :| 0 <= p < |b| && 0 <= q < |b| && b[p] == a[i] && b[q] == a[j];
    }
  }

  lemma PermutationKeepsRepeated(a: seq<PoolEntry>, b: seq<PoolEntry>)
    requires multiset(a) == multiset(b)
    ensures forall sni :: Repeated(a, sni) <==> Repeated(b, sni)
  {
    forall sni
      ensures Repeated(a, sni) <==> Repeated(b, sni)
    {
      if Repeated(a, sni) { PermutationKeepsOneRepeated(a, b, sni); }
      if Repeated(b, sni) { PermutationKeepsOneRepeated(b, a, sni); }
    }
  }

  lemma AcceptedIsDistinct(input: seq<PoolEntry>, list: MasterList)
    requires multiset(list) == multiset(input)
    ensures input != [] && AllValid(input) && forall sni :: !Repeated(input, sni)
  {
    PermutedEntriesAreValid(list, input);
    CanonicalIsDistinct(list);
    PermutationKeepsRepeated(list, input);
    forall sni
      ensures !Repeated(list, sni)
    {
    }
  }

  /** A list is accepted exactly when it is non-empty, every entry is valid and no SNI occurs twice. */
  lemma AcceptedIffClean(input: seq<PoolEntry>, r: Result<MasterList, PoolError>)
    requires Answers(input, r)
    ensures
      r.Ok? <==>
      && input != []
      && (forall i :: 0 <= i < |input| ==> input[i].sni != [] && input[i].weight > 0.0)
      && (forall i, j :: 0 <= i < j < |input| ==> input[i].sni != input[j].sni)
  {
    match r {
      case Ok(list) => AcceptedIsDistinct(input, list); NoneRepeated(input);
      case Err(DuplicateSni(sni)) => assert Repeated(input, sni);
      case _ =>
    }
  }

  lemma NoneRepeated(input: seq<PoolEntry>)
    requires forall sni :: !Repeated(input, sni)
    ensures DistinctSnis(input)
  {
    forall i, j | 0 <= i < j < |input|
      ensures input[i].sni != input[j].sni
    {
      assert !Repeated(input, input[i].sni);
    }
  }

  predicate DependsOnOrder(r: Result<MasterList, PoolError>) {
    r.Err? && (r.error.EmptySni? || r.error.InvalidWeight?)
  }

  /**
   * The order of the input is irrelevant: permuted inputs get the same list or the same refusal; only the
   * entry an `EmptySni` or `InvalidWeight` points at may differ.  In particular the answer is unique.
   */
  lemma OrderIsIrrelevant(a: seq<PoolEntry>, ra: Result<MasterList, PoolError>,
                          b: seq<PoolEntry>, rb: Result<MasterList, PoolError>)
    requires multiset(a) == multiset(b) && Answers(a, ra) && Answers(b, rb)
    ensures DependsOnOrder(ra) <==> DependsOnOrder(rb)
    ensures !DependsOnOrder(ra) || a == b ==> ra == rb
  {
    SameMultisetSameElements(a, b);
    if AllValid(a) { PermutedEntriesAreValid(a, b); }
    if AllValid(b) { PermutedEntriesAreValid(b, a); }
    PermutationKeepsRepeated(a, b);
    if ra.Ok? { AcceptedIsDistinct(a, ra.value); }
    if rb.Ok? { AcceptedIsDistinct(b, rb.value); }
    if ra.Ok? && rb.Ok? {
      SameMultisetSameElements(ra.value, rb.value);
      CanonicalIsUnique(ra.value, rb.value);
    } else if ra.Err? && ra.error.DuplicateSni? && rb.Err? && rb.error.DuplicateSni? {
      LessIsTotal(ra.error.sni, rb.error.sni);
    }
  }
}
