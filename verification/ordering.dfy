/** Byte-string order, stable sorting, and why a strictly sorted sequence is determined by its elements. */
module Ordering {
  import opened Words

  // ---- the order of Rust strings -------------------------------------------

  predicate Less(a: bytes, b: bytes)
    decreases |a|
  {
    b != [] && (a == [] || a[0] < b[0] || (a[0] == b[0] && Less(a[1..], b[1..])))
  }

  lemma {:induction false} LessIsTotal(a: bytes, b: bytes)
    ensures a == b || Less(a, b) || Less(b, a)
    decreases |a|
  {
    if a != [] && b != [] {
      LessIsTotal(a[1..], b[1..]);
      assert a == [a[0]] + a[1..] && b == [b[0]] + b[1..];
    }
  }

  lemma {:induction false} LessIsAsymmetric(a: bytes, b: bytes)
    requires Less(a, b)
    ensures !Less(b, a) && a != b
    decreases |a|
  {
    if a != [] && a[0] == b[0] {
      LessIsAsymmetric(a[1..], b[1..]);
    }
  }

  lemma {:induction false} LessIsTransitive(a: bytes, b: bytes, c: bytes)
    requires Less(a, b) && Less(b, c)
    ensures Less(a, c)
    decreases |a|
  {
    if a != [] && a[0] == b[0] == c[0] {
      LessIsTransitive(a[1..], b[1..], c[1..]);
    }
  }

  /** What the order is: a proper prefix comes first, otherwise the first difference decides. */
  lemma {:induction false} LessIff(a: bytes, b: bytes)
    ensures
      Less(a, b) <==>
      || (|a| < |b| && a == b[..|a|])
      || (exists i :: 0 <= i < |a| && i < |b| && a[..i] == b[..i] && a[i] < b[i])
    decreases |a|
  {
    if a != [] && b != [] {
      var a', b' := a[1..], b[1..];
      LessIff(a', b');
      assert a == [a[0]] + a' && b == [b[0]] + b';
      if a[0] == b[0] {
        if |a| < |b| {
          assert b[..|a|] == [b[0]] + b'[..|a'|];
        }
        forall i | 0 <= i < |a'| && i < |b'|
          ensures a'[..i] == b'[..i] && a'[i] < b'[i] <==> a[..i + 1] == b[..i + 1] && a[i + 1] < b[i + 1]
        {
          assert a[..i + 1] == [a[0]] + a'[..i] && b[..i + 1] == [b[0]] + b'[..i];
          assert a[..i + 1][1..] == a'[..i] && b[..i + 1][1..] == b'[..i];
        }
        if i :| 0 <= i < |a'| && i < |b'| && a'[..i] == b'[..i] && a'[i] < b'[i] {
          assert a[..i + 1] == b[..i + 1] && a[i + 1] < b[i + 1];
        }
        if i :| 0 <= i < |a| && i < |b| && a[..i] == b[..i] && a[i] < b[i] {
          assert i >= 1 && a'[..i - 1] == b'[..i - 1] && a'[i - 1] < b'[i - 1];
        }
      } else {
        assert a[..0] == b[..0];
        forall i | 1 <= i <= |a| && i <= |b|
          ensures a[..i] != b[..i]
        {
          assert a[..i][0] == a[0] && b[..i][0] == b[0];
        }
        assert a[..|a|] == a;
      }
    }
  }

  // ---- `sort_by` -----------------------------------------------------------

  ghost predicate TotalPreorder<T(!new)>(leq: (T, T) -> bool) {
    && (forall x, y :: leq(x, y) || leq(y, x))
    && (forall x, y, z :: leq(x, y) && leq(y, z) ==> leq(x, z))
  }

  ghost predicate SortedBy<T>(leq: (T, T) -> bool, s: seq<T>) {
    forall i, j :: 0 <= i < j < |s| ==> leq(s[i], s[j])
  }

  function Insert<T>(leq: (T, T) -> bool, x: T, s: seq<T>): (r: seq<T>)
    ensures multiset(r) == multiset{x} + multiset(s)
  {
    if s == [] then [x]
    else if leq(x, s[0]) then [x] + s
    else
      assert s == [s[0]] + s[1..];
      [s[0]] + Insert(leq, x, s[1..])
  }

  /** The stable sort: each element goes before the first one it does not come after. */
  function Sort<T>(leq: (T, T) -> bool, s: seq<T>): (r: seq<T>)
    ensures multiset(r) == multiset(s)
  {
    if s == [] then []
    else
      assert s == [s[0]] + s[1..];
      Insert(leq, s[0], Sort(leq, s[1..]))
  }

  lemma {:induction false} InsertKeepsSorted<T(!new)>(leq: (T, T) -> bool, x: T, s: seq<T>)
    requires TotalPreorder(leq) && SortedBy(leq, s)
    ensures SortedBy(leq, Insert(leq, x, s))
  {
    if s != [] && !leq(x, s[0]) {
      var rest := Insert(leq, x, s[1..]);
      InsertKeepsSorted(leq, x, s[1..]);
      forall j | 0 <= j < |rest|
        ensures leq(s[0], rest[j])
      {
        assert rest[j] in multiset(rest);
        assert rest[j] == x || rest[j] in s[1..];
      }
    }
  }

  lemma {:induction false} SortSorts<T(!new)>(leq: (T, T) -> bool, s: seq<T>)
    requires TotalPreorder(leq)
    ensures SortedBy(leq, Sort(leq, s))
  {
    if s != [] {
      SortSorts(leq, s[1..]);
      InsertKeepsSorted(leq, s[0], Sort(leq, s[1..]));
    }
  }

  // ---- sequences as sets ---------------------------------------------------

  function Elements<T>(s: seq<T>): set<T> {
    set x | x in s
  }

  ghost predicate Distinct<T>(s: seq<T>) {
    forall i, j :: 0 <= i < j < |s| ==> s[i] != s[j]
  }

  lemma {:induction false} DistinctIffCount<T>(s: seq<T>)
    ensures |Elements(s)| <= |s|
    ensures Distinct(s) <==> |Elements(s)| == |s|
  {
    if s != [] {
      var t := s[1..];
      DistinctIffCount(t);
      assert s == [s[0]] + t;
      assert Elements(s) == {s[0]} + Elements(t);
      if s[0] in t {
        assert Elements(s) == Elements(t);
        var j :| 0 <= j < |t| && t[j] == s[0];
        assert s[0] == s[j + 1];
      } else {
        assert Distinct(s) <==> Distinct(t) by {
          assert forall j :: 0 < j < |s| ==> s[j] == t[j - 1];
          assert forall j :: 0 <= j < |t| ==> t[j] == s[j + 1];
        }
      }
    }
  }

  lemma SameMultisetSameElements<T>(a: seq<T>, b: seq<T>)
    requires multiset(a) == multiset(b)
    ensures Elements(a) == Elements(b) && |a| == |b|
  {
    assert |a| == |multiset(a)| && |b| == |multiset(b)|;
    forall x ensures x in a <==> x in b {
      assert x in a <==> x in multiset(a);
      assert x in b <==> x in multiset(b);
    }
  }

  lemma PermutationKeepsDistinct<T>(a: seq<T>, b: seq<T>)
    requires multiset(a) == multiset(b)
    ensures Distinct(a) <==> Distinct(b)
  {
    DistinctIffCount(a);
    DistinctIffCount(b);
    SameMultisetSameElements(a, b);
  }

  ghost predicate Twice<T>(s: seq<T>, x: T) {
    exists i, j :: 0 <= i < j < |s| && s[i] == x && s[j] == x
  }

  lemma {:induction false} TwiceIffMultiplicity<T>(s: seq<T>, x: T)
    ensures x in s <==> multiset(s)[x] >= 1
    ensures Twice(s, x) <==> multiset(s)[x] >= 2
  {
    if s != [] {
      var t := s[1..];
      TwiceIffMultiplicity(t, x);
      assert s == [s[0]] + t;
      assert multiset(s)[x] == (if s[0] == x then 1 else 0) + multiset(t)[x];
      if Twice(t, x) {
        var i, j :| 0 <= i < j < |t| && t[i] == x && t[j] == x;
        assert s[i + 1] == x && s[j + 1] == x;
      }
      if s[0] == x && x in t {
        var j :| 0 <= j < |t| && t[j] == x;
        assert s[0] == x && s[j + 1] == x;
      }
      if Twice(s, x) {
        var i, j :| 0 <= i < j < |s| && s[i] == x && s[j] == x;
        assert t[j - 1] == x;
        if i > 0 { assert t[i - 1] == x; }
      }
    }
  }

  // ---- keeping part of a sequence ------------------------------------------

  /** The elements of `s` that are in `keep`, in the order of `s`. */
  function Filter<T(==,!new)>(s: seq<T>, keep: set<T>): (r: seq<T>)
    ensures forall x :: x in r <==> x in s && x in keep
  {
    if s == [] then []
    else
      assert s == [s[0]] + s[1..];
      (if s[0] in keep then [s[0]] else []) + Filter(s[1..], keep)
  }
}
