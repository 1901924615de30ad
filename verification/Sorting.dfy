/**
  The library sorts of the source (`sort_by`, `sort_by_key`, `sort_unstable`), as insertion
  sort, with the facts every use needs: the elements are kept and end up in order.
 */
module Sorting {
  /** A total preorder on `T`. */
  ghost predicate Orders<T(!new)>(leq: (T, T) -> bool) {
    && (forall a, b :: leq(a, b) || leq(b, a))
    && (forall a, b, c :: leq(a, b) && leq(b, c) ==> leq(a, c))
  }

  ghost predicate Sorted<T>(s: seq<T>, leq: (T, T) -> bool) {
    forall i, j :: 0 <= i < j < |s| ==> leq(s[i], s[j])
  }

  function Insertion<T>(x: T, s: seq<T>, leq: (T, T) -> bool): (r: seq<T>)
    ensures multiset(r) == multiset(s) + multiset{x}
  {
    if s == [] then [x]
    else
      assert s == [s[0]] + s[1..];
      if leq(x, s[0]) then [x] + s else [s[0]] + Insertion(x, s[1..], leq)
  }

  function Sort<T>(s: seq<T>, leq: (T, T) -> bool): (r: seq<T>)
    ensures multiset(r) == multiset(s)
  {
    if s == [] then []
    else
      assert s == [s[0]] + s[1..];
      Insertion(s[0], Sort(s[1..], leq), leq)
  }

  lemma SameElements<T>(s: seq<T>, r: seq<T>, x: T)
    requires multiset(s) == multiset(r)
    ensures x in s <==> x in r
  {
    assert x in s <==> x in multiset(s);
    assert x in r <==> x in multiset(r);
  }

  lemma {:induction false} InsertionSorted<T(!new)>(x: T, s: seq<T>, leq: (T, T) -> bool)
    requires Orders(leq) && Sorted(s, leq)
    ensures Sorted(Insertion(x, s, leq), leq)
  {
    if s != [] && !leq(x, s[0]) {
      var tail := Insertion(x, s[1..], leq);
      InsertionSorted(x, s[1..], leq);
      forall i | 0 <= i < |tail| ensures leq(s[0], tail[i]) {
        assert tail[i] in multiset(tail);
        assert tail[i] == x || tail[i] in s[1..];
      }
    }
  }

  lemma {:induction false} SortSorted<T(!new)>(s: seq<T>, leq: (T, T) -> bool)
    requires Orders(leq)
    ensures Sorted(Sort(s, leq), leq)
  {
    if s != [] {
      SortSorted(s[1..], leq);
      InsertionSorted(s[0], Sort(s[1..], leq), leq);
    }
  }

  // ------------------------------------------------------------------ removing repeats

  /** The first occurrence of every element, in order. */
  function Dedup<T(==)>(s: seq<T>): seq<T> {
    if s == [] then []
    else
      var init, x := s[..|s| - 1], s[|s| - 1];
      if x in init then Dedup(init) else Dedup(init) + [x]
  }

  lemma {:induction false} DedupElements<T>(s: seq<T>, x: T)
    ensures x in Dedup(s) <==> x in s
  {
    if s != [] {
      var init := s[..|s| - 1];
      DedupElements(init, x);
      assert s == init + [s[|s| - 1]];
    }
  }

  ghost predicate StrictlySorted<T>(s: seq<T>, leq: (T, T) -> bool) {
    forall i, j :: 0 <= i < j < |s| ==> leq(s[i], s[j]) && s[i] != s[j]
  }

  lemma {:induction false} DedupSorted<T>(s: seq<T>, leq: (T, T) -> bool)
    requires Sorted(s, leq)
    ensures StrictlySorted(Dedup(s), leq)
  {
    if s != [] {
      var init, x := s[..|s| - 1], s[|s| - 1];
      DedupSorted(init, leq);
      var d := Dedup(init);
      forall i | 0 <= i < |d| && x !in init ensures leq(d[i], x) && d[i] != x {
        DedupElements(init, d[i]);
        var k :| 0 <= k < |init| && init[k] == d[i];
        assert s[k] == d[i];
      }
    }
  }

  /** Under an antisymmetric order a set has only one strictly sorted listing. */
  lemma {:induction false} ListingUnique<T>(s: seq<T>, r: seq<T>, leq: (T, T) -> bool)
    requires StrictlySorted(s, leq) && StrictlySorted(r, leq)
    requires forall x :: x in s <==> x in r
    requires forall x, y :: x in s && y in s && leq(x, y) && leq(y, x) ==> x == y
    ensures s == r
  {
    assert r != [] ==> r[0] in r;
    assert s != [] ==> s[0] in s;
    if s != [] {
      var s', x := s[..|s| - 1], s[|s| - 1];
      var r' := r[..|r| - 1];
      SameLast(s, r, leq);
      assert s == s' + [x] && r == r' + [x];
      forall z ensures z in s' <==> z in r' {
        InitWithoutLast(s, leq, z);
        InitWithoutLast(r, leq, z);
      }
      ListingUnique(s', r', leq);
    }
  }

  lemma SameLast<T>(s: seq<T>, r: seq<T>, leq: (T, T) -> bool)
    requires s != [] && r != [] && StrictlySorted(s, leq) && StrictlySorted(r, leq)
    requires forall x :: x in s <==> x in r
    requires forall x, y :: x in s && y in s && leq(x, y) && leq(y, x) ==> x == y
    ensures s[|s| - 1] == r[|r| - 1]
  {
    var x, y := s[|s| - 1], r[|r| - 1];
    assert x in s && x in r && y in r && y in s;
    LastIsGreatest(s, y, leq);
    LastIsGreatest(r, x, leq);
  }

  lemma InitWithoutLast<T>(s: seq<T>, leq: (T, T) -> bool, x: T)
    requires s != [] && StrictlySorted(s, leq)
    ensures x in s[..|s| - 1] <==> x in s && x != s[|s| - 1]
  {
    assert s == s[..|s| - 1] + [s[|s| - 1]];
  }

  lemma LastIsGreatest<T>(s: seq<T>, x: T, leq: (T, T) -> bool)
    requires StrictlySorted(s, leq) && x in s
    ensures x == s[|s| - 1] || leq(x, s[|s| - 1])
  {
  }

  /** `Vec::dedup`: drop an element equal to the one before it. */
  function DedupAdjacent<T(==)>(s: seq<T>): seq<T> {
    if |s| <= 1 then s
    else
      var init := DedupAdjacent(s[..|s| - 1]);
      if s[|s| - 1] == s[|s| - 2] then init else init + [s[|s| - 1]]
  }

  lemma {:induction false} DedupAdjacentElements<T>(s: seq<T>, x: T)
    ensures x in DedupAdjacent(s) <==> x in s
  {
    if |s| > 1 {
      var init := s[..|s| - 1];
      DedupAdjacentElements(init, x);
      assert s == init + [s[|s| - 1]];
      assert s[|s| - 2] == init[|init| - 1];
    }
  }

  /** On a list sorted by an antisymmetric order, adjacent repeats are all the repeats. */
  lemma {:induction false} DedupAdjacentSorted<T>(s: seq<T>, leq: (T, T) -> bool)
    requires Sorted(s, leq)
    requires forall x, y :: x in s && y in s && leq(x, y) && leq(y, x) ==> x == y
    ensures StrictlySorted(DedupAdjacent(s), leq)
  {
    if |s| > 1 {
      var init, x := s[..|s| - 1], s[|s| - 1];
      DedupAdjacentSorted(init, leq);
      var d := DedupAdjacent(init);
      forall i | 0 <= i < |d| && x != s[|s| - 2] ensures leq(d[i], x) && d[i] != x {
        DedupAdjacentElements(init, d[i]);
        var k :| 0 <= k < |init| && init[k] == d[i];
        assert s[k] == d[i];
        if k < |s| - 2 { assert leq(s[k], s[|s| - 2]) && leq(s[|s| - 2], x); }
      }
    }
  }

  // ------------------------------------------------------------------ no repeats

  ghost predicate Distinct<T>(s: seq<T>) {
    forall i, j :: 0 <= i < j < |s| ==> s[i] != s[j]
  }

  lemma {:induction false} DistinctCount<T>(s: seq<T>, x: T)
    requires Distinct(s)
    ensures multiset(s)[x] <= 1
  {
    if s != [] {
      var init, last := s[..|s| - 1], s[|s| - 1];
      assert s == init + [last];
      DistinctCount(init, x);
      assert x == last ==> x !in init;
    }
  }

  lemma CountDistinct<T>(s: seq<T>)
    requires forall x :: multiset(s)[x] <= 1
    ensures Distinct(s)
  {
    forall i, j | 0 <= i < j < |s| ensures s[i] != s[j] {
      assert s == s[..j] + [s[j]] + s[j + 1..];
      assert s[..j][i] == s[i];
      assert s[i] in multiset(s[..j]);
      assert multiset(s)[s[j]] >= multiset(s[..j])[s[j]] + 1;
    }
  }

  lemma SortDistinct<T>(s: seq<T>, leq: (T, T) -> bool)
    requires Distinct(s)
    ensures Distinct(Sort(s, leq))
  {
    forall x ensures multiset(Sort(s, leq))[x] <= 1 {
      DistinctCount(s, x);
    }
    CountDistinct(Sort(s, leq));
  }
}
