/** `slices.SortFunc`: the library sorts in an unspecified (unstable) way, so a sort is any
    ordered permutation. `Sort` is one such permutation; `SortUnique` says when it is the only
    one. */
module Sorting {
  import opened Prelude

  ghost predicate TotalPreorder<T(!new)>(le: (T, T) -> bool) {
    && (forall x, y :: le(x, y) || le(y, x))
    && (forall x, y, z :: le(x, y) && le(y, z) ==> le(x, z))
  }

  predicate Ordered<T>(s: seq<T>, le: (T, T) -> bool) {
    forall i, j :: 0 <= i < j < |s| ==> le(s[i], s[j])
  }

  predicate IsSortOf<T(==)>(r: seq<T>, s: seq<T>, le: (T, T) -> bool) {
    multiset(r) == multiset(s) && Ordered(r, le)
  }

  function Slot<T>(x: T, s: seq<T>, le: (T, T) -> bool): (i: nat)
    ensures i <= |s|
    ensures forall j :: 0 <= j < i ==> !le(x, s[j])
    ensures i < |s| ==> le(x, s[i])
  {
    if s == [] || le(x, s[0]) then 0 else 1 + Slot(x, s[1..], le)
  }

  function Insert<T>(x: T, s: seq<T>, le: (T, T) -> bool): seq<T> {
    var i := Slot(x, s, le);
    s[..i] + [x] + s[i..]
  }

  function Sort<T>(s: seq<T>, le: (T, T) -> bool): seq<T> {
    if s == [] then [] else Insert(s[0], Sort(s[1..], le), le)
  }

  lemma InsertSorts<T(!new)>(x: T, s: seq<T>, le: (T, T) -> bool)
    requires TotalPreorder(le) && Ordered(s, le)
    ensures IsSortOf(Insert(x, s, le), [x] + s, le)
  {
    var i := Slot(x, s, le);
    assert multiset(Insert(x, s, le)) == multiset([x] + s) by {
      assert s == s[..i] + s[i..];
    }
    InsertOrders(x, s, i, le);
  }

  lemma InsertOrders<T(!new)>(x: T, s: seq<T>, i: nat, le: (T, T) -> bool)
    requires TotalPreorder(le) && Ordered(s, le) && i <= |s|
    requires forall j :: 0 <= j < i ==> !le(x, s[j])
    requires i < |s| ==> le(x, s[i])
    ensures Ordered(s[..i] + [x] + s[i..], le)
  {
    var r := s[..i] + [x] + s[i..];
    forall j, k | 0 <= j < k < |r| ensures le(r[j], r[k]) {
      if j < i && k == i {
        assert !le(x, s[j]);
      } else if j == i {
        assert k - 1 == i || le(s[i], s[k - 1]);
        assert le(x, s[i]);
      }
    }
  }

  lemma {:induction false} SortSorts<T(!new)>(s: seq<T>, le: (T, T) -> bool)
    requires TotalPreorder(le)
    ensures IsSortOf(Sort(s, le), s, le)
  {
    if s != [] {
      SortSorts(s[1..], le);
      InsertSorts(s[0], Sort(s[1..], le), le);
      assert s == [s[0]] + s[1..];
    }
  }

  lemma SameMembers<T>(r: seq<T>, s: seq<T>)
    requires multiset(r) == multiset(s)
    ensures |r| == |s|
    ensures forall x :: x in r <==> x in s
  {
    assert |multiset(r)| == |multiset(s)|;
    forall x ensures x in r <==> x in s {
      assert x in r <==> x in multiset(r);
      assert x in s <==> x in multiset(s);
    }
  }

  /** `le` never ties two different elements of `s`. */
  ghost predicate NoTies<T>(s: seq<T>, le: (T, T) -> bool) {
    forall i, j :: 0 <= i < |s| && 0 <= j < |s| && le(s[i], s[j]) && le(s[j], s[i]) ==> s[i] == s[j]
  }

  ghost predicate DistinctBy<T(!new), K(!new)>(s: seq<T>, key: T -> K) {
    forall i, j :: 0 <= i < j < |s| ==> key(s[i]) != key(s[j])
  }

  /** Reordering keeps keys distinct. */
  lemma PermutedDistinct<T(!new), K(!new)>(r: seq<T>, s: seq<T>, key: T -> K)
    requires multiset(r) == multiset(s) && DistinctBy(s, key)
    ensures DistinctBy(r, key)
  {
    SameMembers(r, s);
    forall i, j | 0 <= i < j < |r| ensures key(r[i]) != key(r[j]) {
      if key(r[i]) == key(r[j]) {
        assert r[i] in s && r[j] in s;
        DuplicateCount(r, i, j);
        var a :| 0 <= a < |s| && s[a] == r[i];
        SingleCount(s, a, key);
        assert false;
      }
    }
  }

  lemma DuplicateCount<T>(s: seq<T>, i: nat, j: nat)
    requires i < j < |s|
    ensures s[i] == s[j] ==> multiset(s)[s[i]] >= 2
  {
    assert s == s[..i] + [s[i]] + s[i + 1..j] + [s[j]] + s[j + 1..];
  }

  lemma SingleCount<T(!new), K(!new)>(s: seq<T>, i: nat, key: T -> K)
    requires DistinctBy(s, key) && i < |s|
    ensures multiset(s)[s[i]] == 1
  {
    forall a, b | 0 <= a < b < |s| ensures s[a] != s[b] {
      assert key(s[a]) != key(s[b]);
    }
    DistinctCount(s, s[i]);
  }

  lemma SameHead<T>(r: seq<T>, s: seq<T>, le: (T, T) -> bool)
    requires r != [] && multiset(r) == multiset(s) && Ordered(r, le) && Ordered(s, le)
    requires NoTies(r, le)
    ensures s != [] && r[0] == s[0]
  {
    SameMembers(r, s);
    assert r[0] in s && s[0] in r;
    var i :| 0 <= i < |r| && r[i] == s[0];
    var j :| 0 <= j < |s| && s[j] == r[0];
    if i > 0 && j > 0 {
      assert le(r[0], r[i]) && le(s[0], s[j]);
    }
  }

  lemma SameTail<T>(r: seq<T>, s: seq<T>)
    requires r != [] && s != [] && r[0] == s[0] && multiset(r) == multiset(s)
    ensures multiset(r[1..]) == multiset(s[1..])
  {
    assert r == [r[0]] + r[1..] && s == [] + [r[0]] + s[1..];
    WithoutOne(r[0], r[1..], [], s[1..]);
    assert [] + s[1..] == s[1..];
  }

  lemma TailOrdered<T>(s: seq<T>, le: (T, T) -> bool)
    requires s != [] && Ordered(s, le)
    ensures Ordered(s[1..], le)
    ensures NoTies(s, le) ==> NoTies(s[1..], le)
  {
  }

  /** Two ordered permutations of the same elements are equal when the order never ties two
      different elements. */
  lemma {:induction false} SortUnique<T>(r: seq<T>, s: seq<T>, le: (T, T) -> bool)
    requires multiset(r) == multiset(s) && Ordered(r, le) && Ordered(s, le)
    requires NoTies(r, le)
    ensures r == s
  {
    SameMembers(r, s);
    if r != [] {
      SameHead(r, s, le);
      SameTail(r, s);
      TailOrdered(r, le);
      TailOrdered(s, le);
      SortUnique(r[1..], s[1..], le);
      assert r == [r[0]] + r[1..] && s == [s[0]] + s[1..];
    }
  }

  /** Stand-in for the library call. Callers know only that the result is a sort. */
  method SortFunc<T(==,!new)>(s: seq<T>, le: (T, T) -> bool) returns (r: seq<T>)
    requires TotalPreorder(le)
    ensures IsSortOf(r, s, le)
  {
    r := [];
    var i := 0;
    while i < |s|
      invariant 0 <= i <= |s|
      invariant IsSortOf(r, s[..i], le)
    {
      InsertSorts(s[i], r, le);
      assert s[..i + 1] == s[..i] + [s[i]];
      r := Insert(s[i], r, le);
      i := i + 1;
    }
    assert s[..i] == s;
  }
}
