/** Shared value types and sequence facts: options, the byte-wise string order of Go's
    `cmp.Compare`, and filtering maps over sequences. */
module Prelude {

  datatype Option<+T> = None | Some(value: T)

  datatype Result<+T, +E> = Ok(value: T) | Err(error: E)

  predicate Distinct<T(==)>(s: seq<T>) {
    forall i, j :: 0 <= i < j < |s| ==> s[i] != s[j]
  }

  function Min(a: int, b: int): int {
    if a <= b then a else b
  }

  /** `cmp.Compare(a, b) <= 0` on strings. */
  predicate AtMost(a: string, b: string) {
    if a == "" then true
    else if b == "" then false
    else if a[0] != b[0] then a[0] < b[0]
    else AtMost(a[1..], b[1..])
  }

  lemma {:induction false} AtMostTotal(a: string, b: string)
    ensures AtMost(a, b) || AtMost(b, a)
    ensures AtMost(a, b) && AtMost(b, a) ==> a == b
  {
    if a != "" && b != "" && a[0] == b[0] {
      AtMostTotal(a[1..], b[1..]);
      assert a == [a[0]] + a[1..] && b == [b[0]] + b[1..];
    }
  }

  lemma {:induction false} AtMostTransitive(a: string, b: string, c: string)
    requires AtMost(a, b) && AtMost(b, c)
    ensures AtMost(a, c)
  {
    if a != "" && b != "" && c != "" && a[0] == b[0] == c[0] {
      AtMostTransitive(a[1..], b[1..], c[1..]);
    }
  }

  /** Above every string there is another one. */
  lemma {:induction false} AtMostUnbounded(a: string, c: char)
    ensures AtMost(a, a + [c]) && a != a + [c]
  {
    if a != "" {
      assert (a + [c])[1..] == a[1..] + [c];
      AtMostUnbounded(a[1..], c);
    }
  }

  /** Index `i` is the first at which the two differ. */
  predicate DiffersAt<T(==)>(a: seq<T>, b: seq<T>, i: nat) {
    i < |a| && i < |b| && a[..i] == b[..i] && a[i] != b[i]
  }

  lemma DiffersLater<T>(a: seq<T>, b: seq<T>, i: nat)
    ensures a != [] && b != [] && a[0] == b[0] ==> (DiffersAt(a, b, i + 1) <==> DiffersAt(a[1..], b[1..], i))
    ensures a != [] && b != [] && a[0] == b[0] ==> !DiffersAt(a, b, 0) && (a <= b <==> a[1..] <= b[1..])
    ensures a != [] && b != [] && a[0] != b[0] ==> DiffersAt(a, b, 0) && !DiffersAt(a, b, i + 1) && !(a <= b)
  {
    if a != [] && b != [] && i + 1 < |a| && i + 1 < |b| {
      assert a[..i + 1] == [a[0]] + a[1..][..i] && b[..i + 1] == [b[0]] + b[1..][..i];
    }
    if a != [] && b != [] {
      assert a == [a[0]] + a[1..] && b == [b[0]] + b[1..];
    }
  }

  /** `a` comes before `b` in byte order: as a proper prefix, or by the smaller character where they first
      differ. */
  ghost predicate ComesBefore(a: string, b: string) {
    (a <= b && a != b) || exists i: nat :: DiffersAt(a, b, i) && a[i] < b[i]
  }

  lemma {:induction false} AtMostExactly(a: string, b: string)
    ensures AtMost(a, b) <==> a == b || ComesBefore(a, b)
    ensures !AtMost(b, a) <==> ComesBefore(a, b)
    decreases |a|
  {
    AtMostTotal(a, b);
    if a != "" && b != "" {
      AtMostExactly(a[1..], b[1..]);
      ShiftBefore(a, b);
    }
  }

  lemma ShiftBefore(a: string, b: string)
    requires a != "" && b != ""
    ensures a[0] == b[0] ==> (ComesBefore(a, b) <==> ComesBefore(a[1..], b[1..])) && (a == b <==> a[1..] == b[1..])
    ensures a[0] != b[0] ==> (ComesBefore(a, b) <==> a[0] < b[0])
  {
    DiffersLater(a, b, 0);
    assert a == [a[0]] + a[1..] && b == [b[0]] + b[1..];
    if i: nat :| DiffersAt(a, b, i) && a[i] < b[i] {
      if i > 0 {
        DiffersLater(a, b, i - 1);
        assert a[0] == b[0] ==> DiffersAt(a[1..], b[1..], i - 1) && a[1..][i - 1] < b[1..][i - 1];
      }
    }
    if i: nat :| DiffersAt(a[1..], b[1..], i) && a[1..][i] < b[1..][i] {
      DiffersLater(a, b, i);
      assert a[0] == b[0] ==> DiffersAt(a, b, i + 1) && a[i + 1] < b[i + 1];
    }
  }

  function FilterMap<A, B>(s: seq<A>, f: A -> Option<B>): (r: seq<B>) {
    if s == [] then []
    else (match f(s[0]) case Some(b) => [b] case None => []) + FilterMap(s[1..], f)
  }

  /** One step of a loop that filters and maps `s`: what the rest contributes from index `i` on. */
  lemma FilterMapStep<A, B>(s: seq<A>, i: nat, f: A -> Option<B>, acc: seq<B>)
    requires i < |s|
    ensures f(s[i]).None? ==> acc + FilterMap(s[i..], f) == acc + FilterMap(s[i + 1..], f)
    ensures f(s[i]).Some? ==> acc + FilterMap(s[i..], f) == acc + [f(s[i]).value] + FilterMap(s[i + 1..], f)
  {
    assert s[i..][0] == s[i] && s[i..][1..] == s[i + 1..];
  }

  lemma EmptyExactly<T>(s: seq<T>)
    ensures s == [] <==> forall x :: x !in s
  {
    assert s != [] ==> s[0] in s;
  }

  lemma FilterMapOne<A, B>(x: A, f: A -> Option<B>)
    ensures FilterMap([x], f) == match f(x) case Some(b) => [b] case None => []
  {
    assert [x][1..] == [];
  }

  lemma {:induction false} FilterMapConcat<A, B>(s: seq<A>, t: seq<A>, f: A -> Option<B>)
    ensures FilterMap(s + t, f) == FilterMap(s, f) + FilterMap(t, f)
  {
    if s == [] {
      assert s + t == t;
    } else {
      assert (s + t)[1..] == s[1..] + t;
      FilterMapConcat(s[1..], t, f);
    }
  }

  lemma {:induction false} FilterMapMember<A, B>(s: seq<A>, f: A -> Option<B>, b: B)
    ensures b in FilterMap(s, f) <==> exists a :: a in s && f(a) == Some(b)
  {
    if s != [] {
      FilterMapMember(s[1..], f, b);
      assert s == [s[0]] + s[1..];
    }
  }

  lemma WithoutOne<A>(x: A, s: seq<A>, u: seq<A>, v: seq<A>)
    requires multiset([x] + s) == multiset(u + [x] + v)
    ensures multiset(s) == multiset(u + v)
  {
    assert multiset([x] + s) - multiset{x} == multiset(s);
    assert multiset(u + [x] + v) - multiset{x} == multiset(u + v);
  }

  lemma FilterMapMiddle<A, B>(x: A, s: seq<A>, u: seq<A>, v: seq<A>, f: A -> Option<B>)
    ensures multiset(FilterMap(u + [x] + v, f)) == multiset(FilterMap([x], f)) + multiset(FilterMap(u + v, f))
    ensures FilterMap([x] + s, f) == FilterMap([x], f) + FilterMap(s, f)
  {
    FilterMapConcat(u + [x], v, f);
    FilterMapConcat(u, [x], f);
    FilterMapConcat(u, v, f);
    FilterMapConcat([x], s, f);
  }

  /** Filtering and mapping commute with reordering the input. */
  lemma {:induction false} FilterMapPermutation<A, B>(s: seq<A>, t: seq<A>, f: A -> Option<B>)
    requires multiset(s) == multiset(t)
    ensures multiset(FilterMap(s, f)) == multiset(FilterMap(t, f))
  {
    if s == [] {
      assert |multiset(t)| == |t|;
    } else {
      assert s[0] in multiset(t);
      var i :| 0 <= i < |t| && t[i] == s[0];
      var u, v := t[..i], t[i + 1..];
      assert t == u + [s[0]] + v;
      assert s == [s[0]] + s[1..];
      WithoutOne(s[0], s[1..], u, v);
      FilterMapPermutation(s[1..], u + v, f);
      FilterMapMiddle(s[0], s[1..], u, v, f);
    }
  }

  function Select<T(!new)>(s: seq<T>, keep: T -> bool): (r: seq<T>)
    ensures forall x :: x in r <==> x in s && keep(x)
  {
    if s == [] then [] else (if keep(s[0]) then [s[0]] else []) + Select(s[1..], keep)
  }

  lemma SelectOne<T(!new)>(x: T, keep: T -> bool)
    ensures Select([x], keep) == if keep(x) then [x] else []
  {
    assert [x][1..] == [];
  }

  /** Selecting twice is selecting once by both. */
  lemma {:induction false} SelectBoth<T(!new)>(s: seq<T>, p: T -> bool, q: T -> bool, both: T -> bool)
    requires forall x :: both(x) <==> p(x) && q(x)
    ensures Select(Select(s, p), q) == Select(s, both)
  {
    if s != [] {
      SelectBoth(s[1..], p, q, both);
      var rest := Select(s[1..], p);
      if p(s[0]) {
        assert Select(s, p) == [s[0]] + rest && ([s[0]] + rest)[1..] == rest;
      } else {
        assert Select(s, p) == rest;
      }
    }
  }

  lemma SelectStep<T(!new)>(s: seq<T>, i: nat, keep: T -> bool, acc: seq<T>)
    requires i < |s|
    ensures acc + Select(s[i..], keep) == (if keep(s[i]) then acc + [s[i]] else acc) + Select(s[i + 1..], keep)
  {
    assert s[i..][0] == s[i] && s[i..][1..] == s[i + 1..];
  }

  lemma {:induction false} SelectAll<T(!new)>(s: seq<T>, keep: T -> bool)
    requires forall x :: x in s ==> keep(x)
    ensures Select(s, keep) == s
  {
    if s != [] {
      assert s[0] in s && forall x :: x in s[1..] ==> x in s;
      SelectAll(s[1..], keep);
    }
  }

  lemma {:induction false} SelectSame<T(!new)>(s: seq<T>, f: T -> bool, h: T -> bool)
    requires forall x :: x in s ==> (f(x) <==> h(x))
    ensures Select(s, f) == Select(s, h)
  {
    if s != [] {
      assert s[0] in s && forall x :: x in s[1..] ==> x in s;
      SelectSame(s[1..], f, h);
    }
  }

  /** Two selections from a list agree exactly when they decide alike on all its elements. */
  lemma SelectAgree<T(!new)>(s: seq<T>, f: T -> bool, h: T -> bool)
    ensures Select(s, f) == Select(s, h) <==> forall x :: x in s ==> (f(x) <==> h(x))
  {
    if forall x :: x in s ==> (f(x) <==> h(x)) {
      SelectSame(s, f, h);
    } else {
      var x :| x in s && f(x) != h(x);
      assert x in Select(s, f) <==> x !in Select(s, h);
    }
  }

  /** `a` is `b` with elements left out and none moved. */
  predicate Subsequence<T(==)>(a: seq<T>, b: seq<T>) {
    a == [] || (b != [] && if a[0] == b[0] then Subsequence(a[1..], b[1..]) else Subsequence(a, b[1..]))
  }

  lemma {:induction false} SelectIsSubsequence<T(!new)>(s: seq<T>, keep: T -> bool)
    ensures Subsequence(Select(s, keep), s)
  {
    if s != [] {
      SelectIsSubsequence(s[1..], keep);
      var r := Select(s, keep);
      if keep(s[0]) {
        assert r[1..] == Select(s[1..], keep);
      } else {
        assert r == Select(s[1..], keep);
        assert r != [] ==> r[0] in r;
      }
    }
  }

  lemma {:induction false} DistinctCount<T>(s: seq<T>, x: T)
    requires Distinct(s) && x in s
    ensures multiset(s)[x] == 1
  {
    var i :| 0 <= i < |s| && s[i] == x;
    assert s == s[..i] + [x] + s[i + 1..];
    assert x !in s[..i] && x !in s[i + 1..];
    assert x !in multiset(s[..i]) && x !in multiset(s[i + 1..]);
  }

  /** Two lists without repetitions and with the same members are permutations of each other. */
  lemma SameDistinctMembers<T>(a: seq<T>, b: seq<T>)
    requires Distinct(a) && Distinct(b) && forall x :: x in a <==> x in b
    ensures multiset(a) == multiset(b)
  {
    forall x ensures multiset(a)[x] == multiset(b)[x] {
      if x in a {
        DistinctCount(a, x);
        DistinctCount(b, x);
      } else {
        assert x !in multiset(a) && x !in multiset(b);
      }
    }
  }

  /** The elements of a set, listed once each. */
  lemma {:induction false} Enumeration<T>(s: set<T>) returns (r: seq<T>)
    ensures Distinct(r) && forall x :: x in r <==> x in s
    decreases s
  {
    if s == {} {
      r := [];
    } else {
      var x :| x in s;
      var rest := Enumeration(s - {x});
      r := rest + [x];
    }
  }
}
