/** A window of ranks cut out of a list that a library sorted by a total preorder. Ties let the sort choose;
    this says exactly when the choice cannot be seen: neither in what the window holds nor in its last
    element. */
module RankWindows {
  import opened Prelude
  import opened Sorting

  /** How many elements come strictly before `v` in every sorted list. */
  ghost function Before<T(!new)>(all: set<T>, v: T, le: (T, T) -> bool): nat {
    |set u | u in all && !le(v, u)|
  }

  /** How many elements come before `v` or tie with it, `v` included. */
  ghost function Through<T(!new)>(all: set<T>, v: T, le: (T, T) -> bool): nat {
    |set u | u in all && le(u, v)|
  }

  /** The window is empty, or no tie class lies across its lower bound and its last rank is the only rank of
      a class. */
  ghost predicate Decided<T(!new)>(all: set<T>, lo: nat, hi: nat, le: (T, T) -> bool) {
    lo < hi ==> forall v :: v in all ==> ClassFits(all, v, lo, hi, le)
  }

  ghost predicate ClassFits<T(!new)>(all: set<T>, v: T, lo: nat, hi: nat, le: (T, T) -> bool) {
    && !(Before(all, v, le) < lo < Through(all, v, le))
    && (Before(all, v, le) < hi <= Through(all, v, le) ==> Through(all, v, le) == Before(all, v, le) + 1)
  }

  /** A sorted list of all elements. */
  ghost predicate Ranked<T(!new)>(s: seq<T>, all: set<T>, le: (T, T) -> bool) {
    Distinct(s) && (forall v :: v in s <==> v in all) && Ordered(s, le)
  }

  lemma {:induction false} DistinctSize<T>(s: seq<T>)
    requires Distinct(s)
    ensures |set x | x in s| == |s|
  {
    if s != [] {
      var init, last := s[..|s| - 1], s[|s| - 1];
      DistinctSize(init);
      assert s == init + [last];
      assert (set x | x in s) == (set x | x in init) + {last};
    }
  }

  lemma {:induction false} SubsetSize<T>(a: set<T>, b: set<T>)
    requires a <= b
    ensures |a| <= |b|
    decreases a
  {
    if x :| x in a {
      SubsetSize(a - {x}, b - {x});
    }
  }

  lemma RankedSize<T(!new)>(s: seq<T>, all: set<T>, le: (T, T) -> bool)
    requires Ranked(s, all, le)
    ensures |s| == |all|
  {
    DistinctSize(s);
    assert all == set x | x in s;
  }

  lemma ThroughAtMost<T(!new)>(all: set<T>, v: T, le: (T, T) -> bool)
    ensures Through(all, v, le) <= |all|
  {
    var upto := set u | u in all && le(u, v);
    SubsetSize(upto, all);
  }

  lemma CountedBy<T(!new)>(all: set<T>, v: T, le: (T, T) -> bool, before: set<T>, through: set<T>)
    requires forall u :: u in before <==> u in all && !le(v, u)
    requires forall u :: u in through <==> u in all && le(u, v)
    ensures Before(all, v, le) == |before| && Through(all, v, le) == |through|
  {
    assert before == set u | u in all && !le(v, u);
    assert through == set u | u in all && le(u, v);
  }

  /** Whatever precedes index `n` of a ranked list and nothing else: a bound for the size of a set. */
  lemma PrefixSize<T(!new)>(s: seq<T>, all: set<T>, le: (T, T) -> bool, n: nat, part: set<T>)
    requires Ranked(s, all, le) && n <= |s|
    ensures (forall u :: u in part ==> u in s[..n]) ==> |part| <= n
    ensures (forall u :: u in s[..n] ==> u in part) ==> n <= |part|
  {
    var prefix := set u | u in s[..n];
    DistinctSize(s[..n]);
    if forall u :: u in part ==> u in s[..n] {
      SubsetSize(part, prefix);
    }
    if forall u :: u in s[..n] ==> u in part {
      SubsetSize(prefix, part);
    }
  }

  lemma InPrefix<T(!new)>(s: seq<T>, all: set<T>, le: (T, T) -> bool, u: T, n: nat)
    requires Ranked(s, all, le) && n <= |s| && u in all
    ensures (forall i :: n <= i < |s| ==> s[i] != u) ==> u in s[..n]
  {
    var i :| 0 <= i < |s| && s[i] == u;
    assert i < n ==> s[..n][i] == u;
  }

  /** An element sits at one of the ranks of its class. */
  lemma Position<T(!new)>(s: seq<T>, all: set<T>, le: (T, T) -> bool, i: nat)
    requires TotalPreorder(le) && Ranked(s, all, le) && i < |s|
    ensures Before(all, s[i], le) <= i < Through(all, s[i], le)
  {
    var before := set u | u in all && !le(s[i], u);
    forall u | u in before ensures u in s[..i] {
      InPrefix(s, all, le, u, i);
    }
    PrefixSize(s, all, le, i, before);
    var upto := set u | u in all && le(u, s[i]);
    forall u | u in s[..i + 1] ensures u in upto {
      var j :| 0 <= j < i + 1 && s[j] == u;
      assert le(s[j], s[i]);
    }
    PrefixSize(s, all, le, i + 1, upto);
  }

  /** All ranks of a class hold its elements. */
  lemma ClassAt<T(!new)>(s: seq<T>, all: set<T>, le: (T, T) -> bool, v: T, p: nat)
    requires TotalPreorder(le) && Ranked(s, all, le) && v in all && p < |s|
    requires Before(all, v, le) <= p < Through(all, v, le)
    ensures le(s[p], v) && le(v, s[p])
  {
    if !le(s[p], v) {
      var upto := set u | u in all && le(u, v);
      forall u | u in upto ensures u in s[..p] {
        InPrefix(s, all, le, u, p);
      }
      PrefixSize(s, all, le, p, upto);
      assert false;
    }
    if !le(v, s[p]) {
      var before := set u | u in all && !le(v, u);
      forall u | u in s[..p + 1] ensures u in before {
        var j :| 0 <= j < p + 1 && s[j] == u;
        assert le(s[j], s[p]);
      }
      PrefixSize(s, all, le, p + 1, before);
      assert false;
    }
  }

  /** When the window is decided all sorted lists agree on what it holds and on its last element. */
  lemma DecidedWindow<T(!new)>(x: seq<T>, y: seq<T>, all: set<T>, lo: nat, hi: nat, le: (T, T) -> bool)
    requires TotalPreorder(le) && Ranked(x, all, le) && Ranked(y, all, le)
    requires |x| == |y| && lo <= hi <= |x| && Decided(all, lo, hi, le)
    ensures forall v :: v in x[lo..hi] <==> v in y[lo..hi]
    ensures lo < hi ==> x[hi - 1] == y[hi - 1]
  {
    forall i | lo <= i < hi ensures x[i] in y[lo..hi] && (i == hi - 1 ==> y[i] == x[i]) {
      StaysInWindow(x, y, all, lo, hi, le, i);
    }
    forall i | lo <= i < hi ensures y[i] in x[lo..hi] {
      StaysInWindow(y, x, all, lo, hi, le, i);
    }
  }

  lemma StaysInWindow<T(!new)>(x: seq<T>, y: seq<T>, all: set<T>, lo: nat, hi: nat, le: (T, T) -> bool, i: nat)
    requires TotalPreorder(le) && Ranked(x, all, le) && Ranked(y, all, le)
    requires |x| == |y| && lo <= i < hi <= |x| && Decided(all, lo, hi, le)
    ensures x[i] in y[lo..hi] && (i == hi - 1 ==> y[i] == x[i])
  {
    var v := x[i];
    assert v in all by {
      assert v in x;
    }
    Position(x, all, le, i);
    var j := PlaceOf(y, all, le, v);
    assert ClassFits(all, v, lo, hi, le);
    var before, through := Before(all, v, le), Through(all, v, le);
    assert lo <= j < hi;
    assert y[lo..hi][j - lo] == v;
    assert i == hi - 1 ==> before == i == j;
  }

  lemma PlaceOf<T(!new)>(y: seq<T>, all: set<T>, le: (T, T) -> bool, v: T) returns (j: nat)
    requires TotalPreorder(le) && Ranked(y, all, le) && v in all
    ensures j < |y| && y[j] == v && Before(all, v, le) <= j < Through(all, v, le)
  {
    assert v in y;
    j :| 0 <= j < |y| && y[j] == v;
    Position(y, all, le, j);
  }

  lemma SwapRanked<T(!new)>(x: seq<T>, all: set<T>, le: (T, T) -> bool, p: nat) returns (y: seq<T>)
    requires TotalPreorder(le) && Ranked(x, all, le) && p + 1 < |x| && le(x[p + 1], x[p])
    ensures Ranked(y, all, le) && |y| == |x| && y == x[p := x[p + 1]][p + 1 := x[p]]
  {
    y := x[p := x[p + 1]][p + 1 := x[p]];
    forall v ensures v in y <==> v in x {
      assert y[p] in y && y[p + 1] in y && x[p] in x && x[p + 1] in x;
      if i :| 0 <= i < |x| && x[i] == v && i != p && i != p + 1 {
        assert y[i] == v;
      }
      if i :| 0 <= i < |y| && y[i] == v && i != p && i != p + 1 {
        assert x[i] == v;
      }
    }
    forall i, j | 0 <= i < j < |y| ensures y[i] != y[j] && le(y[i], y[j]) {
      var a := if i == p then p + 1 else if i == p + 1 then p else i;
      var b := if j == p then p + 1 else if j == p + 1 then p else j;
      assert y[i] == x[a] && y[j] == x[b] && a != b;
      assert a < b ==> le(x[a], x[b]);
    }
  }

  /** When it is not decided two neighbours tie across the lower bound or at the last rank. */
  lemma TiedNeighbours<T(!new)>(x: seq<T>, all: set<T>, lo: nat, hi: nat, le: (T, T) -> bool) returns (p: nat)
    requires TotalPreorder(le) && Ranked(x, all, le) && lo <= hi <= |x| && !Decided(all, lo, hi, le)
    ensures lo < hi && p + 1 < |x| && le(x[p + 1], x[p])
    ensures p + 1 == lo || p + 1 == hi || p + 2 == hi
  {
    var v :| v in all && !ClassFits(all, v, lo, hi, le);
    RankedSize(x, all, le);
    ThroughAtMost(all, v, le);
    var through := Through(all, v, le);
    p := if Before(all, v, le) < lo < through then lo - 1 else if hi < through then hi - 1 else hi - 2;
    TiedAt(x, all, le, v, p);
  }

  lemma TiedAt<T(!new)>(x: seq<T>, all: set<T>, le: (T, T) -> bool, v: T, p: nat)
    requires TotalPreorder(le) && Ranked(x, all, le) && v in all && p + 1 < |x|
    requires Before(all, v, le) <= p && p + 1 < Through(all, v, le)
    ensures le(x[p + 1], x[p])
  {
    ClassAt(x, all, le, v, p);
    ClassAt(x, all, le, v, p + 1);
  }

  /** Some other sorted list then differs from a given one in what the window holds or in its last element. */
  lemma UndecidedWindow<T(!new)>(x: seq<T>, all: set<T>, lo: nat, hi: nat, le: (T, T) -> bool) returns (y: seq<T>)
    requires TotalPreorder(le) && Ranked(x, all, le) && lo <= hi <= |x| && !Decided(all, lo, hi, le)
    ensures Ranked(y, all, le) && |y| == |x| && lo < hi
    ensures y[hi - 1] != x[hi - 1] || (x[lo] in x[lo..hi] && x[lo] !in y[lo..hi])
  {
    var p := TiedNeighbours(x, all, lo, hi, le);
    y := SwapRanked(x, all, le, p);
    if p + 1 == lo {
      assert x[lo..hi][0] == x[lo];
      assert y[lo - 1] == x[lo];
    }
  }

  /** Two elements that do not tie: one ranking, and every window is decided. */
  lemma TwoRanked<T(!new)>(v: T, w: T, lo: nat, hi: nat, le: (T, T) -> bool)
    requires TotalPreorder(le) && v != w && le(v, w) && !le(w, v)
    ensures Ranked([v, w], {v, w}, le) && Decided({v, w}, lo, hi, le)
  {
    CountedBy({v, w}, v, le, {}, {v});
    CountedBy({v, w}, w, le, {v}, {v} + {w});
    assert {v} * {w} == {};
    assert ClassFits({v, w}, v, lo, hi, le) && ClassFits({v, w}, w, lo, hi, le);
  }
}
