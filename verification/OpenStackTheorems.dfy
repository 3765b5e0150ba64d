/** What `Configure` of the OpenStack provider guarantees: canonical region lists, the last id
    written wins, repeating it changes nothing, and when an entry can hold regions and flavors. */
module OpenStackTheorems {
  import opened Prelude
  import opened Sorting
  import opened Keyed
  import opened Images
  import opened OpenStackProvider

  // ---------------------------------------------------------------- region lists

  predicate UniqueNames(regions: RegionList) {
    Distinct(Keys(regions))
  }

  predicate Canonical(regions: RegionList) {
    UniqueNames(regions) && Ordered(regions, NameThenId)
  }

  function IdOf(regions: RegionList, name: string): Option<string> {
    Find(regions, name, First)
  }

  /** The id the last of these mappings gives to a region. */
  function LastId(add: seq<RegionImage>, name: string): Option<string> {
    if add == [] then None
    else if LastId(add[1..], name).Some? then LastId(add[1..], name)
    else if add[0].region == name then Some(add[0].id)
    else None
  }

  /** Mapping `i` is the last of the region. */
  predicate LastOf(add: seq<RegionImage>, name: string, i: nat) {
    i < |add| && add[i].region == name && forall j :: i < j < |add| ==> add[j].region != name
  }

  lemma LastIdExactly(add: seq<RegionImage>, name: string)
    ensures LastId(add, name).None? <==> forall r :: r in add ==> r.region != name
    ensures forall i: nat :: LastOf(add, name, i) ==> LastId(add, name) == Some(add[i].id)
  {
    LastIdSome(add, name);
    forall i: nat | LastOf(add, name, i) ensures LastId(add, name) == Some(add[i].id) {
      LastIdAt(add, name, i);
    }
  }

  lemma {:induction false} LastIdSome(add: seq<RegionImage>, name: string)
    ensures LastId(add, name).None? <==> forall r :: r in add ==> r.region != name
  {
    if add != [] {
      LastIdSome(add[1..], name);
      assert add == [add[0]] + add[1..];
    }
  }

  lemma {:induction false} LastIdAt(add: seq<RegionImage>, name: string, i: nat)
    requires LastOf(add, name, i)
    ensures LastId(add, name) == Some(add[i].id)
  {
    if i > 0 {
      assert forall j :: i - 1 < j < |add[1..]| ==> add[1..][j] == add[j + 1];
      LastIdAt(add[1..], name, i - 1);
    } else {
      LastIdSome(add[1..], name);
    }
  }

  function Override(current: Option<string>, written: Option<string>): Option<string> {
    if written.Some? then written else current
  }

  lemma {:induction false} FoldRegions(c: Option<string>, add: seq<RegionImage>, name: string)
    ensures FoldKey(c, RegionWrites(add), name) == Override(c, LastId(add, name))
    decreases |add|
  {
    if add != [] {
      assert RegionWrites(add)[1..] == RegionWrites(add[1..]);
      FoldRegions(if add[0].region == name then Some(add[0].id) else c, add[1..], name);
    }
  }

  lemma IdOfMember(regions: RegionList, i: nat)
    requires UniqueNames(regions) && i < |regions|
    ensures IdOf(regions, regions[i].key) == Some(regions[i].body)
  {
    var j := Locate(regions, regions[i].key, First);
    assert Keys(regions)[i] == Keys(regions)[j];
  }

  /** Reordering a list with unique names keeps the names unique and every id. */
  lemma PermutedRegions(r: RegionList, s: RegionList)
    requires multiset(r) == multiset(s) && UniqueNames(s)
    ensures UniqueNames(r)
    ensures forall n :: IdOf(r, n) == IdOf(s, n)
  {
    SameMembers(r, s);
    var name := (e: RegionIDMapping) => e.key;
    forall i, j | 0 <= i < j < |s| ensures name(s[i]) != name(s[j]) {
      assert Keys(s)[i] != Keys(s)[j];
    }
    PermutedDistinct(r, s, name);
    forall i, j | 0 <= i < j < |r| ensures Keys(r)[i] != Keys(r)[j] {
      assert name(r[i]) != name(r[j]);
    }
    forall n ensures IdOf(r, n) == IdOf(s, n) {
      var a, b := Locate(r, n, First), Locate(s, n, First);
      if a != -1 {
        assert r[a] in s;
        var c :| 0 <= c < |s| && s[c] == r[a];
        IdOfMember(s, c);
      }
      if b != -1 {
        assert s[b] in r;
        var c :| 0 <= c < |r| && r[c] == s[b];
        IdOfMember(r, c);
      }
    }
  }

  lemma UniqueNamesDistinct(s: RegionList)
    requires UniqueNames(s)
    ensures Distinct(s)
  {
    forall a, b | 0 <= a < b < |s| ensures s[a] != s[b] {
      assert Keys(s)[a] != Keys(s)[b];
    }
  }

  /** A canonical list is determined by its ids. */
  lemma {:induction false} CanonicalUnique(r: RegionList, s: RegionList)
    requires Canonical(r) && Canonical(s)
    requires forall n :: IdOf(r, n) == IdOf(s, n)
    ensures r == s
  {
    SubsetOfRegions(r, s);
    SubsetOfRegions(s, r);
    UniqueNamesDistinct(r);
    UniqueNamesDistinct(s);
    SameDistinctMembers(r, s);
    NameThenIdOrder();
    SortUnique(r, s, NameThenId);
  }

  lemma SubsetOfRegions(r: RegionList, s: RegionList)
    requires UniqueNames(r) && forall n :: IdOf(r, n) == IdOf(s, n)
    ensures forall x :: x in r ==> x in s
  {
    forall i | 0 <= i < |r| ensures r[i] in s {
      IdOfMember(r, i);
      var j := Locate(s, r[i].key, First);
      assert IdOf(s, r[i].key) == Some(r[i].body);
      assert s[j] == r[i];
    }
  }

  /** A touched list is sorted by name and id, has unique names, and maps each region to the last id
      written, or to its old id. */
  lemma TouchedRegions(regions: RegionList, add: seq<RegionImage>)
    requires UniqueNames(regions)
    ensures Canonical(Touch(regions, add))
    ensures forall n :: IdOf(Touch(regions, add), n) == Override(IdOf(regions, n), LastId(add, n))
  {
    var r := PutAll(regions, RegionWrites(add), First);
    PutAllDistinct(regions, RegionWrites(add), First);
    NameThenIdOrder();
    SortSorts(r, NameThenId);
    PermutedRegions(Touch(regions, add), r);
    forall n ensures IdOf(r, n) == Override(IdOf(regions, n), LastId(add, n)) {
      PutAllFind(regions, RegionWrites(add), First, n);
      FoldRegions(IdOf(regions, n), add, n);
    }
  }

  lemma AppendedAt(regions: RegionList, add: seq<RegionImage>, i: nat)
    requires |regions| <= i < |PutAll(regions, RegionWrites(add), First)|
    ensures var r := PutAll(regions, RegionWrites(add), First);
            Locate(r, r[i].key, First) == i && r[i].key !in Keys(regions) && LastId(add, r[i].key) == Some(r[i].body)
  {
    var r := PutAll(regions, RegionWrites(add), First);
    PutAllAppended(regions, RegionWrites(add), First, i);
    IdAfter(regions, add, r[i].key);
    FindPresence(regions, r[i].key, First);
  }

  lemma NewRegionAppended(regions: RegionList, add: seq<RegionImage>, e: RegionIDMapping)
    requires e.key !in Keys(regions) && LastId(add, e.key) == Some(e.body)
    ensures var r := PutAll(regions, RegionWrites(add), First); |regions| <= |r| && e in r[|regions|..]
  {
    var r := PutAll(regions, RegionWrites(add), First);
    PutAllGrows(regions, RegionWrites(add), First);
    IdAfter(regions, add, e.key);
    FindPresence(regions, e.key, First);
    var i := Locate(r, e.key, First);
    if i < |regions| {
      PutAllPrefix(regions, RegionWrites(add), First, i);
      assert false;
    }
    assert r[|regions|..][i - |regions|] == e;
  }

  /** What an upsert of mappings appends: each new region once, with its last id. */
  lemma AppendedRegions(regions: RegionList, add: seq<RegionImage>)
    ensures var r := PutAll(regions, RegionWrites(add), First);
            && |regions| <= |r| && Distinct(r[|regions|..])
            && forall e :: e in r[|regions|..] <==> e.key !in Keys(regions) && LastId(add, e.key) == Some(e.body)
  {
    var n, r := |regions|, PutAll(regions, RegionWrites(add), First);
    PutAllGrows(regions, RegionWrites(add), First);
    forall i, j | n <= i < j < |r| ensures r[i] != r[j] {
      AppendedAt(regions, add, i);
      AppendedAt(regions, add, j);
    }
    forall i | n <= i < |r| ensures r[i].key !in Keys(regions) && LastId(add, r[i].key) == Some(r[i].body) {
      AppendedAt(regions, add, i);
    }
    forall e: RegionIDMapping | e.key !in Keys(regions) && LastId(add, e.key) == Some(e.body) ensures e in r[n..] {
      NewRegionAppended(regions, add, e);
    }
  }

  lemma IdAfter(regions: RegionList, add: seq<RegionImage>, name: string)
    ensures Find(PutAll(regions, RegionWrites(add), First), name, First) ==
              Override(IdOf(regions, name), LastId(add, name))
  {
    PutAllFind(regions, RegionWrites(add), First, name);
    FoldRegions(IdOf(regions, name), add, name);
  }

  /** What it does to an old mapping: the first of a name takes the last id written, the others stay. */
  lemma OldRegion(regions: RegionList, add: seq<RegionImage>, i: nat)
    requires i < |regions|
    ensures var r, e := PutAll(regions, RegionWrites(add), First), regions[i];
            && |regions| <= |r| && Locate(r, e.key, First) == Locate(regions, e.key, First)
            && r[i] == if Locate(regions, e.key, First) == i && LastId(add, e.key).Some?
                       then Entry(e.key, LastId(add, e.key).value) else e
  {
    var ws := RegionWrites(add);
    PutAllPrefix(regions, ws, First, i);
    if Locate(regions, regions[i].key, First) == i {
      IdAfter(regions, add, regions[i].key);
    } else {
      PutAllFrame(regions, ws, First, i);
    }
  }

  lemma TouchSorts(regions: RegionList, add: seq<RegionImage>)
    ensures IsSortOf(Touch(regions, add), PutAll(regions, RegionWrites(add), First), NameThenId)
    ensures Ordered(Touch(regions, add), NameThenId) && NoTies(Touch(regions, add), NameThenId)
  {
    NameThenIdOrder();
    SortSorts(PutAll(regions, RegionWrites(add), First), NameThenId);
  }

  ghost predicate SameLastIds(add: seq<RegionImage>, other: seq<RegionImage>) {
    forall n :: LastId(add, n) == LastId(other, n)
  }

  lemma OldRegionsAgree(regions: RegionList, add: seq<RegionImage>, other: seq<RegionImage>, i: nat)
    requires SameLastIds(add, other) && i < |regions|
    ensures var r, s := PutAll(regions, RegionWrites(add), First), PutAll(regions, RegionWrites(other), First);
            |regions| <= |r| && |regions| <= |s| && r[i] == s[i]
  {
    OldRegion(regions, add, i);
    OldRegion(regions, other, i);
  }

  lemma NewRegionsAgree(regions: RegionList, add: seq<RegionImage>, other: seq<RegionImage>)
    requires SameLastIds(add, other)
    ensures var r, s := PutAll(regions, RegionWrites(add), First), PutAll(regions, RegionWrites(other), First);
            |regions| <= |r| && |regions| <= |s| && multiset(r[|regions|..]) == multiset(s[|regions|..])
  {
    AppendedRegions(regions, add);
    AppendedRegions(regions, other);
    SameDistinctMembers(PutAll(regions, RegionWrites(add), First)[|regions|..],
      PutAll(regions, RegionWrites(other), First)[|regions|..]);
  }

  lemma SplitSame(r: RegionList, s: RegionList, n: nat)
    requires n <= |r| && n <= |s| && (forall i :: 0 <= i < n ==> r[i] == s[i]) && multiset(r[n..]) == multiset(s[n..])
    ensures multiset(r) == multiset(s)
  {
    assert r[..n] == s[..n];
    assert r == r[..n] + r[n..] && s == s[..n] + s[n..];
  }

  lemma UpsertsAgree(regions: RegionList, add: seq<RegionImage>, other: seq<RegionImage>)
    requires SameLastIds(add, other)
    ensures multiset(PutAll(regions, RegionWrites(add), First)) == multiset(PutAll(regions, RegionWrites(other), First))
  {
    NewRegionsAgree(regions, add, other);
    forall i: nat | i < |regions|
      ensures PutAll(regions, RegionWrites(add), First)[i] == PutAll(regions, RegionWrites(other), First)[i] {
      OldRegionsAgree(regions, add, other, i);
    }
    SplitSame(PutAll(regions, RegionWrites(add), First), PutAll(regions, RegionWrites(other), First), |regions|);
  }

  /** A touched list is in ascending byte order of names, and of ids for the same name. */
  lemma RegionsInOrder(regions: RegionList, add: seq<RegionImage>, i: nat, j: nat)
    requires i < j < |Touch(regions, add)|
    ensures var a, b := Touch(regions, add)[i], Touch(regions, add)[j];
            ComesBefore(a.key, b.key) || (a.key == b.key && (a.body == b.body || ComesBefore(a.body, b.body)))
  {
    var a, b := Touch(regions, add)[i], Touch(regions, add)[j];
    TouchSorts(regions, add);
    assert NameThenId(a, b);
    AtMostExactly(a.key, b.key);
    AtMostExactly(a.body, b.body);
  }

  /** Mappings that give every region the same last id leave the same list, also when names repeat. */
  lemma TouchCongruent(regions: RegionList, add: seq<RegionImage>, other: seq<RegionImage>)
    requires SameLastIds(add, other)
    ensures Touch(regions, add) == Touch(regions, other)
  {
    UpsertsAgree(regions, add, other);
    TouchSorts(regions, add);
    TouchSorts(regions, other);
    SortUnique(Touch(regions, add), Touch(regions, other), NameThenId);
  }

  // ---------------------------------------------------------------- when touching is idempotent

  /** No entry of a written name is hidden behind the first one with an id smaller than the one written. */
  predicate Steady(regions: RegionList, add: seq<RegionImage>) {
    forall i :: 0 <= i < |regions| && Locate(regions, regions[i].key, First) != i ==>
      LastId(add, regions[i].key).Some? ==> AtMost(LastId(add, regions[i].key).value, regions[i].body)
  }

  /** Exactly when touching a list again with the same mappings changes nothing. */
  lemma TouchTwiceExactly(regions: RegionList, add: seq<RegionImage>)
    ensures Touch(Touch(regions, add), add) == Touch(regions, add) <==> Steady(regions, add)
  {
    var once := Touch(regions, add);
    TouchSorts(regions, add);
    if Steady(regions, add) {
      forall n | LastId(add, n).Some? ensures IdOf(once, n) == LastId(add, n) {
        WrittenComesFirst(regions, add, n);
      }
      AlreadyWritten(once, add);
    } else {
      var i :| 0 <= i < |regions| && Locate(regions, regions[i].key, First) != i && LastId(add, regions[i].key).Some?
        && !AtMost(LastId(add, regions[i].key).value, regions[i].body);
      SmallerComesFirst(regions, add, i);
      FirstTakenAway(once, add, regions[i].key);
    }
  }

  /** The written id is the smallest of its name, so it is the first after sorting. */
  lemma WrittenComesFirst(regions: RegionList, add: seq<RegionImage>, n: string)
    requires Steady(regions, add) && LastId(add, n).Some?
    ensures IdOf(Touch(regions, add), n) == LastId(add, n)
  {
    var r, once, x := PutAll(regions, RegionWrites(add), First), Touch(regions, add), LastId(add, n).value;
    TouchSorts(regions, add);
    SameMembers(once, r);
    IdAfter(regions, add, n);
    assert r[Locate(r, n, First)] == Entry(n, x);
    assert Entry(n, x) in once;
    var f := SmallestFirst(once, Entry(n, x));
    assert once[f] in r;
    AtLeastWritten(regions, add, once[f]);
    AtMostTotal(once[f].body, x);
  }

  /** The first entry of a name has the smallest id after sorting. */
  lemma SmallestFirst(once: RegionList, e: RegionIDMapping) returns (f: nat)
    requires Ordered(once, NameThenId) && e in once
    ensures f < |once| && f == Locate(once, e.key, First) && AtMost(once[f].body, e.body)
  {
    var p :| 0 <= p < |once| && once[p] == e;
    f := Locate(once, e.key, First);
    AtMostTotal(e.body, e.body);
    assert f < p ==> NameThenId(once[f], once[p]);
  }

  lemma AtLeastWritten(regions: RegionList, add: seq<RegionImage>, e: RegionIDMapping)
    requires Steady(regions, add) && LastId(add, e.key).Some? && e in PutAll(regions, RegionWrites(add), First)
    ensures AtMost(LastId(add, e.key).value, e.body)
  {
    var r := PutAll(regions, RegionWrites(add), First);
    AtMostTotal(e.body, e.body);
    var i :| 0 <= i < |r| && r[i] == e;
    if i < |regions| {
      OldRegion(regions, add, i);
      PutAllPrefix(regions, RegionWrites(add), First, i);
    } else {
      AppendedRegions(regions, add);
      assert r[|regions|..][i - |regions|] == e;
    }
  }

  /** Touching a sorted list that has the written ids already changes nothing. */
  lemma AlreadyWritten(once: RegionList, add: seq<RegionImage>)
    requires Ordered(once, NameThenId) && forall n :: LastId(add, n).Some? ==> IdOf(once, n) == LastId(add, n)
    ensures Touch(once, add) == once
  {
    var r := PutAll(once, RegionWrites(add), First);
    AppendedRegions(once, add);
    forall e: RegionIDMapping ensures e !in r[|once|..] {
      FindPresence(once, e.key, First);
    }
    EmptyExactly(r[|once|..]);
    forall i | 0 <= i < |once| ensures r[i] == once[i] {
      OldRegion(once, add, i);
    }
    assert r == once;
    TouchSorts(once, add);
    SortUnique(Touch(once, add), once, NameThenId);
  }

  lemma SmallerComesFirst(regions: RegionList, add: seq<RegionImage>, i: nat)
    requires i < |regions| && Locate(regions, regions[i].key, First) != i && LastId(add, regions[i].key).Some?
    requires !AtMost(LastId(add, regions[i].key).value, regions[i].body)
    ensures IdOf(Touch(regions, add), regions[i].key).Some?
    ensures IdOf(Touch(regions, add), regions[i].key) != LastId(add, regions[i].key)
  {
    var e, once := regions[i], Touch(regions, add);
    OldRegion(regions, add, i);
    TouchSorts(regions, add);
    SameMembers(once, PutAll(regions, RegionWrites(add), First));
    assert e in once;
    var f := SmallestFirst(once, e);
  }

  /** A first entry with another id than the one written is gone after the next touch. */
  lemma FirstTakenAway(once: RegionList, add: seq<RegionImage>, n: string)
    requires IdOf(once, n).Some? && LastId(add, n).Some? && IdOf(once, n) != LastId(add, n)
    ensures Touch(once, add) != once
  {
    var r, f := PutAll(once, RegionWrites(add), First), Locate(once, n, First);
    PutAllGrows(once, RegionWrites(add), First);
    forall i: nat | i < |once| ensures i != f ==> (r[i] == once[f] <==> once[i] == once[f]) {
      OldRegion(once, add, i);
    }
    OldRegion(once, add, f);
    CountLess(once, r[..|once|], f);
    NoneOfOldAppended(once, add, f);
    TouchSorts(once, add);
  }

  lemma NoneOfOldAppended(once: RegionList, add: seq<RegionImage>, f: nat)
    requires f < |once|
    ensures var r := PutAll(once, RegionWrites(add), First);
            |once| <= |r| && multiset(r)[once[f]] == multiset(r[..|once|])[once[f]]
  {
    var r := PutAll(once, RegionWrites(add), First);
    AppendedRegions(once, add);
    assert Keys(once)[f] == once[f].key;
    assert once[f] !in r[|once|..];
    assert r == r[..|once|] + r[|once|..];
  }

  lemma CountLess(s: RegionList, t: RegionList, f: nat)
    requires |s| == |t| && f < |s| && t[f] != s[f]
    requires forall i :: 0 <= i < |s| && i != f ==> (t[i] == s[f] <==> s[i] == s[f])
    ensures multiset(t)[s[f]] < multiset(s)[s[f]]
  {
    SameCount(s[..f], t[..f], s[f]);
    SameCount(s[f + 1..], t[f + 1..], s[f]);
    assert s == s[..f] + [s[f]] + s[f + 1..] && t == t[..f] + [t[f]] + t[f + 1..];
  }

  lemma {:induction false} SameCount(s: RegionList, t: RegionList, x: RegionIDMapping)
    requires |s| == |t| && forall i :: 0 <= i < |s| ==> (t[i] == x <==> s[i] == x)
    ensures multiset(t)[x] == multiset(s)[x]
  {
    if s != [] {
      SameCount(s[1..], t[1..], x);
      assert s == [s[0]] + s[1..] && t == [t[0]] + t[1..];
    }
  }

  /** Writing a region mapping twice is the same as writing it once for every mapping exactly when no
      region name occurs twice in the list: with a repeated name the sort can move another entry of
      that name to the front. */
  lemma TouchIdempotentIffUnique(regions: RegionList)
    ensures UniqueNames(regions) <==>
              forall r :: Touch(Touch(regions, [r]), [r]) == Touch(regions, [r])
  {
    if UniqueNames(regions) {
      forall r ensures Touch(Touch(regions, [r]), [r]) == Touch(regions, [r]) {
        UniqueIsSteady(regions, [r]);
        TouchTwiceExactly(regions, [r]);
      }
    } else {
      var r := Unsteadying(regions);
      TouchTwiceExactly(regions, [r]);
    }
  }

  lemma UniqueIsSteady(regions: RegionList, add: seq<RegionImage>)
    requires UniqueNames(regions)
    ensures Steady(regions, add)
  {
    forall i | 0 <= i < |regions| ensures Locate(regions, regions[i].key, First) == i {
      assert Keys(regions)[Locate(regions, regions[i].key, First)] == Keys(regions)[i];
    }
  }

  /** With a repeated name there is a mapping that two touches tell from one. */
  lemma Unsteadying(regions: RegionList) returns (r: RegionImage)
    requires !UniqueNames(regions)
    ensures !Steady(regions, [r])
  {
    var i, j :| 0 <= i < j < |regions| && Keys(regions)[i] == Keys(regions)[j];
    r := RegionImage(regions[j].key, Above(regions));
    assert LastId([r], r.region) == Some(r.id);
    assert Locate(regions, regions[j].key, First) != j;
    AtMostTotal(r.id, regions[j].body);
  }

  /** An id strictly above every id in the list. */
  function Above(regions: RegionList): (big: string)
    ensures forall i :: 0 <= i < |regions| ==> AtMost(regions[i].body, big) && regions[i].body != big
  {
    if regions == [] then ""
    else
      var b := Above(regions[1..]);
      var m := if AtMost(b, regions[0].body) then regions[0].body else b;
      AboveStep(regions, b, m);
      m + ['a']
  }

  lemma AboveStep(regions: RegionList, b: string, m: string)
    requires regions != [] && m == if AtMost(b, regions[0].body) then regions[0].body else b
    requires forall i :: 0 <= i < |regions[1..]| ==> AtMost(regions[1..][i].body, b)
    ensures forall i :: 0 <= i < |regions| ==> AtMost(regions[i].body, m + ['a']) && regions[i].body != m + ['a']
  {
    AtMostTotal(b, regions[0].body);
    AtMostTotal(m, m);
    AtMostUnbounded(m, 'a');
    forall i | 0 <= i < |regions| ensures AtMost(regions[i].body, m + ['a']) && regions[i].body != m + ['a'] {
      var x := regions[i].body;
      if i > 0 {
        assert regions[1..][i - 1] == regions[i];
        AtMostTransitive(x, b, m);
      }
      AtMostTransitive(x, m, m + ['a']);
      AtMostTotal(m, m + ['a']);
    }
  }
}
