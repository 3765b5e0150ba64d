/** Source images that differ only in what must not matter: the order in which a version's regions were
    collected, and the date of a deprecated version. The differences pass through `Fetch` and the
    merge without spreading, and the OpenStack provider does not see them at all. */
module AlikeSources {
  import opened Prelude
  import opened Sorting
  import opened Keyed
  import opened Images
  import opened Semver
  import opened ImageUpdater
  import opened ImageMerge
  import opened OpenStackTheorems

  /** Two images that differ at most in the order of their regions and, when deprecated, in their
      dates. */
  ghost predicate Alike(a: SourceImage, b: SourceImage) {
    && b == a.(regions := b.regions, expirationDate := b.expirationDate)
    && (forall n :: LastId(a.regions, n) == LastId(b.regions, n))
    && (a.expirationDate == b.expirationDate ||
        (a.expirationDate.Some? && b.expirationDate.Some? && a.classification == Some(DEPRECATED)))
  }

  ghost predicate AllAlike(a: seq<SourceImage>, b: seq<SourceImage>) {
    |a| == |b| && forall i :: 0 <= i < |a| ==> Alike(a[i], b[i])
  }

  ghost predicate SameDates(a: seq<SourceImage>, b: seq<SourceImage>) {
    |a| == |b| && forall i :: 0 <= i < |a| ==> a[i].expirationDate == b[i].expirationDate
  }

  /** The same tags, and alike images under each of them. */
  ghost predicate Match(a: seq<SourceImage>, b: seq<SourceImage>) {
    && Distinct(Tags(a)) && Distinct(Tags(b))
    && (forall v :: v in Tags(a) <==> v in Tags(b))
    && forall i, j :: 0 <= i < |a| && 0 <= j < |b| && a[i].version == b[j].version ==> Alike(a[i], b[j])
  }

  ghost predicate MatchDates(a: seq<SourceImage>, b: seq<SourceImage>) {
    forall i, j :: 0 <= i < |a| && 0 <= j < |b| && a[i].version == b[j].version ==>
        a[i].expirationDate == b[j].expirationDate
  }

  /** Its tag is its clean version, in canonical form. */
  predicate SingleVersion(lib: Library, img: SourceImage) {
    img.architectures != [] && img.cleanVersion == img.version && lib.Canonical(img.version) == Some(img.version)
  }

  /** Each image has one version, of its own. */
  predicate OneVersionEach(lib: Library, a: seq<SourceImage>) {
    Distinct(Tags(a)) && forall i :: 0 <= i < |a| ==> SingleVersion(lib, a[i])
  }

  // ---------------------------------------------------------------- fetch

  /** The part of an image the fetch order and the comparison above agree on. */
  function Skeleton(img: SourceImage): SourceImage {
    img.(regions := [], expirationDate := None)
  }

  function Skeletons(s: seq<SourceImage>): seq<SourceImage> {
    FilterMap(s, img => Some(Skeleton(img)))
  }

  lemma {:induction false} SkeletonsAt(s: seq<SourceImage>)
    ensures |Skeletons(s)| == |s| && forall i :: 0 <= i < |s| ==> Skeletons(s)[i] == Skeleton(s[i])
  {
    if s != [] {
      SkeletonsAt(s[1..]);
      assert Skeletons(s) == [Skeleton(s[0])] + Skeletons(s[1..]);
    }
  }

  /** Sorting matching lists gives lists that are alike one by one. */
  lemma SortsAlike(a: seq<SourceImage>, b: seq<SourceImage>, x: seq<SourceImage>, y: seq<SourceImage>)
    requires Match(a, b) && IsSortOf(x, a, FetchOrder) && IsSortOf(y, b, FetchOrder)
    ensures AllAlike(x, y) && Distinct(Tags(x))
    ensures MatchDates(a, b) ==> SameDates(x, y)
  {
    SameSkeletons(a, b, x, y);
    TagsOfPermutation(x, a);
    SameMembers(x, a);
    SameMembers(y, b);
    forall i | 0 <= i < |x|
      ensures |y| == |x| && Alike(x[i], y[i]) && (MatchDates(a, b) ==> x[i].expirationDate == y[i].expirationDate) {
      SkeletonsAt(x);
      SkeletonsAt(y);
      assert Skeleton(x[i]) == Skeletons(x)[i] == Skeletons(y)[i] == Skeleton(y[i]);
      AlikeByTag(a, b, x[i], y[i]);
    }
  }

  lemma AlikeByTag(a: seq<SourceImage>, b: seq<SourceImage>, x: SourceImage, y: SourceImage)
    requires Match(a, b) && x in a && y in b && x.version == y.version
    ensures Alike(x, y) && (MatchDates(a, b) ==> x.expirationDate == y.expirationDate)
  {
    var p :| 0 <= p < |a| && a[p] == x;
    var q :| 0 <= q < |b| && b[q] == y;
    assert Alike(a[p], b[q]);
  }

  lemma SameSkeletons(a: seq<SourceImage>, b: seq<SourceImage>, x: seq<SourceImage>, y: seq<SourceImage>)
    requires Match(a, b) && IsSortOf(x, a, FetchOrder) && IsSortOf(y, b, FetchOrder)
    ensures Skeletons(x) == Skeletons(y)
  {
    MatchingSkeletons(a, b);
    FilterMapPermutation(x, a, img => Some(Skeleton(img)));
    FilterMapPermutation(y, b, img => Some(Skeleton(img)));
    SkeletonsOrdered(x);
    SkeletonsOrdered(y);
    TagsOfPermutation(x, a);
    SkeletonsUntied(x);
    SortUnique(Skeletons(x), Skeletons(y), FetchOrder);
  }

  lemma MatchingSkeletons(a: seq<SourceImage>, b: seq<SourceImage>)
    requires Match(a, b)
    ensures multiset(Skeletons(a)) == multiset(Skeletons(b))
  {
    DistinctSkeletons(a);
    DistinctSkeletons(b);
    forall s ensures s in Skeletons(a) <==> s in Skeletons(b) {
      SkeletonAmong(a, b, s);
      SkeletonAmong(b, a, s);
    }
    SameDistinctMembers(Skeletons(a), Skeletons(b));
  }

  lemma DistinctSkeletons(a: seq<SourceImage>)
    requires Distinct(Tags(a))
    ensures Distinct(Skeletons(a))
  {
    SkeletonsAt(a);
    forall i, j | 0 <= i < j < |a| ensures Skeletons(a)[i] != Skeletons(a)[j] {
      assert Tags(a)[i] != Tags(a)[j];
    }
  }

  lemma SkeletonAmong(a: seq<SourceImage>, b: seq<SourceImage>, s: SourceImage)
    requires Match(a, b) || Match(b, a)
    ensures s in Skeletons(a) ==> s in Skeletons(b)
  {
    SkeletonsAt(a);
    SkeletonsAt(b);
    if s in Skeletons(a) {
      var i :| 0 <= i < |a| && Skeletons(a)[i] == s;
      assert Tags(a)[i] in Tags(b);
      var j :| 0 <= j < |b| && Tags(b)[j] == Tags(a)[i];
      assert Skeletons(b)[j] == s;
    }
  }

  lemma SkeletonsOrdered(x: seq<SourceImage>)
    requires Ordered(x, FetchOrder)
    ensures Ordered(Skeletons(x), FetchOrder)
  {
    SkeletonsAt(x);
  }

  lemma SkeletonsUntied(x: seq<SourceImage>)
    requires Distinct(Tags(x))
    ensures NoTies(Skeletons(x), FetchOrder)
  {
    SkeletonsAt(x);
    var s := Skeletons(x);
    forall i, j | 0 <= i < |s| && 0 <= j < |s| && FetchOrder(s[i], s[j]) && FetchOrder(s[j], s[i])
      ensures s[i] == s[j] {
      FetchOrderLaws(s[i], s[j], s[i]);
      assert Tags(x)[i] == Tags(x)[j];
    }
  }

  /** Validation leaves such images as they are. */
  lemma {:induction false} OneVersionEachValid(lib: Library, a: seq<SourceImage>)
    requires lib.Lawful() && OneVersionEach(lib, a)
    ensures ValidatedAll(lib, a) == a
  {
    forall img | img in a ensures Sound(lib, img) {
      var i :| 0 <= i < |a| && a[i] == img;
    }
    SoundIsFixed(lib, a);
  }

  /** What `Fetch` returns for matching reports is alike. */
  lemma FetchesAlike(lib: Library, a: seq<SourceImage>, b: seq<SourceImage>, r: seq<SourceImage>, s: seq<SourceImage>)
    requires lib.Lawful() && Match(a, b) && OneVersionEach(lib, a)
    requires FetchResult(lib, a, KeepAll, r) && FetchResult(lib, b, KeepAll, s)
    ensures AllAlike(r, s) && OneVersionEach(lib, r)
    ensures MatchDates(a, b) ==> SameDates(r, s)
  {
    MatchingShape(lib, a, b);
    FetchSorts(lib, a, r);
    FetchSorts(lib, b, s);
    SortsAlike(a, b, r, s);
    SameMembers(r, a);
    forall i | 0 <= i < |r| ensures SingleVersion(lib, r[i]) {
      assert r[i] in a;
    }
  }

  /** With one version each and no filter, `Fetch` only sorts. */
  lemma FetchSorts(lib: Library, a: seq<SourceImage>, r: seq<SourceImage>)
    requires lib.Lawful() && OneVersionEach(lib, a) && FetchResult(lib, a, KeepAll, r)
    ensures IsSortOf(r, a, FetchOrder)
  {
    OneVersionEachValid(lib, a);
    var x :| IsSortOf(x, ValidatedAll(lib, a), FetchOrder) && r == Select(x, KeepAll);
    SelectAll(x, KeepAll);
  }

  lemma MatchingShape(lib: Library, a: seq<SourceImage>, b: seq<SourceImage>)
    requires Match(a, b) && OneVersionEach(lib, a)
    ensures OneVersionEach(lib, b)
  {
    forall j | 0 <= j < |b| ensures SingleVersion(lib, b[j]) {
      assert Tags(b)[j] in Tags(a);
      var i :| 0 <= i < |a| && Tags(a)[i] == Tags(b)[j];
      assert Alike(a[i], b[j]);
    }
  }

  lemma AlikeShape(lib: Library, a: seq<SourceImage>, b: seq<SourceImage>)
    requires AllAlike(a, b) && OneVersionEach(lib, a)
    ensures OneVersionEach(lib, b)
  {
    assert Tags(a) == Tags(b);
  }

  // ---------------------------------------------------------------- apply

  lemma FilteredAlike(lib: Library, a: seq<SourceImage>, b: seq<SourceImage>, allowed: map<string, set<string>>)
    requires AllAlike(a, b)
    ensures AllAlike(FilteredSources(a, allowed), FilteredSources(b, allowed))
    ensures OneVersionEach(lib, a) ==> OneVersionEach(lib, FilteredSources(a, allowed))
    ensures SameDates(a, b) ==> SameDates(FilteredSources(a, allowed), FilteredSources(b, allowed))
  {
    assert Tags(FilteredSources(a, allowed)) == Tags(a);
  }

  /** Two entries that differ at most in the dates of a deprecated version. */
  predicate AlikeVersion(x: VersionFields, y: VersionFields) {
    || x == y
    || (&& x.Deprecated() && x.expirationDate.Some? && y.expirationDate.Some?
        && y == x.(expirationDate := y.expirationDate))
  }

  /** The versions whose dates differ. */
  ghost function Redated(a: seq<SourceImage>, b: seq<SourceImage>): set<string>
    requires |a| == |b|
  {
    set i | 0 <= i < |a| && a[i].expirationDate != b[i].expirationDate :: a[i].version
  }

  ghost predicate RelatedVersion(redated: set<string>, k: string, x: VersionFields, y: VersionFields) {
    if k in redated then AlikeVersion(x, y) else x == y
  }

  ghost function RelatedIn(redated: set<string>): (string, VersionFields, VersionFields) -> bool {
    (k, x, y) => RelatedVersion(redated, k, x, y)
  }

  /** The differences stay within the entries of the versions whose dates differ. */
  lemma MergedAlike(lib: Library, u: Updater, base: seq<ImageVersion>, a: seq<SourceImage>, b: seq<SourceImage>)
    requires AllAlike(a, b) && OneVersionEach(lib, a)
    ensures RelatedLists(Merged(lib, u, base, a), Merged(lib, u, base, b), RelatedIn(Redated(a, b)))
  {
    WritesAlike(lib, u, a, b, 0);
    assert a[0..] == a && b[0..] == b;
    PutAllRelated(base, base, Writes(lib, u, a), Writes(lib, u, b), Last, RelatedIn(Redated(a, b)));
  }

  lemma {:induction false} WritesAlike(lib: Library, u: Updater, a: seq<SourceImage>, b: seq<SourceImage>, i: nat)
    requires AllAlike(a, b) && OneVersionEach(lib, a) && i <= |a|
    ensures RelatedWrites(Writes(lib, u, a[i..]), Writes(lib, u, b[i..]), RelatedIn(Redated(a, b)))
    decreases |a| - i
  {
    if i < |a| {
      WritesAlike(lib, u, a, b, i + 1);
      assert a[i..][0] == a[i] && a[i..][1..] == a[i + 1..];
      assert b[i..][0] == b[i] && b[i..][1..] == b[i + 1..];
      RedatedHere(lib, a, b, i);
      WritesOfAlike(lib, u, a[i], b[i], Redated(a, b));
      RelatedWritesConcat(WritesOf(lib, u, a[i]), WritesOf(lib, u, b[i]), Writes(lib, u, a[i + 1..]),
                          Writes(lib, u, b[i + 1..]),
                          RelatedIn(Redated(a, b)));
    }
  }

  /** The writes of two alike sources, on entries that differ only when the dates of the sources do. */
  lemma AlikeWrites(u: Updater, s: SourceImage, t: SourceImage, x: VersionFields, y: VersionFields)
    requires Alike(s, t)
    requires if s.expirationDate != t.expirationDate then AlikeVersion(x, y) else x == y
    ensures if s.expirationDate != t.expirationDate then AlikeVersion(Legacy(u, s, x), Legacy(u, t, y))
            else Legacy(u, s, x) == Legacy(u, t, y)
    ensures if s.expirationDate != t.expirationDate then AlikeVersion(Clean(u, s, x), Clean(u, t, y))
            else Clean(u, s, x) == Clean(u, t, y)
  {
  }

  lemma RedatedHere(lib: Library, a: seq<SourceImage>, b: seq<SourceImage>, i: nat)
    requires AllAlike(a, b) && OneVersionEach(lib, a) && i < |a|
    ensures a[i].version in Redated(a, b) <==> a[i].expirationDate != b[i].expirationDate
  {
    if a[i].version in Redated(a, b) {
      var j :| 0 <= j < |a| && a[j].expirationDate != b[j].expirationDate && a[j].version == a[i].version;
      assert Tags(a)[i] == Tags(a)[j];
    }
  }

  lemma WritesOfAlike(lib: Library, u: Updater, s: SourceImage, t: SourceImage, redated: set<string>)
    requires Alike(s, t) && SingleVersion(lib, s)
    requires s.version in redated <==> s.expirationDate != t.expirationDate
    ensures RelatedWrites(WritesOf(lib, u, s), WritesOf(lib, u, t), RelatedIn(redated))
  {
    AlikeWrites(u, s, t, BLANK, BLANK);
    forall x, y | RelatedVersion(redated, s.version, x, y)
      ensures RelatedVersion(redated, s.version, Legacy(u, s, x), Legacy(u, t, y))
      ensures RelatedVersion(redated, s.version, Clean(u, s, x), Clean(u, t, y)) {
      AlikeWrites(u, s, t, x, y);
    }
    assert RelatedWrite(LegacyWrite(lib, u, s), LegacyWrite(lib, u, t), RelatedIn(redated));
    assert RelatedWrite(CleanWrite(u, s), CleanWrite(u, t), RelatedIn(redated));
  }

  lemma SameDatesMerge(lib: Library, u: Updater, base: seq<ImageVersion>, a: seq<SourceImage>, b: seq<SourceImage>)
    requires AllAlike(a, b) && OneVersionEach(lib, a) && SameDates(a, b)
    ensures Merged(lib, u, base, a) == Merged(lib, u, base, b)
  {
    MergedAlike(lib, u, base, a, b);
    var rel := RelatedIn(Redated(a, b));
    var r, s := Merged(lib, u, base, a), Merged(lib, u, base, b);
    forall i | 0 <= i < |r| ensures r[i] == s[i] {
      assert rel(r[i].key, r[i].body, s[i].body);
    }
  }
}
