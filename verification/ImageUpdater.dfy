/** The image updater: validation and ordering of what a source reports, and the merge of source
    images into the machine images of a cloud profile. */
module ImageUpdater {
  import opened Prelude
  import opened Sorting
  import opened Images
  import opened Semver

  // ---------------------------------------------------------------- validation

  /** What becomes of one source image: dropped, or kept with its clean version in canonical form. */
  function Validated(lib: Library, img: SourceImage): (r: Option<SourceImage>)
  {
    var clean := if img.cleanVersion == "" then None else lib.Canonical(img.cleanVersion);
    if img.architectures == [] || (!lib.Valid(img.version) && clean.None?) then None
    else Some(img.(cleanVersion := if clean.Some? then clean.value else ""))
  }

  function ValidatedAll(lib: Library, images: seq<SourceImage>): seq<SourceImage> {
    FilterMap(images, img => Validated(lib, img))
  }

  method ValidateImageVersions(lib: Library, versions: seq<SourceImage>) returns (filtered: seq<SourceImage>)
    ensures filtered == ValidatedAll(lib, versions)
  {
    filtered := [];
    var f := img => Validated(lib, img);
    for i := 0 to |versions|
      invariant filtered + FilterMap(versions[i..], f) == FilterMap(versions, f)
    {
      var version := versions[i];
      FilterMapStep(versions, i, f, filtered);
      if |version.architectures| == 0 {
        continue;
      }
      var validLegacyTag := lib.parse(version.version).Some?;
      var validCleanVersion := false;
      if version.cleanVersion != "" {
        var parsed := lib.parseTolerant(version.cleanVersion);
        if parsed.Some? {
          validCleanVersion := true;
          version := version.(cleanVersion := lib.show(parsed.value));
        } else {
          version := version.(cleanVersion := "");
        }
      }
      if !validLegacyTag && !validCleanVersion {
        continue;
      }
      filtered := filtered + [version];
    }
  }

  /** A validated image: it has architectures, its clean version is empty or canonical, and at
      least one of its two versions is valid. */
  ghost predicate Sound(lib: Library, img: SourceImage) {
    && img.architectures != []
    && (img.cleanVersion != "" ==>
          lib.Valid(img.cleanVersion) && lib.Canonical(img.cleanVersion) == Some(img.cleanVersion))
    && (lib.Valid(img.version) || img.cleanVersion != "")
  }

  /** Exactly what validation keeps: images with architectures of which the tag or the clean version can
      be read, unchanged but for the clean version, which becomes canonical or empty. */
  lemma ValidatedExactly(lib: Library, images: seq<SourceImage>, r: SourceImage)
    requires lib.Lawful()
    ensures r in ValidatedAll(lib, images) <==>
              exists img ::
                && img in images && img.architectures != []
                && (lib.parse(img.version).Some? ||
                    (img.cleanVersion != "" && lib.parseTolerant(img.cleanVersion).Some?))
                && r == img.(cleanVersion := CleanForm(lib, img.cleanVersion))
  {
    FilterMapMember(images, img => Validated(lib, img), r);
  }

  function CleanForm(lib: Library, clean: string): (r: string)
    ensures clean != "" && lib.parseTolerant(clean).Some? ==> r == lib.show(lib.parseTolerant(clean).value)
    ensures clean == "" || lib.parseTolerant(clean).None? ==> r == ""
  {
    if clean != "" && lib.Canonical(clean).Some? then lib.Canonical(clean).value else ""
  }

  /** Validation keeps only sound images, and a second validation changes nothing. */
  lemma ValidationEstablishesSoundness(lib: Library, images: seq<SourceImage>)
    requires lib.Lawful()
    ensures forall img :: img in ValidatedAll(lib, images) ==> Sound(lib, img)
    ensures ValidatedAll(lib, ValidatedAll(lib, images)) == ValidatedAll(lib, images)
  {
    var f := img => Validated(lib, img);
    forall img | img in ValidatedAll(lib, images) ensures Sound(lib, img) {
      FilterMapMember(images, f, img);
    }
    SoundIsFixed(lib, ValidatedAll(lib, images));
  }

  lemma {:induction false} SoundIsFixed(lib: Library, images: seq<SourceImage>)
    requires forall img :: img in images ==> Sound(lib, img)
    ensures ValidatedAll(lib, images) == images
  {
    if images != [] {
      assert images[0] in images;
      assert forall img :: img in images[1..] ==> img in images;
      SoundIsFixed(lib, images[1..]);
    }
  }

  // ---------------------------------------------------------------- fetch

  /** The deterministic order of fetched images: by effective version, then by tag. */
  predicate FetchOrder(a: SourceImage, b: SourceImage) {
    if a.EffectiveVersion() != b.EffectiveVersion() then AtMost(a.EffectiveVersion(), b.EffectiveVersion())
    else AtMost(a.version, b.version)
  }

  lemma FetchOrderLaws(a: SourceImage, b: SourceImage, c: SourceImage)
    ensures FetchOrder(a, b) || FetchOrder(b, a)
    ensures FetchOrder(a, b) && FetchOrder(b, a) ==>
              a.version == b.version && a.EffectiveVersion() == b.EffectiveVersion()
    ensures FetchOrder(a, b) && FetchOrder(b, c) ==> FetchOrder(a, c)
  {
    var x, y, z := a.EffectiveVersion(), b.EffectiveVersion(), c.EffectiveVersion();
    AtMostTotal(x, y);
    AtMostTotal(y, z);
    AtMostTotal(a.version, b.version);
    if AtMost(x, y) && AtMost(y, z) {
      AtMostTransitive(x, y, z);
    }
    if AtMost(a.version, b.version) && AtMost(b.version, c.version) {
      AtMostTransitive(a.version, b.version, c.version);
    }
  }

  lemma FetchOrderPreorder()
    ensures TotalPreorder(FetchOrder)
  {
    forall a, b ensures FetchOrder(a, b) || FetchOrder(b, a) {
      FetchOrderLaws(a, b, a);
    }
    forall a, b, c | FetchOrder(a, b) && FetchOrder(b, c) ensures FetchOrder(a, c) {
      FetchOrderLaws(a, b, c);
    }
  }

  function Tags(images: seq<SourceImage>): (r: seq<string>)
    ensures |r| == |images| && forall i :: 0 <= i < |r| ==> r[i] == images[i].version
  {
    seq(|images|, i requires 0 <= i < |images| => images[i].version)
  }

  /** No filter. */
  predicate KeepAll(img: SourceImage) {
    true
  }

  /** Everything `Fetch` may return for what the source reported: validated, in fetch order (a
      library sort), then filtered. */
  ghost predicate FetchResult(
      lib: Library, reported: seq<SourceImage>, keep: SourceImage -> bool, r: seq<SourceImage>) {
    exists sorted :: IsSortOf(sorted, ValidatedAll(lib, reported), FetchOrder) && r == Select(sorted, keep)
  }

  /** The part of `Fetch` after the source has answered. The filter is the garbage collector's, or
      keeps everything when there is none. */
  method Fetch(lib: Library, reported: seq<SourceImage>, keep: SourceImage -> bool) returns (images: seq<SourceImage>)
    ensures FetchResult(lib, reported, keep, images)
  {
    var valid := ValidateImageVersions(lib, reported);
    FetchOrderPreorder();
    var sorted := SortFunc(valid, FetchOrder);
    images := Select(sorted, keep);
  }

  lemma {:induction false} SelectOrdered(s: seq<SourceImage>, keep: SourceImage -> bool)
    requires Ordered(s, FetchOrder)
    ensures Ordered(Select(s, keep), FetchOrder)
  {
    if s != [] {
      var t := Select(s[1..], keep);
      assert Ordered(s[1..], FetchOrder);
      SelectOrdered(s[1..], keep);
      forall i | 0 <= i < |t| ensures FetchOrder(s[0], t[i]) {
        assert t[i] in s[1..];
        var j :| 0 <= j < |s[1..]| && s[1..][j] == t[i];
        assert s[j + 1] == t[i];
      }
      assert Select(s, keep) == if keep(s[0]) then [s[0]] + t else t;
    }
  }

  /** The order of what `Fetch` returns, read off the images: by clean version, or by tag when there is none,
      and then by tag, each in byte order and ascending. */
  lemma FetchedInOrder(
      lib: Library, reported: seq<SourceImage>, keep: SourceImage -> bool, r: seq<SourceImage>, i: nat, j: nat)
    requires FetchResult(lib, reported, keep, r) && i < j < |r|
    ensures var a, b := if r[i].cleanVersion != "" then r[i].cleanVersion else r[i].version,
                if r[j].cleanVersion != "" then r[j].cleanVersion else r[j].version;
            ComesBefore(a, b) || (a == b && (r[i].version == r[j].version || ComesBefore(r[i].version, r[j].version)))
  {
    var sorted :| IsSortOf(sorted, ValidatedAll(lib, reported), FetchOrder) && r == Select(sorted, keep);
    SelectOrdered(sorted, keep);
    assert FetchOrder(r[i], r[j]);
    AtMostExactly(r[i].EffectiveVersion(), r[j].EffectiveVersion());
    AtMostExactly(r[i].version, r[j].version);
  }

  /** With distinct tags the order in which a source reports its images leaves no trace. */
  lemma FetchErasesOrder(
    lib: Library, a: seq<SourceImage>, b: seq<SourceImage>, keep: SourceImage -> bool,
    r: seq<SourceImage>, s: seq<SourceImage>)
    requires Distinct(Tags(a)) && multiset(a) == multiset(b)
    requires FetchResult(lib, a, keep, r) && FetchResult(lib, b, keep, s)
    ensures r == s
  {
    var x :| IsSortOf(x, ValidatedAll(lib, a), FetchOrder) && r == Select(x, keep);
    var y :| IsSortOf(y, ValidatedAll(lib, b), FetchOrder) && s == Select(y, keep);
    SortedOnce(lib, a, b, x, y);
  }

  /** With distinct tags there is one sorted list of validated images. */
  lemma SortedOnce(lib: Library, a: seq<SourceImage>, b: seq<SourceImage>, x: seq<SourceImage>, y: seq<SourceImage>)
    requires Distinct(Tags(a)) && multiset(a) == multiset(b)
    requires IsSortOf(x, ValidatedAll(lib, a), FetchOrder) && IsSortOf(y, ValidatedAll(lib, b), FetchOrder)
    ensures x == y
  {
    FilterMapPermutation(a, b, img => Validated(lib, img));
    forall i, j | 0 <= i < |x| && 0 <= j < |x| && FetchOrder(x[i], x[j]) && FetchOrder(x[j], x[i])
      ensures x[i] == x[j] {
      FetchOrderLaws(x[i], x[j], x[i]);
      SameMembers(x, ValidatedAll(lib, a));
      ValidatedByTag(lib, a, x[i], x[j]);
    }
    SortUnique(x, y, FetchOrder);
  }

  /** With distinct tags, a validated image is determined by its tag. */
  lemma ValidatedByTag(lib: Library, a: seq<SourceImage>, x: SourceImage, y: SourceImage)
    requires Distinct(Tags(a)) && x in ValidatedAll(lib, a) && y in ValidatedAll(lib, a) && x.version == y.version
    ensures x == y
  {
    var f := img => Validated(lib, img);
    FilterMapMember(a, f, x);
    FilterMapMember(a, f, y);
    var p :| p in a && f(p) == Some(x);
    var q :| q in a && f(q) == Some(y);
    var i :| 0 <= i < |a| && a[i] == p;
    var j :| 0 <= j < |a| && a[j] == q;
    assert Tags(a)[i] == Tags(a)[j];
  }

  lemma TagsOfPermutation(a: seq<SourceImage>, b: seq<SourceImage>)
    requires multiset(a) == multiset(b) && Distinct(Tags(b))
    ensures Distinct(Tags(a))
  {
    var key := (img: SourceImage) => img.version;
    forall i, j | 0 <= i < j < |b| ensures key(b[i]) != key(b[j]) {
      assert Tags(b)[i] != Tags(b)[j];
    }
    PermutedDistinct(a, b, key);
    forall i, j | 0 <= i < j < |a| ensures Tags(a)[i] != Tags(a)[j] {
      assert key(a[i]) != key(a[j]);
    }
  }
}
