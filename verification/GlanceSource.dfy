/** The Glance source: the canonical image per version and region, the merge over regions, the region
    requirement, the newest-first window and the deprecation stamp. */
module GlanceSource {
  import opened Prelude
  import opened Sorting
  import opened Images
  import opened Semver
  import opened ImageUpdater

  const DEFAULT_NAME_PREFIX := "gardenlinux-openstack-gardener_prod-amd64-"
  const DEFAULT_KEEP_LATEST := 3
  const DEFAULT_PARALLEL := 8
  const DEFAULT_VERSION_OFFSET := 0
  const ARCHITECTURE := "amd64"
  const ACTIVE := "active"

  datatype Params = Params(
    authURLFormat: string, regions: seq<string>, namePrefix: string, keepLatest: int, parallel: int, versionOffset: int,
    excludedSuffixes: seq<string>, requireAllRegions: bool)

  datatype Glance = Glance(params: Params, namePrefix: string, keepLatest: int, parallel: int, offset: nat)

  /** Defaults replace unset parameters; a negative number of versions to keep means all of them. */
  function NewGlance(params: Params): (g: Result<Glance, string>)
    ensures g.Ok? <==> params.authURLFormat != "" && params.regions != []
    ensures g.Ok? ==>
              g.value.params == params && g.value.keepLatest != 0 && g.value.parallel >= 1 && g.value.namePrefix != ""
    ensures g.Ok? && params.namePrefix != "" ==> g.value.namePrefix == params.namePrefix
    ensures g.Ok? && params.namePrefix == "" ==> g.value.namePrefix == "gardenlinux-openstack-gardener_prod-amd64-"
    ensures g.Ok? && params.keepLatest != 0 ==> g.value.keepLatest == params.keepLatest
    ensures g.Ok? && params.keepLatest == 0 ==> g.value.keepLatest == 3
    ensures g.Ok? && params.parallel >= 1 ==> g.value.parallel == params.parallel
    ensures g.Ok? && params.parallel < 1 ==> g.value.parallel == 8
    ensures g.Ok? && params.versionOffset >= 0 ==> g.value.offset == params.versionOffset
    ensures g.Ok? && params.versionOffset < 0 ==> g.value.offset == 0
  {
    if params.authURLFormat == "" then Err("glance: authURLFormat is required")
    else if params.regions == [] then Err("glance: at least one region is required")
    else Ok(Glance(
      params,
      if params.namePrefix == "" then DEFAULT_NAME_PREFIX else params.namePrefix,
      if params.keepLatest == 0 then DEFAULT_KEEP_LATEST else params.keepLatest,
      if params.parallel <= 0 then DEFAULT_PARALLEL else params.parallel,
      if params.versionOffset <= 0 then DEFAULT_VERSION_OFFSET else params.versionOffset))
  }

  datatype Image = Image(id: string, name: string, status: string, createdAt: Time)

  // ---------------------------------------------------------------- one region

  predicate Contains(s: string, part: string) {
    exists i :: 0 <= i <= |s| && part <= s[i..]
  }

  /** Index of the last dash, -1 when there is none. */
  function LastDash(s: string): (i: int)
    ensures -1 <= i < |s|
    ensures i >= 0 ==> s[i] == '-'
    ensures forall j :: i < j < |s| ==> s[j] != '-'
  {
    if s == "" then -1 else if s[|s| - 1] == '-' then |s| - 1 else LastDash(s[..|s| - 1])
  }

  /** The canonical version in an image name `<prefix><version>-<hash>`. */
  function ParseVersion(g: Glance, lib: Library, name: string): Option<string> {
    if exists skip :: skip in g.params.excludedSuffixes && Contains(name, skip) then None
    else if !(g.namePrefix <= name) then None
    else
      var rest := name[|g.namePrefix|..];
      var idx := LastDash(rest);
      if idx <= 0 then None else lib.Canonical(rest[..idx])
  }

  /** Active before inactive, then the newer, then the larger id. */
  predicate PreferImage(candidate: Image, current: Image) {
    if (candidate.status == ACTIVE) != (current.status == ACTIVE) then candidate.status == ACTIVE
    else if candidate.createdAt != current.createdAt then candidate.createdAt > current.createdAt
    else !AtMost(candidate.id, current.id)
  }

  /** Preference is a strict total order on images with different ids. */
  lemma PreferenceOrder(a: Image, b: Image, c: Image)
    ensures !(PreferImage(a, b) && PreferImage(b, a))
    ensures PreferImage(a, b) && PreferImage(b, c) ==> PreferImage(a, c)
    ensures a.id != b.id ==> PreferImage(a, b) || PreferImage(b, a)
    ensures !PreferImage(a, b) && !PreferImage(b, a) <==>
              (a.status == ACTIVE <==> b.status == ACTIVE) && a.createdAt == b.createdAt && a.id == b.id
    ensures PreferImage(a, b) <==>
              || (a.status == "active" && b.status != "active")
              || ((a.status == "active" <==> b.status == "active") && a.createdAt > b.createdAt)
              || ((a.status == "active" <==> b.status == "active") && a.createdAt == b.createdAt &&
                  ComesBefore(b.id, a.id))
  {
    AtMostExactly(b.id, a.id);
    AtMostTotal(a.id, b.id);
    AtMostTotal(b.id, c.id);
    AtMostTotal(a.id, c.id);
    if AtMost(a.id, c.id) && AtMost(c.id, b.id) {
      AtMostTransitive(a.id, c.id, b.id);
    }
  }

  function Better(c: map<string, Image>, version: string, img: Image): map<string, Image> {
    if version !in c || PreferImage(img, c[version]) then c[version := img] else c
  }

  /** The image kept for each version after walking a listing. */
  function CanonicalImages(g: Glance, lib: Library, imgs: seq<Image>): map<string, Image> {
    if imgs == [] then map[]
    else
      var c, img := CanonicalImages(g, lib, imgs[..|imgs| - 1]), imgs[|imgs| - 1];
      match ParseVersion(g, lib, img.name) case Some(version) => Better(c, version, img) case None => c
  }

  /** What a region reports for a version. */
  function RegionalImage(region: string, version: string, id: string): SourceImage {
    SourceImage(version, version, [ARCHITECTURE], Some(map[ARCHITECTURE_CAPABILITY := [ARCHITECTURE]]), false,
                [RegionImage(region, id)], None, None)
  }

  /** `found` reports every canonical image of the region once, in any order. */
  ghost predicate Reports(region: string, canonical: map<string, string>, found: seq<SourceImage>) {
    && Distinct(Tags(found))
    && forall img :: img in found <==>
         img.version in canonical && img == RegionalImage(region, img.version, canonical[img.version])
  }

  function Ids(canonical: map<string, Image>): map<string, string> {
    map v | v in canonical :: canonical[v].id
  }

  /** The images of a region that could be listed. */
  method DiscoverRegion(g: Glance, lib: Library, region: string, imgs: seq<Image>) returns (found: seq<SourceImage>)
    ensures Reports(region, Ids(CanonicalImages(g, lib, imgs)), found)
    ensures forall img :: img in found ==>
              && img.cleanVersion == img.version && img.architectures == ["amd64"]
              && img.capabilities == Some(map["architecture" := ["amd64"]]) && !img.supportInPlaceUpdate
              && img.version in CanonicalImages(g, lib, imgs)
              && img.regions == [RegionImage(region, CanonicalImages(g, lib, imgs)[img.version].id)]
              && img.classification.None? && img.expirationDate.None?
  {
    var canonical: map<string, Image> := map[];
    for i := 0 to |imgs|
      invariant canonical == CanonicalImages(g, lib, imgs[..i])
    {
      assert imgs[..i + 1][..i] == imgs[..i];
      var version := ParseVersion(g, lib, imgs[i].name);
      if version.None? {
        continue;
      }
      if version.value !in canonical || PreferImage(imgs[i], canonical[version.value]) {
        canonical := canonical[version.value := imgs[i]];
      }
    }
    assert imgs[..|imgs|] == imgs;
    found := [];
    var rest := canonical.Keys;
    while rest != {}
      invariant rest <= canonical.Keys
      invariant Distinct(Tags(found))
      invariant forall img :: img in found <==>
                  && img.version in canonical && img.version !in rest
                  && img == RegionalImage(region, img.version, canonical[img.version].id)
      decreases rest
    {
      var version :| version in rest;
      found := found + [RegionalImage(region, version, canonical[version].id)];
      rest := rest - {version};
    }
  }

  // ---------------------------------------------------------------- the merge over regions

  datatype RegionResult = Found(images: seq<SourceImage>) | Failed | Cancelled

  /** All images received, in order of arrival. */
  function Flatten(arrivals: seq<RegionResult>): seq<SourceImage> {
    if arrivals == [] then []
    else
      var last := arrivals[|arrivals| - 1];
      Flatten(arrivals[..|arrivals| - 1]) + if last.Found? then last.images else []
  }

  function Extend(m: map<string, SourceImage>, img: SourceImage): map<string, SourceImage> {
    var entry := if img.version in m then m[img.version]
                 else SourceImage(
                   img.version, img.cleanVersion, img.architectures, img.capabilities, false, [], None, None);
    m[img.version := entry.(regions := entry.regions + img.regions)]
  }

  /** One entry per version that collects the regions. */
  function ByVersion(imgs: seq<SourceImage>): map<string, SourceImage> {
    if imgs == [] then map[] else Extend(ByVersion(imgs[..|imgs| - 1]), imgs[|imgs| - 1])
  }

  function AllRegions(imgs: seq<SourceImage>): set<string> {
    set img, r | img in imgs && r in img.regions :: r.region
  }

  function RegionNames(img: SourceImage): set<string> {
    set r | r in img.regions :: r.region
  }

  /** The merged entries in some order: the iteration order of a map. */
  ghost predicate Lists(versions: seq<SourceImage>, m: map<string, SourceImage>) {
    Distinct(Tags(versions)) && forall img :: img in versions <==> img.version in m && img == m[img.version]
  }

  method PresentRegions(v: SourceImage) returns (present: set<string>)
    ensures present == RegionNames(v)
  {
    present := {};
    for j := 0 to |v.regions|
      invariant present == set r | r in v.regions[..j] :: r.region
    {
      assert v.regions[..j + 1] == v.regions[..j] + [v.regions[j]];
      present := present + {v.regions[j].region};
    }
    assert v.regions[..|v.regions|] == v.regions;
  }

  method FilterRequireRegions(versions: seq<SourceImage>, baseline: set<string>) returns (kept: seq<SourceImage>)
    ensures kept == Select(versions, (v: SourceImage) => baseline <= RegionNames(v))
  {
    ghost var covers := (v: SourceImage) => baseline <= RegionNames(v);
    if |baseline| == 0 {
      SelectAll(versions, covers);
      return versions;
    }
    kept := [];
    for i := 0 to |versions|
      invariant kept + Select(versions[i..], covers) == Select(versions, covers)
    {
      SelectStep(versions, i, covers, kept);
      var v := versions[i];
      var present := PresentRegions(v);
      var missing := set region | region in baseline && region !in present;
      if missing != {} {
        continue;
      }
      assert forall region :: region in baseline ==> region !in missing;
      kept := kept + [v];
    }
  }

  // ---------------------------------------------------------------- window and stamp

  function Lo(g: Glance, n: nat): (lo: nat)
    ensures lo <= n
  {
    Min(g.offset, n)
  }

  function Hi(g: Glance, n: nat): (hi: nat)
    ensures Lo(g, n) <= hi <= n
  {
    if g.keepLatest > 0 then Min(Lo(g, n) + g.keepLatest, n) else n
  }

  /** Every version is supported except the last, which is deprecated and, without a date of its own,
      expires now. */
  function Stamped(versions: seq<SourceImage>, now: Time): (r: seq<SourceImage>)
    ensures |r| == |versions|
    ensures forall i :: 0 <= i < |versions| - 1 ==> r[i] == versions[i].(classification := Some(SUPPORTED))
    ensures versions != [] ==>
              var last := versions[|versions| - 1];
              r[|versions| - 1] == last.(classification := Some(DEPRECATED), expirationDate := DateOr(last, now))
  {
    seq(|versions|, i requires 0 <= i < |versions| =>
      if i < |versions| - 1 then versions[i].(classification := Some(SUPPORTED))
      else versions[i].(classification := Some(DEPRECATED), expirationDate := DateOr(versions[i], now)))
  }

  function DateOr(img: SourceImage, now: Time): Option<Time> {
    if img.expirationDate.None? then Some(now) else img.expirationDate
  }

  predicate NewestFirstImages(lib: Library, a: SourceImage, b: SourceImage) {
    lib.NewestFirst(a.version, b.version)
  }

  predicate Eligible(g: Glance, imgs: seq<SourceImage>, v: SourceImage) {
    g.params.requireAllRegions ==> AllRegions(imgs) <= RegionNames(v)
  }

  function EligibleIn(g: Glance, imgs: seq<SourceImage>): SourceImage -> bool {
    v => Eligible(g, imgs, v)
  }

  function NewestImages(lib: Library): (SourceImage, SourceImage) -> bool {
    (a, b) => NewestFirstImages(lib, a, b)
  }

  /** Everything the source may return for the images that arrived: the eligible merged entries, sorted
      newest first by the library, cut to the window and stamped. */
  ghost predicate GlanceResult(g: Glance, lib: Library, imgs: seq<SourceImage>, now: Time, r: seq<SourceImage>) {
    exists listed, sorted :: GlanceStages(g, lib, imgs, now, r, listed, sorted)
  }

  ghost predicate GlanceStages(g: Glance, lib: Library, imgs: seq<SourceImage>, now: Time, r: seq<SourceImage>,
                               listed: seq<SourceImage>, sorted: seq<SourceImage>) {
    && Lists(listed, ByVersion(imgs))
    && IsSortOf(sorted, Select(listed, EligibleIn(g, imgs)),
         NewestImages(lib))
    && r == Stamped(sorted[Lo(g, |sorted|)..Hi(g, |sorted|)], now)
  }

  lemma NewestFirstImagesPreorder(lib: Library)
    ensures TotalPreorder(NewestImages(lib))
  {
    var le := NewestImages(lib);
    forall a, b ensures le(a, b) || le(b, a) {
      NewestFirstOrder(lib, a.version, b.version, a.version);
    }
    forall a, b, c | le(a, b) && le(b, c) ensures le(a, c) {
      NewestFirstOrder(lib, a.version, b.version, c.version);
    }
  }

  lemma MergeSnoc(imgs: seq<SourceImage>, img: SourceImage)
    ensures ByVersion(imgs + [img]) == Extend(ByVersion(imgs), img)
    ensures AllRegions(imgs + [img]) == AllRegions(imgs) + RegionNames(img)
  {
    assert (imgs + [img])[..|imgs|] == imgs;
    assert forall x :: x in imgs + [img] <==> x in imgs || x == img;
  }

  method MergeOne(m: map<string, SourceImage>, img: SourceImage) returns (imagesByVersion: map<string, SourceImage>)
    ensures imagesByVersion == Extend(m, img)
  {
    imagesByVersion := m;
    if img.version !in imagesByVersion {
      imagesByVersion := imagesByVersion[img.version :=
        SourceImage(img.version, img.cleanVersion, img.architectures, img.capabilities, false, [], None, None)];
    }
    var entry := imagesByVersion[img.version];
    imagesByVersion := imagesByVersion[img.version := entry.(regions := entry.regions + img.regions)];
  }

  /** The images of one region, merged into what was collected from `before`. */
  method MergeImages(
      m: map<string, SourceImage>, regions: set<string>, ghost before: seq<SourceImage>, images: seq<SourceImage>)
    returns (imagesByVersion: map<string, SourceImage>, allRegions: set<string>)
    requires m == ByVersion(before) && regions == AllRegions(before)
    ensures imagesByVersion == ByVersion(before + images) && allRegions == AllRegions(before + images)
  {
    imagesByVersion, allRegions := m, regions;
    ghost var merged := before;
    for j := 0 to |images|
      invariant merged == before + images[..j]
      invariant imagesByVersion == ByVersion(merged) && allRegions == AllRegions(merged)
    {
      assert images[..j + 1] == images[..j] + [images[j]];
      MergeSnoc(merged, images[j]);
      imagesByVersion := MergeOne(imagesByVersion, images[j]);
      allRegions := allRegions + RegionNames(images[j]);
      merged := merged + [images[j]];
    }
    assert images[..|images|] == images;
  }

  predicate AllFailed(arrivals: seq<RegionResult>) {
    forall a :: a in arrivals ==> a == Failed
  }

  lemma ArrivalStep(arrivals: seq<RegionResult>, i: nat)
    requires i < |arrivals|
    ensures forall a :: a in arrivals[..i + 1] <==> a in arrivals[..i] || a == arrivals[i]
    ensures AllFailed(arrivals[..i + 1]) <==> AllFailed(arrivals[..i]) && arrivals[i] == Failed
    ensures Flatten(arrivals[..i + 1]) == Flatten(arrivals[..i]) + if arrivals[i].Found? then arrivals[i].images else []
  {
    assert arrivals[..i + 1] == arrivals[..i] + [arrivals[i]];
    assert arrivals[..i + 1][..i] == arrivals[..i];
    assert arrivals[i] in arrivals[..i + 1];
  }

  /** The collector loop: merges what arrives, or stops at a cancellation. */
  method MergeArrivals(arrivals: seq<RegionResult>)
    returns (cancelled: bool, imagesByVersion: map<string, SourceImage>, allRegions: set<string>, skipped: nat)
    ensures cancelled <==> Cancelled in arrivals
    ensures !cancelled ==>
              imagesByVersion == ByVersion(Flatten(arrivals)) && allRegions == AllRegions(Flatten(arrivals))
    ensures !cancelled ==> (skipped == |arrivals| <==> AllFailed(arrivals))
  {
    cancelled, imagesByVersion, allRegions, skipped := false, map[], {}, 0;
    for i := 0 to |arrivals|
      invariant Cancelled !in arrivals[..i]
      invariant imagesByVersion == ByVersion(Flatten(arrivals[..i]))
      invariant allRegions == AllRegions(Flatten(arrivals[..i]))
      invariant skipped <= i && (skipped == i <==> AllFailed(arrivals[..i]))
    {
      var result := arrivals[i];
      ArrivalStep(arrivals, i);
      if result.Cancelled? {
        cancelled := true;
        return;
      }
      ghost var before := Flatten(arrivals[..i]);
      if result.Failed? {
        assert before + [] == before;
        skipped := skipped + 1;
        continue;
      }
      imagesByVersion, allRegions := MergeImages(imagesByVersion, allRegions, before, result.images);
    }
    assert arrivals[..|arrivals|] == arrivals;
  }

  method ListValues(m: map<string, SourceImage>) returns (versions: seq<SourceImage>)
    requires forall v :: v in m ==> m[v].version == v
    ensures Lists(versions, m)
  {
    versions := [];
    var rest := m.Keys;
    while rest != {}
      invariant rest <= m.Keys
      invariant Distinct(Tags(versions))
      invariant forall img :: img in versions <==> img.version in m && img.version !in rest && img == m[img.version]
      decreases rest
    {
      var v :| v in rest;
      versions := versions + [m[v]];
      rest := rest - {v};
    }
  }

  lemma {:induction false} ByVersionKeyed(imgs: seq<SourceImage>)
    ensures forall v :: v in ByVersion(imgs) ==> ByVersion(imgs)[v].version == v
    ensures forall v :: v in ByVersion(imgs) <==> exists img :: img in imgs && img.version == v
  {
    if imgs != [] {
      ByVersionKeyed(imgs[..|imgs| - 1]);
      assert imgs == imgs[..|imgs| - 1] + [imgs[|imgs| - 1]];
    }
  }

  ghost predicate ListsEligible(
      g: Glance, imgs: seq<SourceImage>, listed: seq<SourceImage>, versions: seq<SourceImage>) {
    Lists(listed, ByVersion(imgs)) && versions == Select(listed, EligibleIn(g, imgs))
  }

  /** The merged entries, in some order, restricted to all regions when that is required. */
  method ListEligible(
      g: Glance, ghost imgs: seq<SourceImage>, imagesByVersion: map<string, SourceImage>, allRegions: set<string>)
    returns (versions: seq<SourceImage>)
    requires imagesByVersion == ByVersion(imgs) && allRegions == AllRegions(imgs)
    ensures exists listed :: ListsEligible(g, imgs, listed, versions)
  {
    ByVersionKeyed(imgs);
    var listed := ListValues(imagesByVersion);
    versions := listed;
    ghost var eligible := EligibleIn(g, imgs);
    if g.params.requireAllRegions {
      versions := FilterRequireRegions(versions, allRegions);
      SelectSame(listed, (v: SourceImage) => allRegions <= RegionNames(v), eligible);
    } else {
      SelectAll(listed, eligible);
    }
    assert ListsEligible(g, imgs, listed, versions);
  }

  ghost predicate CutFrom(
      g: Glance, lib: Library, versions: seq<SourceImage>, sorted: seq<SourceImage>, cut: seq<SourceImage>) {
    && IsSortOf(sorted, versions, NewestImages(lib))
    && cut == sorted[Lo(g, |sorted|)..Hi(g, |sorted|)]
  }

  /** Newest first, cut to the window. */
  method SortAndCut(g: Glance, lib: Library, versions: seq<SourceImage>) returns (cut: seq<SourceImage>)
    ensures exists sorted :: CutFrom(g, lib, versions, sorted, cut)
  {
    NewestFirstImagesPreorder(lib);
    var sorted := SortFunc(versions, NewestImages(lib));
    cut := sorted;
    if g.keepLatest > 0 || g.offset > 0 {
      var lo := Min(g.offset, |cut|);
      var hi := |cut|;
      if g.keepLatest > 0 {
        hi := Min(lo + g.keepLatest, |cut|);
      }
      cut := cut[lo..hi];
    }
    assert CutFrom(g, lib, versions, sorted, cut);
  }

  /** `GetVersions` after the workers have answered. It fails on a cancellation, and when every region
      failed. */
  method GetVersions(
      g: Glance, lib: Library, arrivals: seq<RegionResult>, now: Time) returns (r: Result<seq<SourceImage>, string>)
    ensures r.Err? <==> Cancelled in arrivals || forall a :: a in arrivals ==> a == Failed
    ensures r.Ok? ==> GlanceResult(g, lib, Flatten(arrivals), now, r.value)
  {
    var cancelled, imagesByVersion, allRegions, skipped := MergeArrivals(arrivals);
    if cancelled {
      return Err("context cancelled");
    }
    if skipped == |arrivals| {
      NothingFound(arrivals);
    }
    if |imagesByVersion| == 0 && skipped == |arrivals| {
      return Err("all regions failed");
    }
    ghost var imgs := Flatten(arrivals);
    var versions := ListEligible(g, imgs, imagesByVersion, allRegions);
    var cut := SortAndCut(g, lib, versions);
    var stamped := Stamp(cut, now);
    ghost var listed :| ListsEligible(g, imgs, listed, versions);
    ghost var sorted :| CutFrom(g, lib, versions, sorted, cut);
    assert GlanceStages(g, lib, imgs, now, stamped, listed, sorted);
    return Ok(stamped);
  }

  method Stamp(versions: seq<SourceImage>, now: Time) returns (r: seq<SourceImage>)
    ensures r == Stamped(versions, now)
  {
    r := versions;
    for i := 0 to |r|
      invariant |r| == |versions|
      invariant forall j :: 0 <= j < i ==> r[j] == versions[j].(classification := Some(SUPPORTED))
      invariant forall j :: i <= j < |r| ==> r[j] == versions[j]
    {
      r := r[i := r[i].(classification := Some(SUPPORTED))];
    }
    if |r| > 0 {
      var last := r[|r| - 1].(classification := Some(DEPRECATED));
      if last.expirationDate.None? {
        last := last.(expirationDate := Some(now));
      }
      r := r[|r| - 1 := last];
    }
  }

  lemma {:induction false} NothingFound(arrivals: seq<RegionResult>)
    requires AllFailed(arrivals)
    ensures Flatten(arrivals) == []
  {
    if arrivals != [] {
      var n := |arrivals| - 1;
      assert arrivals[n] in arrivals && forall a :: a in arrivals[..n] ==> a in arrivals;
      NothingFound(arrivals[..n]);
    }
  }
}
