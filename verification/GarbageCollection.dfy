/** Garbage collection of stale image versions: which versions shoots use, which tags are old, and
    the filter `Fetch` applies. */
module GarbageCollection {
  import opened Prelude
  import opened Sorting
  import opened Keyed
  import opened Images
  import opened Semver
  import opened ImageUpdater
  import opened ImageMerge
  import opened MergeTheorems

  datatype WorkerImage = WorkerImage(name: string, version: Option<string>)

  /** A shoot cluster: its cloud profile, the machine image of each worker pool that names one, and
      the Gardener version in its status. */
  datatype Shoot = Shoot(cloudProfile: Option<string>, workers: seq<Option<WorkerImage>>, gardenerVersion: string)

  /** `strings.ReplaceAll(tag, "_", "+")`. */
  function NormalizeTag(tag: string): (r: string)
    ensures |r| == |tag| && forall i :: 0 <= i < |tag| ==> r[i] == if tag[i] == '_' then '+' else tag[i]
  {
    seq(|tag|, i requires 0 <= i < |tag| => if tag[i] == '_' then '+' else tag[i])
  }

  /** Normalisation never merges two tags without a plus sign, and merges every tag that has one
      with another tag. */
  lemma NormalizeTagInjective(tag: string)
    ensures '+' !in tag <==>
              forall other :: '+' !in other ==> (NormalizeTag(other) == NormalizeTag(tag) ==> other == tag)
    ensures NormalizeTag(NormalizeTag(tag)) == NormalizeTag(tag)
  {
    if '+' in tag {
      var i :| 0 <= i < |tag| && tag[i] == '+';
      var other := seq(|tag|, j requires 0 <= j < |tag| => if tag[j] == '+' then '_' else tag[j]);
      assert NormalizeTag(other) == NormalizeTag(tag);
      assert other[i] != tag[i];
    }
  }

  datatype Filter = Filter(tags: map<string, Time>, protectedVersions: set<string>, cutoff: Time) {

    predicate Keep(img: SourceImage) {
      if img.version in protectedVersions then true
      else if img.cleanVersion != "" && img.cleanVersion in protectedVersions then true
      else if img.version !in tags then true
      else !(tags[img.version] < cutoff)
    }
  }

  /** Returns the images that remain, in order. An image is collected exactly when it is known to be older
      than the cutoff and neither its tag nor its clean version is in use. */
  method FilterImages(f: Filter, images: seq<SourceImage>) returns (kept: seq<SourceImage>)
    ensures kept == Select(images, img => f.Keep(img))
    ensures Subsequence(kept, images)
    ensures forall img :: img in images && img !in kept <==>
              && img in images && img.version in f.tags && f.tags[img.version] < f.cutoff
              && img.version !in f.protectedVersions
              && (img.cleanVersion == "" || img.cleanVersion !in f.protectedVersions)
  {
    kept := [];
    ghost var keep := (img: SourceImage) => f.Keep(img);
    for i := 0 to |images|
      invariant kept + Select(images[i..], keep) == Select(images, keep)
    {
      SelectStep(images, i, keep, kept);
      if f.Keep(images[i]) {
        kept := kept + [images[i]];
      }
    }
    SelectIsSubsequence(images, keep);
  }

  /** Some worker pool of a shoot on this profile names version `v` of this image. */
  predicate InUse(shoots: seq<Shoot>, profile: string, imageName: string, v: string) {
    exists i, j ::
      && 0 <= i < |shoots| && shoots[i].cloudProfile == Some(profile)
      && 0 <= j < |shoots[i].workers| && shoots[i].workers[j] == Some(WorkerImage(imageName, Some(v)))
  }

  method ReferencedVersions(shoots: seq<Shoot>, profile: string, imageName: string) returns (referenced: set<string>)
    ensures forall v :: InUse(shoots, profile, imageName, v) ==> NormalizeTag(v) in referenced
    ensures forall r :: r in referenced ==> exists v :: InUse(shoots, profile, imageName, v) && r == NormalizeTag(v)
    ensures forall r :: r in referenced <==> exists shoot, worker ::
              && shoot in shoots && shoot.cloudProfile == Some(profile) && worker in shoot.workers && worker.Some?
              && worker.value.name == imageName && worker.value.version.Some?
              && r == NormalizeTag(worker.value.version.value)
  {
    referenced := {};
    for i := 0 to |shoots|
      invariant forall v :: InUse(shoots[..i], profile, imageName, v) ==> NormalizeTag(v) in referenced
      invariant forall r :: r in referenced ==> exists v :: InUse(shoots, profile, imageName, v) && r == NormalizeTag(v)
    {
      var shoot := shoots[i];
      if shoot.cloudProfile.None? || shoot.cloudProfile.value != profile {
        continue;
      }
      for j := 0 to |shoot.workers|
        invariant forall v :: InUse(shoots[..i], profile, imageName, v) ==> NormalizeTag(v) in referenced
        invariant forall k, v :: 0 <= k < j && shoot.workers[k] == Some(WorkerImage(imageName, Some(v))) ==>
                    NormalizeTag(v) in referenced
        invariant forall r :: r in referenced ==>
                    exists v :: InUse(shoots, profile, imageName, v) && r == NormalizeTag(v)
      {
        var worker := shoot.workers[j];
        if worker.None? || worker.value.name != imageName {
          continue;
        }
        if worker.value.version.Some? {
          assert InUse(shoots, profile, imageName, worker.value.version.value);
          referenced := referenced + {NormalizeTag(worker.value.version.value)};
        }
      }
    }
    assert shoots[..|shoots|] == shoots;
    forall shoot, worker | shoot in shoots && worker in shoot.workers && worker.Some? && worker.value.version.Some?
      ensures shoot.cloudProfile == Some(profile) && worker.value.name == imageName ==>
                InUse(shoots, profile, imageName, worker.value.version.value) {
      var i :| 0 <= i < |shoots| && shoots[i] == shoot;
      var j :| 0 <= j < |shoot.workers| && shoot.workers[j] == worker;
    }
  }

  /** These are the push times under normal forms. The map of registry tags is walked in any order, so a tag
      keeps its own push time for certain only when no other tag has the same normal form. */
  ghost predicate PushTimes(rawTags: map<string, Time>, tags: map<string, Time>) {
    && (forall v :: v in tags ==> exists t :: t in rawTags && NormalizeTag(t) == v && rawTags[t] == tags[v])
    && (forall t :: t in rawTags ==> NormalizeTag(t) in tags)
    && ((forall t :: t in rawTags ==> '+' !in t) ==> forall t :: t in rawTags ==> tags[NormalizeTag(t)] == rawTags[t])
  }

  /** Registry tags in the space of source image versions. */
  method NormalizedTags(rawTags: map<string, Time>) returns (tags: map<string, Time>)
    ensures PushTimes(rawTags, tags)
  {
    tags := map[];
    var rest := rawTags.Keys;
    while rest != {}
      invariant rest <= rawTags.Keys
      invariant forall v :: v in tags ==>
                  exists t :: t in rawTags && t !in rest && NormalizeTag(t) == v && rawTags[t] == tags[v]
      invariant forall t :: t in rawTags && t !in rest ==> NormalizeTag(t) in tags
      decreases rest
    {
      var tag :| tag in rest;
      tags := tags[NormalizeTag(tag) := rawTags[tag]];
      rest := rest - {tag};
    }
    if forall t :: t in rawTags ==> '+' !in t {
      forall t | t in rawTags ensures tags[NormalizeTag(t)] == rawTags[t] {
        NormalizeTagInjective(t);
      }
    }
  }

  datatype GarbageCollectionConfig = GarbageCollectionConfig(enabled: bool, maxAge: int)

  /** There is a filter exactly when images are to be collected and neither the age nor the registry is at
      fault; those faults are errors, which callers turn into no filter. The filter has the push times of
      the registry, a cutoff that is the maximal age before now, and protects exactly the versions in
      use. */
  method BuildGCFilter(
    gc: Option<GarbageCollectionConfig>, paused: bool, ociSource: bool, rawTags: Result<map<string, Time>, string>,
    now: Time, shoots: seq<Shoot>, profile: string, imageName: string)
    returns (filter: Result<Option<Filter>, string>)
    ensures filter.Err? <==>
              gc.Some? && gc.value.enabled && !paused && ociSource && (gc.value.maxAge < 0 || rawTags.Err?)
    ensures filter.Ok? ==> (filter.value.Some? <==> gc.Some? && gc.value.enabled && !paused && ociSource)
    ensures filter.Ok? && filter.value.Some? ==>
              && filter.value.value.cutoff == now - gc.value.maxAge <= now
              && PushTimes(rawTags.value, filter.value.value.tags)
              && Protects(filter.value.value, shoots, profile, imageName)
              && forall r :: r in filter.value.value.protectedVersions ==>
                   exists v :: InUse(shoots, profile, imageName, v) && r == NormalizeTag(v)
  {
    if gc.None? || !gc.value.enabled {
      return Ok(None);
    }
    if paused {
      return Ok(None);
    }
    if !ociSource {
      return Ok(None);
    }
    if gc.value.maxAge < 0 {
      return Err("invalid garbage collection maxAge");
    }
    if rawTags.Err? {
      return Err(rawTags.error);
    }
    var tags := NormalizedTags(rawTags.value);
    var protectedVersions := ReferencedVersions(shoots, profile, imageName);
    return Ok(Some(Filter(tags, protectedVersions, now - gc.value.maxAge)));
  }

  /** The filter of `Fetch`: none keeps everything. */
  function KeepFor(f: Option<Filter>): SourceImage -> bool {
    img => f.None? || f.value.Keep(img)
  }

  /** An image that no one uses and that was pushed before the later cutoff but not before the earlier. */
  predicate Ages(f: Filter, later: Time, img: SourceImage) {
    && img.version in f.tags && f.cutoff <= f.tags[img.version] < later
    && img.version !in f.protectedVersions
    && (img.cleanVersion == "" || img.cleanVersion !in f.protectedVersions)
  }

  /** Two fetches of the same images under a cutoff that moves on return the same exactly when no validated
      image ages in between. */
  lemma FetchesAgreeExactly(
    lib: Library, x: seq<SourceImage>, y: seq<SourceImage>, f: Filter, later: Time, a: seq<SourceImage>,
    b: seq<SourceImage>)
    requires Distinct(Tags(x)) && multiset(x) == multiset(y) && f.cutoff <= later
    requires FetchResult(lib, x, KeepFor(Some(f)), a) && FetchResult(lib, y, KeepFor(Some(f.(cutoff := later))), b)
    ensures a == b <==> forall v :: v in ValidatedAll(lib, x) ==> !Ages(f, later, v)
  {
    var p, q := KeepFor(Some(f)), KeepFor(Some(f.(cutoff := later)));
    var sorted :| IsSortOf(sorted, ValidatedAll(lib, x), FetchOrder) && a == Select(sorted, p);
    var other :| IsSortOf(other, ValidatedAll(lib, y), FetchOrder) && b == Select(other, q);
    SortedOnce(lib, x, y, sorted, other);
    SameMembers(sorted, ValidatedAll(lib, x));
    SelectAgree(sorted, p, q);
    forall v ensures p(v) == q(v) <==> !Ages(f, later, v) {
      AgesExactly(f, later, v);
    }
  }

  /** The later fetch is the earlier one without the images that aged, in the same order. */
  lemma LaterFetch(
    lib: Library, x: seq<SourceImage>, y: seq<SourceImage>, f: Filter, later: Time, a: seq<SourceImage>,
    b: seq<SourceImage>)
    requires Distinct(Tags(x)) && multiset(x) == multiset(y) && f.cutoff <= later
    requires FetchResult(lib, x, KeepFor(Some(f)), a) && FetchResult(lib, y, KeepFor(Some(f.(cutoff := later))), b)
    ensures b == Select(a, img => !Ages(f, later, img))
  {
    var p, q := KeepFor(Some(f)), KeepFor(Some(f.(cutoff := later)));
    var sorted :| IsSortOf(sorted, ValidatedAll(lib, x), FetchOrder) && a == Select(sorted, p);
    var other :| IsSortOf(other, ValidatedAll(lib, y), FetchOrder) && b == Select(other, q);
    SortedOnce(lib, x, y, sorted, other);
    SelectBoth(sorted, p, img => !Ages(f, later, img), q);
  }

  lemma AgesExactly(f: Filter, later: Time, img: SourceImage)
    requires f.cutoff <= later
    ensures f.Keep(img) == f.(cutoff := later).Keep(img) <==> !Ages(f, later, img)
  {
  }

  ghost predicate Protects(f: Filter, shoots: seq<Shoot>, profile: string, imageName: string) {
    forall v :: InUse(shoots, profile, imageName, v) ==> NormalizeTag(v) in f.protectedVersions
  }

  /** Collection never removes what is in use: a validated image whose tag or clean version is the
      normalised version some worker pool names survives `Fetch`, and after the merge its tag, if
      valid, and its clean version, if capabilities are enabled, have entries. */
  lemma VersionsInUseSurvive(
    lib: Library, u: Updater, f: Filter, shoots: seq<Shoot>, profile: string, v: string,
    reported: seq<SourceImage>, fetched: seq<SourceImage>, img: SourceImage,
    allowed: map<string, set<string>>, base: seq<ImageVersion>)
    requires Protects(f, shoots, profile, u.imageName) && InUse(shoots, profile, u.imageName, v)
    requires img in ValidatedAll(lib, reported)
    requires NormalizeTag(v) == img.version || (img.cleanVersion != "" && NormalizeTag(v) == img.cleanVersion)
    requires FetchResult(lib, reported, i => f.Keep(i), fetched)
    ensures img in fetched
    ensures var names := Keys(Merged(lib, u, base, FilteredSources(fetched, allowed)));
            && (lib.Valid(img.version) ==> img.version in names)
            && (u.enableCapabilities && img.cleanVersion != "" ==> img.cleanVersion in names)
  {
    var sorted :|
      IsSortOf(sorted, ValidatedAll(lib, reported), FetchOrder) && fetched == Select(sorted, i => f.Keep(i));
    SameMembers(sorted, ValidatedAll(lib, reported));
    assert f.Keep(img);
    var srcs := FilteredSources(fetched, allowed);
    MergedVersionSet(lib, u, base, srcs);
    var i :| 0 <= i < |fetched| && fetched[i] == img;
    assert srcs[i] in srcs;
    if lib.Valid(img.version) {
      assert Introduces(lib, u, srcs[i], img.version);
    }
    if WritesClean(u, img) {
      assert Introduces(lib, u, srcs[i], img.cleanVersion);
    }
  }
}
