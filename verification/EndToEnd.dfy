/** The pipeline as a whole, from registries and regions to the stored profile, reconciled twice. */
module EndToEnd {
  import opened Prelude
  import opened Sorting
  import opened Keyed
  import opened Images
  import opened Semver
  import opened CapabilitySets
  import opened ImageUpdater
  import opened ImageMerge
  import opened MergeTheorems
  import opened GarbageCollection
  import opened GlanceTheorems
  import opened GlanceEndToEnd
  import opened RankWindows
  import opened AlikeSources
  import opened OciCollection
  import opened CloudProfile
  import opened CloudProfileTheorems
  import opened ProviderChains
  import opened SteadyState
  import GlanceSource
  import OciSource
  import WorkerProtocol

  // ---------------------------------------------------------------- unchanged sources

  /** What a source holds at both times: the regions of a Glance source, or an OCI repository with the
      filter of the first time and the cutoff of the second when images are collected. */
  datatype Holdings =
    | Regions(g: GlanceSource.Glance, grid: Grid, now: Time, later: Time)
    | Tagged(o: OciSource.Oci, repo: Repository, collection: Option<Filter>, laterCutoff: Time)

  function LaterFilter(h: Holdings): Option<Filter>
    requires h.Tagged?
  {
    if h.collection.Some? then Some(h.collection.value.(cutoff := h.laterCutoff)) else None
  }

  /** `Fetch` returns `a` at the first time and `b` at the second, from the same holdings. */
  ghost predicate FetchedTwice(lib: Library, h: Holdings, a: seq<SourceImage>, b: seq<SourceImage>) {
    match h
    case Regions(g, grid, now, later) =>
      CanonicalGrid(lib, grid) && Fetched(g, lib, grid, now, a) && Fetched(g, lib, grid, later, b)
    case Tagged(o, repo, collection, laterCutoff) =>
      && OciSource.Plain(o, repo.tags, repo.manifests)
      && (collection.Some? ==> collection.value.cutoff <= laterCutoff)
      && OciFetched(lib, o, repo, collection, a) && OciFetched(lib, o, repo, LaterFilter(h), b)
  }

  /** The second time brings nothing new: ties leave the Glance window no choice, and no unused image of the
      repository passes the cutoff in between. */
  ghost predicate Quiet(lib: Library, h: Holdings) {
    match h
    case Regions(g, grid, _, _) => WindowDecided(g, lib, grid)
    case Tagged(o, repo, collection, laterCutoff) =>
      collection.Some? ==> !SomethingAges(lib, o, repo, collection.value, laterCutoff)
  }

  lemma QuietFetches(lib: Library, h: Holdings, a: seq<SourceImage>, b: seq<SourceImage>)
    requires lib.Lawful() && FetchedTwice(lib, h, a, b) && Quiet(lib, h)
    ensures AllAlike(a, b) && (a == b || OneVersionEach(lib, a))
  {
    match h
    case Regions(g, grid, now, later) => FetchedAlike(g, lib, grid, now, a, later, b);
    case Tagged(o, repo, collection, laterCutoff) =>
      if collection.Some? {
        OciCollection.FetchFixedExactly(lib, o, repo, collection.value, laterCutoff, a, b);
      } else {
        FetchFixedWithoutCollection(lib, o, repo, a, b);
      }
  }

  /** The same spec at two times, its updates fetching from the same holdings. */
  ghost predicate HeldSpec<C>(lib: Library, s: Spec<C>, t: Spec<C>, holdings: seq<Holdings>) {
    && t == s.(updates := t.updates) && |t.updates| == |s.updates| == |holdings| && Succeeds(lib, s) && !s.paused
    && forall i :: 0 <= i < |s.updates| ==>
         && t.updates[i].fetched.Ok? && t.updates[i] == s.updates[i].(fetched := t.updates[i].fetched)
         && s.updates[i].fetched.Ok?
         && FetchedTwice(lib, holdings[i], s.updates[i].fetched.value, t.updates[i].fetched.value)
  }

  ghost predicate QuietSpec<C>(lib: Library, s: Spec<C>, t: Spec<C>, holdings: seq<Holdings>) {
    HeldSpec(lib, s, t, holdings) && forall i :: 0 <= i < |holdings| ==> Quiet(lib, holdings[i])
  }

  lemma QuietUpdates<C>(lib: Library, s: Spec<C>, t: Spec<C>, holdings: seq<Holdings>)
    requires lib.Lawful() && WellFormed(s.base.images) && QuietSpec(lib, s, t, holdings)
    ensures SameUpdates(s.updates, t.updates) && WellFormedSpec(lib, s)
    ensures forall i :: 0 <= i < |s.updates| ==>
              s.updates[i].fetched == t.updates[i].fetched || OneVersionEach(lib, s.updates[i].fetched.value)
  {
    forall i | 0 <= i < |s.updates|
      ensures AllAlike(s.updates[i].fetched.value, t.updates[i].fetched.value)
      ensures CleanVersionsValid(lib, s.updates[i].updater, s.updates[i].fetched.value)
      ensures s.updates[i].fetched == t.updates[i].fetched || OneVersionEach(lib, s.updates[i].fetched.value) {
      QuietFetches(lib, holdings[i], s.updates[i].fetched.value, t.updates[i].fetched.value);
      FetchedCleanly(lib, holdings[i], s.updates[i].updater, s.updates[i].fetched.value, t.updates[i].fetched.value);
    }
  }

  /** Validation makes the clean versions of a fetch valid. */
  lemma FetchedCleanly(lib: Library, h: Holdings, u: Updater, a: seq<SourceImage>, b: seq<SourceImage>)
    requires lib.Lawful() && FetchedTwice(lib, h, a, b)
    ensures CleanVersionsValid(lib, u, a) && CleanVersionsValid(lib, u, b)
  {
    match h
    case Regions(g, grid, now, later) =>
      GlanceFetchedCleanly(g, lib, grid, now, u, a);
      GlanceFetchedCleanly(g, lib, grid, later, u, b);
    case Tagged(o, repo, collection, laterCutoff) =>
      OciFetchedCleanly(lib, o, repo, collection, u, a);
      OciFetchedCleanly(lib, o, repo, LaterFilter(h), u, b);
  }

  lemma GlanceFetchedCleanly(
      g: GlanceSource.Glance, lib: Library, grid: Grid, now: Time, u: Updater, a: seq<SourceImage>)
    requires lib.Lawful() && Fetched(g, lib, grid, now, a)
    ensures CleanVersionsValid(lib, u, a)
  {
    var imgs: seq<SourceImage>, reported: seq<SourceImage> :| FetchedVia(g, lib, grid, now, a, imgs, reported);
    FetchedAreSound(lib, reported, KeepAll, a);
  }

  lemma OciFetchedCleanly(
      lib: Library, o: OciSource.Oci, repo: Repository, f: Option<Filter>, u: Updater, a: seq<SourceImage>)
    requires lib.Lawful() && OciFetched(lib, o, repo, f, a)
    ensures CleanVersionsValid(lib, u, a)
  {
    var e: WorkerProtocol.Env<OciSource.TagResult>, run: seq<WorkerProtocol.State<OciSource.TagResult>>,
        imgs: seq<SourceImage> :| OciFetchedVia(lib, o, repo, f, a, e, run, imgs);
    FetchedAreSound(lib, imgs, KeepFor(f), a);
  }

  // ---------------------------------------------------------------- idempotence of reconciliation

  /** For providers that do not read dates. */
  lemma ReconcileExactly<C(!new)>(
      lib: Library, stored: Profile<C>, s: Spec<C>, t: Spec<C>, holdings: seq<Holdings>)
    requires lib.Lawful() && WellFormed(s.base.images) && QuietSpec(lib, s, t, holdings)
    requires forall i :: 0 <= i < |s.updates| ==> Blind(s.updates[i].provider)
    ensures Succeeds(lib, t)
    ensures Reconciled(lib, Reconciled(lib, stored, s), t) == Reconciled(lib, stored, s) <==>
              forall name, k :: !Drifts(lib, s, t, name, k)
    ensures Reconciled(lib, Reconciled(lib, stored, s), t).config == Reconciled(lib, stored, s).config
    ensures Distinct(Names(s.updates)) ==>
              Reconciled(lib, Reconciled(lib, stored, s), t) == Reconciled(lib, stored, s)
  {
    QuietUpdates(lib, s, t, holdings);
    SecondReconcileExactly(lib, stored, s, t);
    if Distinct(Names(s.updates)) {
      SecondReconcileChangesNothing(lib, stored, s, t);
    }
  }

  /** Exactly when reconciliation is idempotent, for OpenStack updates and any provider configuration. With an
      unchanged spec, and registries and regions that hold the same and are quiet, a second reconcile at a
      later time leaves machine images and provider configuration exactly as the first left them, although
      Glance stamps the new time and the cutoff of the collection has moved, exactly when no version drifts;
      the provider configuration stays in any case, and with one update per image nothing drifts. */
  lemma OpenStackReconcileExactly(
    lib: Library, stored: Profile<OpenStackConfig>, s: Spec<OpenStackConfig>, t: Spec<OpenStackConfig>,
    holdings: seq<Holdings>)
    requires lib.Lawful() && WellFormed(s.base.images) && QuietSpec(lib, s, t, holdings)
    requires forall i :: 0 <= i < |s.updates| ==> s.updates[i].provider == OpenStackFor(s.updates[i].updater)
    ensures Succeeds(lib, t)
    ensures Reconciled(lib, Reconciled(lib, stored, s), t) == Reconciled(lib, stored, s) <==>
              forall name, k :: !Drifts(lib, s, t, name, k)
    ensures Reconciled(lib, Reconciled(lib, stored, s), t).config == Reconciled(lib, stored, s).config
    ensures Distinct(Names(s.updates)) ==>
              Reconciled(lib, Reconciled(lib, stored, s), t) == Reconciled(lib, stored, s)
  {
    forall i | 0 <= i < |s.updates| ensures Blind(s.updates[i].provider) {
      OpenStackIsBlind(s.updates[i].updater);
    }
    ReconcileExactly(lib, stored, s, t, holdings);
  }

  /** The same for Ironcore updates. */
  lemma IroncoreReconcileExactly(
    lib: Library, stored: Profile<MetalConfig>, s: Spec<MetalConfig>, t: Spec<MetalConfig>,
    registries: seq<Registry>, holdings: seq<Holdings>)
    requires lib.Lawful() && WellFormed(s.base.images) && QuietSpec(lib, s, t, holdings)
    requires |registries| == |s.updates|
    requires forall i :: 0 <= i < |s.updates| ==>
               s.updates[i].provider ==
                 IroncoreFor(registries[i].registry, registries[i].repository, s.updates[i].updater)
    ensures Succeeds(lib, t)
    ensures Reconciled(lib, Reconciled(lib, stored, s), t) == Reconciled(lib, stored, s) <==>
              forall name, k :: !Drifts(lib, s, t, name, k)
    ensures Reconciled(lib, Reconciled(lib, stored, s), t).config == Reconciled(lib, stored, s).config
    ensures Distinct(Names(s.updates)) ==>
              Reconciled(lib, Reconciled(lib, stored, s), t) == Reconciled(lib, stored, s)
  {
    forall i | 0 <= i < |s.updates| ensures Blind(s.updates[i].provider) {
      IroncoreIsBlind(registries[i].registry, registries[i].repository, s.updates[i].updater);
    }
    ReconcileExactly(lib, stored, s, t, holdings);
  }

  // ---------------------------------------------------------------- a cutoff that moves on

  function OneUpdate<C>(u: Updater, provider: Provider<C>, fetched: seq<SourceImage>): Spec<C> {
    Spec(Profile([], None), [], false, [Update(u, provider, Ok(fetched))])
  }

  lemma OneUpdateEntry<C>(
      lib: Library, u: Updater, provider: Provider<C>, fetched: seq<SourceImage>, stored: Profile<C>, v: string)
    requires CleanVersionsValid(lib, u, fetched)
    ensures Succeeds(lib, OneUpdate(u, provider, fetched)) || u.minVersionForUpdate.Some?
    ensures Succeeds(lib, OneUpdate(u, provider, fetched)) ==>
              (VersionAt(Reconciled(lib, stored, OneUpdate(u, provider, fetched)).images, u.imageName, v).Some? <==>
               Hits(u, FilteredSources(fetched, map[]), v) != [] && lib.Valid(v))
  {
    var spec := OneUpdate(u, provider, fetched);
    assert Declared([]) == map[];
    ChainEntry(lib, [], Profile<C>.Profile([], None), spec.updates, u.imageName, v);
    assert ChainHits([], spec.updates, u.imageName, v) ==
             Hits(u, FilteredSources(fetched, map[]), v) + ChainHits([], spec.updates[1..], u.imageName, v);
    if Succeeds(lib, spec) {
      var next := Target(lib, stored, spec).images;
      SameLocate(Carried(stored.images, next), next, u.imageName, First);
      var i := Locate(next, u.imageName, First);
      if i != -1 {
        SameLocate(Carried(stored.images, next)[i].body.versions, next[i].body.versions, v, Last);
      }
    }
  }

  /** The smallest input on which collection moves the stored profile, with nothing changed but the time: the
      one image of `CutoffMovesOn` is in the profile first and gone then. */
  lemma CollectionMovesTheProfile<C>(lib: Library, name: string, provider: Provider<C>, pushed: Time)
    returns (a: seq<SourceImage>, b: seq<SourceImage>)
    requires lib.Valid("1.0.0")
    ensures FetchedTwice(lib, Tagged(NO_FEATURES, ONE_TAG, Some(OneTagFilter(pushed, pushed)), pushed + 1), a, b)
    ensures var u, empty := Updater(name, false, None), Profile([], None);
            var s, t := OneUpdate(u, provider, a), OneUpdate(u, provider, b);
            && Succeeds(lib, s) && Succeeds(lib, t)
            && Reconciled(lib, Reconciled(lib, empty, s), t).images != Reconciled(lib, empty, s).images
  {
    a, b := CutoffMovesOn(lib, pushed);
    PlainTag();
    ProfilesDiffer(lib, Updater(name, false, None), provider, a, b);
  }

  lemma PlainTag()
    ensures OciSource.Plain(NO_FEATURES, ONE_TAG.tags, ONE_TAG.manifests)
  {
  }

  /** A fetch with a valid tag and an empty one leave different profiles. */
  lemma ProfilesDiffer<C>(lib: Library, u: Updater, provider: Provider<C>, a: seq<SourceImage>, b: seq<SourceImage>)
    requires ONE_IMAGE in a && b == [] && lib.Valid(ONE_IMAGE.version) && u.minVersionForUpdate.None?
    requires !u.enableCapabilities
    ensures var s, t, empty := OneUpdate(u, provider, a), OneUpdate(u, provider, b), Profile([], None);
            && Succeeds(lib, s) && Succeeds(lib, t)
            && Reconciled(lib, Reconciled(lib, empty, s), t).images != Reconciled(lib, empty, s).images
  {
    var empty := Profile<C>.Profile([], None);
    OneUpdateEntry(lib, u, provider, a, empty, ONE_IMAGE.version);
    OneUpdateEntry(lib, u, provider, b, Reconciled(lib, empty, OneUpdate(u, provider, a)), ONE_IMAGE.version);
    var i :| 0 <= i < |a| && a[i] == ONE_IMAGE;
    LegacyHitThere(u, FilteredSources(a, map[]), i);
  }

  // ---------------------------------------------------------------- two updates of one image

  /** Two versions in one region. */
  function TwoVersions(n: string, v: string, w: string): Grid {
    map[n := map[v := "1", w := "2"]]
  }

  lemma TwoVersionsRanked(g: GlanceSource.Glance, lib: Library, n: string, v: string, w: string)
    requires v != w && lib.NewestFirst(v, w) && !lib.NewestFirst(w, v)
    ensures Ranked([v, w], Kept(g, TwoVersions(n, v, w)), Newest(lib)) && WindowDecided(g, lib, TwoVersions(n, v, w))
  {
    TwoKept(g, n, v, w);
    NewestPreorder(lib);
    TwoRanked(v, w, GlanceSource.Lo(g, 2), GlanceSource.Hi(g, 2), Newest(lib));
  }

  lemma TwoKept(g: GlanceSource.Glance, n: string, v: string, w: string)
    requires v != w
    ensures Kept(g, TwoVersions(n, v, w)) == {v, w} && |Kept(g, TwoVersions(n, v, w))| == 2
  {
    var grid := TwoVersions(n, v, w);
    forall u ensures u in Kept(g, grid) <==> u in {v, w} {
      assert n in grid && (u in grid[n] <==> u == v || u == w);
    }
    assert Kept(g, grid) == {v} + {w} && {v} * {w} == {};
  }

  /** What a Glance update keeping the newest `keep` of the two versions returns at some time: `v` is the last
      one, deprecated and dated, or supported and undated. */
  lemma GlanceFetch(g: GlanceSource.Glance, lib: Library, n: string, v: string, w: string, now: Time)
    returns (a: seq<SourceImage>, i: nat)
    requires lib.Lawful() && lib.Canonical(v) == Some(v) && lib.Canonical(w) == Some(w)
    requires v != w && lib.NewestFirst(v, w) && !lib.NewestFirst(w, v)
    requires g.offset == 0 && 1 <= g.keepLatest <= 2
    ensures Fetched(g, lib, TwoVersions(n, v, w), now, a) && OneVersionEach(lib, a)
    ensures i < |a| && a[i].version == v
    ensures g.keepLatest == 1 ==> a[i].classification == Some(DEPRECATED) && a[i].expirationDate == Some(now)
    ensures g.keepLatest == 2 ==> a[i].classification == Some(SUPPORTED) && a[i].expirationDate.None?
  {
    var grid := TwoVersions(n, v, w);
    TwoVersionsRanked(g, lib, n, v, w);
    var imgs, r;
    imgs, r, a := FetchThrough(g, lib, grid, now, [v, w]);
    WindowByRank(g, lib, imgs, grid, now, r);
    FetchedAlike(g, lib, grid, now, a, now, a);
    SameMembers(a, r);
    assert Tags(r)[0] == v;
    assert r[0] in a;
    i :| 0 <= i < |a| && a[i] == r[0];
  }

  /** Two Glance updates of one image: the first keeps only the newest version, so deprecates it and stamps
      the time; the second keeps two and supports it again. */
  function TwoUpdates(u: Updater, a: seq<SourceImage>, b: seq<SourceImage>): Spec<OpenStackConfig> {
    Spec(Profile([], None), [], false, [Update(u, OpenStackFor(u), Ok(a)), Update(u, OpenStackFor(u), Ok(b))])
  }

  /** So the version ends supported with the time of the reconcile, which nothing carries over: a second
      reconcile moves it. */
  lemma TwoUpdatesDrift(
    g: GlanceSource.Glance, h: GlanceSource.Glance, lib: Library, u: Updater, n: string, v: string, w: string,
    now: Time, later: Time)
    returns (s: Spec<OpenStackConfig>, t: Spec<OpenStackConfig>)
    requires lib.Lawful() && lib.Canonical(v) == Some(v) && lib.Canonical(w) == Some(w)
    requires v != w && lib.NewestFirst(v, w) && !lib.NewestFirst(w, v) && now != later && u.minVersionForUpdate.None?
    requires g.offset == h.offset == 0 && g.keepLatest == 1 && h.keepLatest == 2
    ensures SameSpec(lib, s, t) && |s.updates| == 2
    ensures FetchedTwice(lib, Regions(g, TwoVersions(n, v, w), now, later), s.updates[0].fetched.value,
              t.updates[0].fetched.value)
    ensures FetchedTwice(lib, Regions(h, TwoVersions(n, v, w), now, later), s.updates[1].fetched.value,
              t.updates[1].fetched.value)
    ensures Moves(lib, s, t)
  {
    var a, i, c, k := GlanceFetches(g, lib, n, v, w, now, later);
    var b, j, d, l := GlanceFetches(h, lib, n, v, w, now, later);
    s, t := TwoUpdates(u, a, b), TwoUpdates(u, c, d);
    DriftOfFour(lib, u, v, a, i, b, j, c, k, d, l, now, later);
  }

  lemma DriftOfFour(
    lib: Library, u: Updater, v: string, a: seq<SourceImage>, i: nat, b: seq<SourceImage>, j: nat,
    c: seq<SourceImage>, k: nat, d: seq<SourceImage>, l: nat, now: Time, later: Time)
    requires lib.Lawful() && now != later && u.minVersionForUpdate.None? && AllAlike(a, c) && AllAlike(b, d)
    requires OneVersionEach(lib, a) && OneVersionEach(lib, b) && OneVersionEach(lib, c) && OneVersionEach(lib, d)
    requires i < |a| && j < |b| && k < |c| && l < |d|
    requires a[i].version == b[j].version == c[k].version == d[l].version == v
    requires a[i].expirationDate == Some(now) && c[k].expirationDate == Some(later)
    requires b[j].classification == Some(SUPPORTED)
    ensures SameSpec(lib, TwoUpdates(u, a, b), TwoUpdates(u, c, d))
    ensures Moves(lib, TwoUpdates(u, a, b), TwoUpdates(u, c, d))
  {
    TwoSameSpecs(lib, u, a, b, c, d);
    DriftsHere(lib, u, v, a, i, b, j, c, k, d, l, now, later);
    DriftMoves(lib, u, a, b, c, d, v);
  }

  /** On an empty store the second reconcile does not leave what the first did. */
  ghost predicate Moves<C>(lib: Library, s: Spec<C>, t: Spec<C>) {
    && Succeeds(lib, s) && Succeeds(lib, t)
    && Reconciled(lib, Reconciled(lib, Profile([], None), s), t) != Reconciled(lib, Profile([], None), s)
  }

  /** Two such fetches, at two times. */
  lemma GlanceFetches(g: GlanceSource.Glance, lib: Library, n: string, v: string, w: string, now: Time, later: Time)
    returns (a: seq<SourceImage>, i: nat, c: seq<SourceImage>, k: nat)
    requires lib.Lawful() && lib.Canonical(v) == Some(v) && lib.Canonical(w) == Some(w)
    requires v != w && lib.NewestFirst(v, w) && !lib.NewestFirst(w, v)
    requires g.offset == 0 && 1 <= g.keepLatest <= 2
    ensures FetchedTwice(lib, Regions(g, TwoVersions(n, v, w), now, later), a, c)
    ensures AllAlike(a, c) && OneVersionEach(lib, a) && OneVersionEach(lib, c)
    ensures i < |a| && a[i].version == v && k < |c| && c[k].version == v
    ensures g.keepLatest == 1 ==> a[i].expirationDate == Some(now) && c[k].expirationDate == Some(later)
    ensures g.keepLatest == 2 ==> a[i].classification == Some(SUPPORTED)
  {
    a, i := GlanceFetch(g, lib, n, v, w, now);
    c, k := GlanceFetch(g, lib, n, v, w, later);
    TwoVersionsRanked(g, lib, n, v, w);
    CanonicalPair(lib, n, v, w);
    FetchedAlike(g, lib, TwoVersions(n, v, w), now, a, later, c);
  }

  lemma CanonicalPair(lib: Library, n: string, v: string, w: string)
    requires lib.Canonical(v) == Some(v) && lib.Canonical(w) == Some(w)
    ensures CanonicalGrid(lib, TwoVersions(n, v, w))
  {
  }

  lemma TwoSameSpecs(
      lib: Library, u: Updater, a: seq<SourceImage>, b: seq<SourceImage>, c: seq<SourceImage>, d: seq<SourceImage>)
    requires lib.Lawful() && u.minVersionForUpdate.None? && AllAlike(a, c) && AllAlike(b, d)
    requires OneVersionEach(lib, a) && OneVersionEach(lib, b)
    ensures SameSpec(lib, TwoUpdates(u, a, b), TwoUpdates(u, c, d))
  {
    OneVersionsValid(lib, u, a);
    OneVersionsValid(lib, u, b);
  }

  lemma DriftMoves(
      lib: Library, u: Updater, a: seq<SourceImage>, b: seq<SourceImage>, c: seq<SourceImage>, d: seq<SourceImage>,
      v: string)
    requires SameSpec(lib, TwoUpdates(u, a, b), TwoUpdates(u, c, d))
    requires Drifts(lib, TwoUpdates(u, a, b), TwoUpdates(u, c, d), u.imageName, v)
    ensures Moves(lib, TwoUpdates(u, a, b), TwoUpdates(u, c, d))
  {
    var s, t := TwoUpdates(u, a, b), TwoUpdates(u, c, d);
    OpenStackIsBlind(u);
    SecondReconcileExactly(lib, Profile([], None), s, t);
  }

  lemma OneVersionsValid(lib: Library, u: Updater, a: seq<SourceImage>)
    requires lib.Lawful() && OneVersionEach(lib, a)
    ensures CleanVersionsValid(lib, u, a)
  {
    forall src | src in a ensures lib.Valid(src.cleanVersion) {
      var i :| 0 <= i < |a| && a[i] == src;
      assert SingleVersion(lib, a[i]);
    }
  }

  lemma OwnHitsOfOne(lib: Library, u: Updater, a: seq<SourceImage>, i: nat)
    requires OneVersionEach(lib, a) && i < |a|
    ensures var hits := OwnHits([], Update(u, OpenStackFor(u), Ok(a)), u.imageName, a[i].version);
            && hits != [] && hits[|hits| - 1].src.classification == a[i].classification
            && FirstDate(hits) == a[i].expirationDate
  {
    FilteredAlike(lib, a, a, Declared([]));
    HitsOfOne(lib, u, FilteredSources(a, Declared([])), i);
  }

  lemma DriftsHere(
    lib: Library, u: Updater, v: string, a: seq<SourceImage>, i: nat, b: seq<SourceImage>, j: nat,
    c: seq<SourceImage>, k: nat, d: seq<SourceImage>, l: nat, now: Time, later: Time)
    requires lib.Lawful() && now != later
    requires OneVersionEach(lib, a) && OneVersionEach(lib, b) && OneVersionEach(lib, c) && OneVersionEach(lib, d)
    requires i < |a| && j < |b| && k < |c| && l < |d|
    requires a[i].version == b[j].version == c[k].version == d[l].version == v
    requires a[i].expirationDate == Some(now) && c[k].expirationDate == Some(later)
    requires b[j].classification == Some(SUPPORTED)
    ensures Drifts(lib, TwoUpdates(u, a, b), TwoUpdates(u, c, d), u.imageName, v)
  {
    OwnHitsOfOne(lib, u, a, i);
    OwnHitsOfOne(lib, u, b, j);
    OwnHitsOfOne(lib, u, c, k);
    OwnHitsOfOne(lib, u, d, l);
    TwoChainHits(u, a, b, v);
    TwoChainHits(u, c, d, v);
    assert SingleVersion(lib, a[i]);
    assert SUPPORTED[0] != DEPRECATED[0];
  }

  lemma TwoChainHits(u: Updater, a: seq<SourceImage>, b: seq<SourceImage>, v: string)
    ensures var first := OwnHits([], Update(u, OpenStackFor(u), Ok(a)), u.imageName, v);
            var second := OwnHits([], Update(u, OpenStackFor(u), Ok(b)), u.imageName, v);
            var hits := ChainHits([], TwoUpdates(u, a, b).updates, u.imageName, v);
            hits == first + second && FirstDate(hits) ==
                if FirstDate(first).Some? then FirstDate(first) else FirstDate(second)
  {
    var updates := TwoUpdates(u, a, b).updates;
    var rest := updates[1..];
    assert rest[1..] == [] && rest[0] == updates[1];
    assert ChainHits([], rest, u.imageName, v) == OwnHits([], updates[1], u.imageName, v) + [];
    assert ChainHits([], updates, u.imageName, v) ==
             OwnHits([], updates[0], u.imageName, v) + ChainHits([], rest, u.imageName, v);
    FirstDateConcat(OwnHits([], updates[0], u.imageName, v), OwnHits([], updates[1], u.imageName, v));
  }
}
