/** The Glance path from the image listings of the regions to the stored profile: whatever the
    schedule of the workers, the arrival order and the clock. */
module GlanceEndToEnd {
  import opened Prelude
  import opened Sorting
  import opened Keyed
  import opened Images
  import opened Semver
  import opened CapabilitySets
  import opened ImageUpdater
  import opened ImageMerge
  import opened GlanceSource
  import opened GlanceTheorems
  import opened AlikeSources
  import opened RankWindows
  import opened CloudProfile
  import opened ProviderChains
  import WorkerProtocol
  import OpenStackProvider

  // ---------------------------------------------------------------- from listings to a grid

  /** What each region answers: nothing when its listing fails, else the canonical image per version. */
  function AnswersOf(
      g: Glance, lib: Library, listings: seq<Option<seq<Image>>>): (answers: seq<Option<map<string, string>>>)
    ensures |answers| == |listings|
  {
    seq(|listings|, i requires 0 <= i < |listings| =>
      if listings[i].None? then None else Some(Ids(CanonicalImages(g, lib, listings[i].value))))
  }

  function GridOf(g: Glance, lib: Library, listings: seq<Option<seq<Image>>>): Grid
    requires |listings| == |g.params.regions| && Distinct(g.params.regions)
  {
    GridFrom(g.params.regions, AnswersOf(g, lib, listings))
  }

  ghost predicate CanonicalGrid(lib: Library, grid: Grid) {
    forall n, v :: n in grid && v in grid[n] ==> lib.Canonical(v) == Some(v)
  }

  lemma GridIsCanonical(g: Glance, lib: Library, listings: seq<Option<seq<Image>>>)
    requires lib.Lawful() && |listings| == |g.params.regions| && Distinct(g.params.regions)
    ensures CanonicalGrid(lib, GridOf(g, lib, listings))
  {
    var grid := GridOf(g, lib, listings);
    forall n, v | n in grid && v in grid[n] ensures lib.Canonical(v) == Some(v) {
      var i :| 0 <= i < |listings| && AnswersOf(g, lib, listings)[i].Some? && g.params.regions[i] == n;
      ListedVersionCanonical(g, lib, listings[i].value, v);
    }
  }

  lemma ListedVersionCanonical(g: Glance, lib: Library, listing: seq<Image>, v: string)
    requires lib.Lawful() && v in Ids(CanonicalImages(g, lib, listing))
    ensures lib.Canonical(v) == Some(v)
  {
    NonePreferred(g, lib, listing);
    assert ParseVersion(g, lib, CanonicalImages(g, lib, listing)[v].name) == Some(v);
  }

  /** The workers of these regions, with the listings they get: a channel with a slot per region and a
      collector that stops at a cancellation. */
  ghost predicate Wiring(
      g: Glance, lib: Library, listings: seq<Option<seq<Image>>>, e: WorkerProtocol.Env<RegionResult>) {
    && |listings| == |g.params.regions| == |e.results|
    && (forall i :: 0 <= i < |listings| ==> Answers(g.params.regions[i], AnswersOf(g, lib, listings)[i], e.results[i]))
    && e.parallel == g.parallel && e.capacity == |e.results| && e.stopsOnCancel && e.cancelled == Cancelled
  }

  /** The same without a cancellation. */
  ghost predicate Queries(
      g: Glance, lib: Library, listings: seq<Option<seq<Image>>>, e: WorkerProtocol.Env<RegionResult>) {
    Wiring(g, lib, listings, e) && !e.mayCancel
  }

  /** `arrivals` is what the collector has received when a run of the workers has finished. */
  ghost predicate Arrives(
      e: WorkerProtocol.Env<RegionResult>, run: seq<WorkerProtocol.State<RegionResult>>, arrivals: seq<RegionResult>) {
    && WorkerProtocol.Run(e, run) && WorkerProtocol.Finished(e, run[|run| - 1])
    && run[|run| - 1].received <= |run[|run| - 1].sent|
    && arrivals == WorkerProtocol.Received(run[|run| - 1])
  }

  /** Every run of the workers of a source that can be constructed, cancelled or not, can be continued to one
      that has finished, and no run is longer than the work there is at the start. */
  lemma QueriesFinish(
    params: Params, g: Glance, lib: Library, listings: seq<Option<seq<Image>>>, e: WorkerProtocol.Env<RegionResult>,
    run: seq<WorkerProtocol.State<RegionResult>>)
    requires NewGlance(params) == Ok(g) && Wiring(g, lib, listings, e) && WorkerProtocol.Run(e, run)
    ensures exists longer :: run <= longer && WorkerProtocol.FinishedRun(e, longer)
    ensures |run| <= 1 + WorkerProtocol.Remaining(e, WorkerProtocol.Init(e)) == 1 + 5 * |listings|
  {
    WorkerProtocol.RunsFinish(e, run);
    WorkerProtocol.InitialWork(e);
  }

  /** Whatever the interleaving of the workers, exactly the grid arrives. */
  lemma EveryScheduleBringsTheGrid(
    g: Glance, lib: Library, listings: seq<Option<seq<Image>>>, e: WorkerProtocol.Env<RegionResult>,
    run: seq<WorkerProtocol.State<RegionResult>>, arrivals: seq<RegionResult>)
    requires Distinct(g.params.regions) && Queries(g, lib, listings, e) && Arrives(e, run, arrivals)
    ensures Faithful(Flatten(arrivals), GridOf(g, lib, listings)) && Cancelled !in arrivals
  {
    assert Cancelled !in e.results;
    WorkerProtocol.ScheduleOnlyOrders(e, run);
    ArrivalsAreFaithful(g.params.regions, AnswersOf(g, lib, listings), e.results, arrivals);
    SameMembers(arrivals, e.results);
  }

  // ---------------------------------------------------------------- from the grid to fetched images

  /** Images that `Fetch` may return at time `now` when the regions hold `grid`. */
  ghost predicate Fetched(g: Glance, lib: Library, grid: Grid, now: Time, fetched: seq<SourceImage>) {
    exists imgs, reported :: FetchedVia(g, lib, grid, now, fetched, imgs, reported)
  }

  ghost predicate FetchedVia(g: Glance, lib: Library, grid: Grid, now: Time, fetched: seq<SourceImage>,
                             imgs: seq<SourceImage>, reported: seq<SourceImage>) {
    && Faithful(imgs, grid) && GlanceResult(g, lib, imgs, now, reported)
    && FetchResult(lib, reported, KeepAll, fetched)
  }

  lemma ReportsOneVersionEach(
      g: Glance, lib: Library, imgs: seq<SourceImage>, grid: Grid, now: Time, r: seq<SourceImage>)
    requires Faithful(imgs, grid) && CanonicalGrid(lib, grid) && GlanceResult(g, lib, imgs, now, r)
    ensures OneVersionEach(lib, r)
  {
    var sorted := Stages(g, lib, imgs, grid, now, r);
    forall i | 0 <= i < |sorted| ensures SingleVersion(lib, sorted[i]) {
      assert Tags(sorted)[i] in Tags(sorted);
      assert KeptVersion(g, grid, sorted[i].version);
    }
    CutOneVersionEach(lib, sorted, Lo(g, |sorted|), Hi(g, |sorted|), now);
  }

  lemma CutOneVersionEach(lib: Library, sorted: seq<SourceImage>, lo: nat, hi: nat, now: Time)
    requires OneVersionEach(lib, sorted) && lo <= hi <= |sorted|
    ensures OneVersionEach(lib, Stamped(sorted[lo..hi], now))
  {
    var r := Stamped(sorted[lo..hi], now);
    forall i, j | 0 <= i < j < |r| ensures Tags(r)[i] != Tags(r)[j] {
      assert Tags(sorted)[lo + i] != Tags(sorted)[lo + j];
    }
  }

  /** For fixed listings and a decided window what `Fetch` returns is fixed up to the order of regions within
      a version and the date of the deprecated one, and that date too when the clock is fixed. */
  lemma FetchedAlike(
      g: Glance, lib: Library, grid: Grid, now: Time, a: seq<SourceImage>, later: Time, b: seq<SourceImage>)
    requires lib.Lawful() && CanonicalGrid(lib, grid) && WindowDecided(g, lib, grid)
    requires Fetched(g, lib, grid, now, a) && Fetched(g, lib, grid, later, b)
    ensures AllAlike(a, b) && OneVersionEach(lib, a)
    ensures now == later ==> SameDates(a, b)
  {
    var x: seq<SourceImage>, r: seq<SourceImage> :| FetchedVia(g, lib, grid, now, a, x, r);
    var y: seq<SourceImage>, s: seq<SourceImage> :| FetchedVia(g, lib, grid, later, b, y, s);
    IndependentOfArrival(g, lib, grid, x, now, r, y, later, s);
    ReportsOneVersionEach(g, lib, x, grid, now, r);
    FetchesAlike(lib, r, s, a, b);
  }

  // ---------------------------------------------------------------- exactly when the fetch is fixed

  lemma SomeImages(grid: Grid) returns (imgs: seq<SourceImage>)
    ensures Faithful(imgs, grid)
  {
    var all := set n, v | n in grid && v in grid[n] :: RegionalImage(n, v, grid[n][v]);
    imgs := Enumeration(all);
    forall n, v, id ensures RegionalImage(n, v, id) in imgs <==> n in grid && v in grid[n] && grid[n][v] == id {
      var img := RegionalImage(n, v, id);
      if img in all {
        var m, w :| m in grid && w in grid[m] && img == RegionalImage(m, w, grid[m][w]);
        assert img.regions[0] == RegionImage(m, grid[m][w]);
      }
    }
  }

  lemma SomeListing(imgs: seq<SourceImage>) returns (listed: seq<SourceImage>)
    ensures Lists(listed, ByVersion(imgs))
  {
    var m := ByVersion(imgs);
    ByVersionKeyed(imgs);
    listed := Enumeration(set v | v in m :: m[v]);
    forall i, j | 0 <= i < j < |listed| ensures Tags(listed)[i] != Tags(listed)[j] {
      assert listed[i] in listed && listed[j] in listed;
    }
    forall img ensures img in listed <==> img.version in m && img == m[img.version] {
    }
  }

  /** The merged entries of these tags. */
  ghost function EntriesOf(imgs: seq<SourceImage>, tags: seq<string>): (r: seq<SourceImage>)
    requires forall v :: v in tags ==> v in ByVersion(imgs)
    ensures |r| == |tags| && forall i :: 0 <= i < |tags| ==> r[i] == ByVersion(imgs)[tags[i]]
  {
    seq(|tags|, i requires 0 <= i < |tags| => ByVersion(imgs)[tags[i]])
  }

  /** Every ranking of the kept versions is one the library sort may come up with. */
  lemma EveryRankingHappens(g: Glance, lib: Library, imgs: seq<SourceImage>, grid: Grid, now: Time, tags: seq<string>)
    returns (r: seq<SourceImage>)
    requires Faithful(imgs, grid) && Ranked(tags, Kept(g, grid), Newest(lib))
    ensures GlanceResult(g, lib, imgs, now, r) && Tags(r) == tags[Lo(g, |tags|)..Hi(g, |tags|)]
    ensures OnlyLastDeprecated(r)
  {
    var listed := SomeListing(imgs);
    MergedTags(g, imgs, grid, tags);
    ByVersionKeyed(imgs);
    var sorted := EntriesOf(imgs, tags);
    assert Tags(sorted) == tags;
    RankingSorts(g, lib, imgs, listed, sorted);
    r := CutResult(g, lib, imgs, now, listed, sorted);
  }

  lemma MergedTags(g: Glance, imgs: seq<SourceImage>, grid: Grid, tags: seq<string>)
    requires Faithful(imgs, grid) && forall v :: v in tags <==> v in Kept(g, grid)
    ensures forall v :: v in tags <==> v in ByVersion(imgs) && Eligible(g, imgs, ByVersion(imgs)[v])
  {
    forall v ensures v in tags <==> v in ByVersion(imgs) && Eligible(g, imgs, ByVersion(imgs)[v]) {
      KeptExactly(g, imgs, grid, v);
    }
  }

  lemma CutResult(
      g: Glance, lib: Library, imgs: seq<SourceImage>, now: Time, listed: seq<SourceImage>, sorted: seq<SourceImage>)
    returns (r: seq<SourceImage>)
    requires Lists(listed, ByVersion(imgs))
    requires IsSortOf(sorted, Select(listed, EligibleIn(g, imgs)),
                      NewestImages(lib))
    ensures GlanceResult(g, lib, imgs, now, r) && OnlyLastDeprecated(r)
    ensures Tags(r) == Tags(sorted)[Lo(g, |sorted|)..Hi(g, |sorted|)]
  {
    r := Stamped(sorted[Lo(g, |sorted|)..Hi(g, |sorted|)], now);
    StampedLast(sorted[Lo(g, |sorted|)..Hi(g, |sorted|)], now);
    StampedTags(sorted, Lo(g, |sorted|), Hi(g, |sorted|), now);
    assert GlanceStages(g, lib, imgs, now, r, listed, sorted);
  }

  lemma StampedTags(sorted: seq<SourceImage>, lo: nat, hi: nat, now: Time)
    requires lo <= hi <= |sorted|
    ensures Tags(Stamped(sorted[lo..hi], now)) == Tags(sorted)[lo..hi]
  {
    assert forall i :: 0 <= i < hi - lo ==> Stamped(sorted[lo..hi], now)[i].version == sorted[lo + i].version;
  }

  lemma RankingSorts(
      g: Glance, lib: Library, imgs: seq<SourceImage>, listed: seq<SourceImage>, sorted: seq<SourceImage>)
    requires Lists(listed, ByVersion(imgs)) && Distinct(Tags(sorted)) && Ordered(Tags(sorted), Newest(lib))
    requires forall i :: 0 <= i < |sorted| ==>
               sorted[i].version in ByVersion(imgs) && sorted[i] == ByVersion(imgs)[sorted[i].version]
    requires forall v :: v in Tags(sorted) <==> v in ByVersion(imgs) && Eligible(g, imgs, ByVersion(imgs)[v])
    ensures IsSortOf(sorted, Select(listed, EligibleIn(g, imgs)),
                     NewestImages(lib))
  {
    var eligible := EligibleIn(g, imgs);
    var chosen := Select(listed, eligible);
    SelectTags(listed, eligible);
    DistinctByTag(chosen);
    DistinctByTag(sorted);
    forall x ensures x in sorted <==> x in chosen {
      if x in sorted {
        var i :| 0 <= i < |sorted| && sorted[i] == x;
        assert Tags(sorted)[i] in Tags(sorted);
      }
      if x in chosen {
        var i :| 0 <= i < |sorted| && Tags(sorted)[i] == x.version;
      }
    }
    SameDistinctMembers(sorted, chosen);
    forall i, j | 0 <= i < j < |sorted| ensures NewestFirstImages(lib, sorted[i], sorted[j]) {
      assert Newest(lib)(Tags(sorted)[i], Tags(sorted)[j]);
    }
  }

  lemma DistinctByTag(a: seq<SourceImage>)
    requires Distinct(Tags(a))
    ensures Distinct(a)
  {
    forall i, j | 0 <= i < j < |a| ensures a[i] != a[j] {
      assert Tags(a)[i] != Tags(a)[j];
    }
  }

  lemma SomeRanking(g: Glance, lib: Library, grid: Grid) returns (tags: seq<string>)
    ensures Ranked(tags, Kept(g, grid), Newest(lib)) && |tags| == |Kept(g, grid)|
  {
    var all := Enumeration(Kept(g, grid));
    tags := Sort(all, Newest(lib));
    NewestPreorder(lib);
    SortSorts(all, Newest(lib));
    SameMembers(tags, all);
    DistinctSorted(tags, all);
    RankedSize(tags, Kept(g, grid), Newest(lib));
  }

  lemma DistinctSorted(r: seq<string>, s: seq<string>)
    requires multiset(r) == multiset(s) && Distinct(s)
    ensures Distinct(r)
  {
    var key := (v: string) => v;
    assert DistinctBy(s, key);
    PermutedDistinct(r, s, key);
    forall i, j | 0 <= i < j < |r| ensures r[i] != r[j] {
      assert key(r[i]) != key(r[j]);
    }
  }

  /** `Fetch` of such images only sorts them. */
  lemma SomeFetch(lib: Library, r: seq<SourceImage>) returns (a: seq<SourceImage>)
    requires lib.Lawful() && OneVersionEach(lib, r)
    ensures FetchResult(lib, r, KeepAll, a) && multiset(a) == multiset(r)
  {
    a := Sort(r, FetchOrder);
    FetchOrderPreorder();
    SortSorts(r, FetchOrder);
    OneVersionEachValid(lib, r);
    SelectAll(a, KeepAll);
  }

  /** For every ranking of the kept versions there is a fetch that goes through it. */
  lemma FetchThrough(g: Glance, lib: Library, grid: Grid, now: Time, tags: seq<string>)
    returns (imgs: seq<SourceImage>, r: seq<SourceImage>, a: seq<SourceImage>)
    requires lib.Lawful() && CanonicalGrid(lib, grid) && Ranked(tags, Kept(g, grid), Newest(lib))
    ensures Faithful(imgs, grid) && GlanceResult(g, lib, imgs, now, r)
    ensures Fetched(g, lib, grid, now, a) && multiset(a) == multiset(r)
    ensures Tags(r) == tags[Lo(g, |tags|)..Hi(g, |tags|)] && OnlyLastDeprecated(r)
  {
    imgs := SomeImages(grid);
    r := EveryRankingHappens(g, lib, imgs, grid, now, tags);
    ReportsOneVersionEach(g, lib, imgs, grid, now, r);
    a := SomeFetch(lib, r);
    assert FetchedVia(g, lib, grid, now, a, imgs, r);
  }

  /** Results that are alike in some order share their versions and the one they deprecate. */
  lemma AlikeShares(r: seq<SourceImage>, s: seq<SourceImage>, a: seq<SourceImage>, b: seq<SourceImage>, k: nat)
    requires AllAlike(a, b) && multiset(a) == multiset(r) && multiset(b) == multiset(s)
    requires |r| == |s| && k < |r| && OnlyLastDeprecated(r) && OnlyLastDeprecated(s)
    ensures r[k].version in Tags(s)
    ensures k == |r| - 1 ==> r[k].version == s[k].version
  {
    SameMembers(a, r);
    SameMembers(b, s);
    assert r[k] in a;
    var i :| 0 <= i < |a| && a[i] == r[k];
    assert Alike(a[i], b[i]) && b[i] in s;
    var j :| 0 <= j < |s| && s[j] == b[i];
    assert Tags(s)[j] == r[k].version;
  }

  ghost predicate OnlyLastDeprecated(r: seq<SourceImage>) {
    forall i :: 0 <= i < |r| ==> (r[i].classification == Some(DEPRECATED) <==> i == |r| - 1)
  }

  lemma StampedLast(cut: seq<SourceImage>, now: Time)
    ensures OnlyLastDeprecated(Stamped(cut, now))
  {
    assert SUPPORTED[0] != DEPRECATED[0];
  }

  ghost predicate AlwaysAlike(g: Glance, lib: Library, grid: Grid) {
    forall now, a, later, b :: Fetched(g, lib, grid, now, a) && Fetched(g, lib, grid, later, b) ==> AllAlike(a, b)
  }

  /** What `Fetch` returns for fixed listings is fixed, up to the order of regions within a version and the
      date of the deprecated one, exactly when the window is decided. */
  lemma FetchFixedExactly(g: Glance, lib: Library, grid: Grid)
    requires lib.Lawful() && CanonicalGrid(lib, grid)
    ensures AlwaysAlike(g, lib, grid) <==> WindowDecided(g, lib, grid)
  {
    if WindowDecided(g, lib, grid) {
      forall now, a, later, b | Fetched(g, lib, grid, now, a) && Fetched(g, lib, grid, later, b)
        ensures AllAlike(a, b) {
        FetchedAlike(g, lib, grid, now, a, later, b);
      }
    } else {
      var a, b := TwoFetches(g, lib, grid, 0);
    }
  }

  /** When the window is not decided there are two fetches at the same time that are not alike. */
  lemma TwoFetches(g: Glance, lib: Library, grid: Grid, now: Time) returns (a: seq<SourceImage>, b: seq<SourceImage>)
    requires lib.Lawful() && CanonicalGrid(lib, grid) && !WindowDecided(g, lib, grid)
    ensures Fetched(g, lib, grid, now, a) && Fetched(g, lib, grid, now, b) && !AllAlike(a, b)
  {
    var x := SomeRanking(g, lib, grid);
    var lo, hi := Lo(g, |x|), Hi(g, |x|);
    NewestPreorder(lib);
    var y := UndecidedWindow(x, Kept(g, grid), lo, hi, Newest(lib));
    var i, r, j, s;
    i, r, a := FetchThrough(g, lib, grid, now, x);
    j, s, b := FetchThrough(g, lib, grid, now, y);
    CutsDiffer(x, y, lo, hi, r, s, a, b);
  }

  lemma CutsDiffer(x: seq<string>, y: seq<string>, lo: nat, hi: nat,
                   r: seq<SourceImage>, s: seq<SourceImage>, a: seq<SourceImage>, b: seq<SourceImage>)
    requires lo < hi <= |x| == |y| && Tags(r) == x[lo..hi] && Tags(s) == y[lo..hi]
    requires y[hi - 1] != x[hi - 1] || x[lo] !in y[lo..hi]
    requires multiset(a) == multiset(r) && multiset(b) == multiset(s) && OnlyLastDeprecated(r) && OnlyLastDeprecated(s)
    ensures !AllAlike(a, b)
  {
    var n := hi - lo;
    assert |r| == |Tags(r)| == n && |s| == |Tags(s)| == n;
    assert r[0].version == Tags(r)[0] == x[lo];
    assert r[n - 1].version == Tags(r)[n - 1] == x[hi - 1] && s[n - 1].version == Tags(s)[n - 1] == y[hi - 1];
    if AllAlike(a, b) {
      AlikeShares(r, s, a, b, 0);
      AlikeShares(r, s, a, b, n - 1);
    }
  }

  /** The smallest window that is not decided: two tied versions and room for one. */
  lemma TiesLeaveAChoice(g: Glance, lib: Library, n: string, v: string, w: string, now: Time)
    returns (a: seq<SourceImage>, b: seq<SourceImage>)
    requires lib.Lawful() && lib.Canonical(v) == Some(v) && lib.Canonical(w) == Some(w)
    requires v != w && lib.NewestFirst(v, w) && lib.NewestFirst(w, v)
    requires g.keepLatest == 1 && g.offset == 0
    ensures var grid := map[n := map[v := "1", w := "2"]];
            Fetched(g, lib, grid, now, a) && Fetched(g, lib, grid, now, b) && !AllAlike(a, b)
  {
    var grid := map[n := map[v := "1", w := "2"]];
    var all := Kept(g, grid);
    forall u ensures u in all <==> u == v || u == w {
      assert n in grid && (u in grid[n] <==> u == v || u == w);
    }
    assert all == {v, w};
    NewestPreorder(lib);
    var le := Newest(lib);
    assert le(v, w) && le(w, v) && le(v, v) && le(w, w);
    CountedBy(all, v, le, {}, {v} + {w});
    assert {v} * {w} == {};
    assert |{v} + {w}| == 2;
    assert !ClassFits(all, v, Lo(g, 2), Hi(g, 2), le);
    a, b := TwoFetches(g, lib, grid, now);
  }

  // ---------------------------------------------------------------- the theorems

  /** Arrival-order independence, from the regions to the profile. With a fixed clock and fixed
      listings every order in which the regions arrive ends in the same machine images and the same
      OpenStack configuration. */
  lemma ArrivalOrderLeavesNoTrace(
    g: Glance, lib: Library, grid: Grid, now: Time, a: seq<SourceImage>, b: seq<SourceImage>,
    u: Updater, defs: seq<CapabilityDefinition>, p: Profile<OpenStackProvider.CloudProfileConfig>)
    requires lib.Lawful() && CanonicalGrid(lib, grid) && WindowDecided(g, lib, grid)
    requires Fetched(g, lib, grid, now, a) && Fetched(g, lib, grid, now, b)
    ensures Prepared(lib, defs, p, Update(u, OpenStackFor(u), Ok(a))) ==
              Prepared(lib, defs, p, Update(u, OpenStackFor(u), Ok(b)))
  {
    FetchedAlike(g, lib, grid, now, a, now, b);
    FilteredAlike(lib, a, b, Declared(defs));
    var x, y := FilteredSources(a, Declared(defs)), FilteredSources(b, Declared(defs));
    var i := Locate(p.images, u.imageName, First);
    SameDatesMerge(lib, u, if i == -1 then [] else p.images[i].body.versions, x, y);
    OpenStackSame(u, p.config, x, y);
  }

  /** The same from two schedules of the workers: whatever `Fetch` makes of what each of them brings,
      the profile is the same. */
  lemma ScheduleLeavesNoTrace(
    g: Glance, lib: Library, listings: seq<Option<seq<Image>>>,
    e: WorkerProtocol.Env<RegionResult>, run: seq<WorkerProtocol.State<RegionResult>>, x: seq<RegionResult>,
    r: seq<SourceImage>, a: seq<SourceImage>,
    f: WorkerProtocol.Env<RegionResult>, other: seq<WorkerProtocol.State<RegionResult>>, y: seq<RegionResult>,
    s: seq<SourceImage>, b: seq<SourceImage>,
    now: Time, u: Updater, defs: seq<CapabilityDefinition>, p: Profile<OpenStackProvider.CloudProfileConfig>)
    requires lib.Lawful() && Distinct(g.params.regions)
    requires Queries(g, lib, listings, e) && Arrives(e, run, x) && Queries(g, lib, listings, f) && Arrives(f, other, y)
    requires WindowDecided(g, lib, GridOf(g, lib, listings))
    requires GlanceResult(g, lib, Flatten(x), now, r) && FetchResult(lib, r, KeepAll, a)
    requires GlanceResult(g, lib, Flatten(y), now, s) && FetchResult(lib, s, KeepAll, b)
    ensures Prepared(lib, defs, p, Update(u, OpenStackFor(u), Ok(a))) ==
              Prepared(lib, defs, p, Update(u, OpenStackFor(u), Ok(b)))
  {
    var grid := GridOf(g, lib, listings);
    GridIsCanonical(g, lib, listings);
    EveryScheduleBringsTheGrid(g, lib, listings, e, run, x);
    EveryScheduleBringsTheGrid(g, lib, listings, f, other, y);
    assert FetchedVia(g, lib, grid, now, a, Flatten(x), r) && FetchedVia(g, lib, grid, now, b, Flatten(y), s);
    ArrivalOrderLeavesNoTrace(g, lib, grid, now, a, b, u, defs, p);
  }
}
