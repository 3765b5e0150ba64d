/** What `Fetch` returns for an unchanged OCI registry at two times, with and without garbage collection. */
module OciCollection {
  import opened Prelude
  import opened Sorting
  import opened Images
  import opened Semver
  import opened ImageUpdater
  import opened GarbageCollection
  import opened WorkerProtocol
  import opened OciSource

  /** A repository: its tags and the manifest annotations behind them. */
  datatype Repository = Repository(tags: seq<string>, manifests: seq<Option<map<string, string>>>)

  /** Images `Fetch` may return for the repository under a filter, by some run of the workers. */
  ghost predicate OciFetched(lib: Library, o: Oci, repo: Repository, f: Option<Filter>, fetched: seq<SourceImage>) {
    exists e, run, imgs :: OciFetchedVia(lib, o, repo, f, fetched, e, run, imgs)
  }

  ghost predicate OciFetchedVia(lib: Library, o: Oci, repo: Repository, f: Option<Filter>, fetched: seq<SourceImage>,
                                e: Env<TagResult>, run: seq<State<TagResult>>, imgs: seq<SourceImage>) {
    && Fetches(o, repo.tags, repo.manifests, e) && Complete(e, run) && OutcomeOf(o, e, run) == Versions(imgs)
    && FetchResult(lib, imgs, KeepFor(f), fetched)
  }

  /** Tag `i` yields a validated image that ages between the two cutoffs. */
  ghost predicate AgesAt(
      lib: Library, o: Oci, repo: Repository, f: Filter, later: Time, i: nat, r: TagResult, v: SourceImage) {
    && i < |repo.tags| && i < |repo.manifests| && TagYields(o, repo.tags[i], repo.manifests[i], r)
    && Admitted(o, r).Some? && Validated(lib, Admitted(o, r).value) == Some(v) && Ages(f, later, v)
  }

  /** Some tag does: read off the tags, the manifests, the push times and the versions in use. */
  ghost predicate SomethingAges(lib: Library, o: Oci, repo: Repository, f: Filter, later: Time) {
    exists i: nat, r, v :: AgesAt(lib, o, repo, f, later, i, r, v)
  }

  lemma AgesAmongReports(
      lib: Library, o: Oci, repo: Repository, f: Filter, later: Time, e: Env<TagResult>, imgs: seq<SourceImage>)
    requires Plain(o, repo.tags, repo.manifests) && Fetches(o, repo.tags, repo.manifests, e)
    requires multiset(imgs) == multiset(AdmittedImages(o, e.results))
    ensures SomethingAges(lib, o, repo, f, later) <==> exists v :: v in ValidatedAll(lib, imgs) && Ages(f, later, v)
  {
    SameMembers(imgs, AdmittedImages(o, e.results));
    forall v | v in ValidatedAll(lib, imgs) && Ages(f, later, v) ensures SomethingAges(lib, o, repo, f, later) {
      FilterMapMember(imgs, img => Validated(lib, img), v);
      ReportedAges(lib, o, repo, f, later, e, v);
    }
    forall i: nat, r, v | AgesAt(lib, o, repo, f, later, i, r, v) ensures v in ValidatedAll(lib, imgs) {
      AgeingReported(lib, o, repo, f, later, e, i, r, v);
      FilterMapMember(imgs, img => Validated(lib, img), v);
    }
  }

  lemma ReportedAges(
      lib: Library, o: Oci, repo: Repository, f: Filter, later: Time, e: Env<TagResult>, v: SourceImage)
    requires Fetches(o, repo.tags, repo.manifests, e) && Ages(f, later, v)
    requires exists img :: img in AdmittedImages(o, e.results) && Validated(lib, img) == Some(v)
    ensures SomethingAges(lib, o, repo, f, later)
  {
    var img :| img in AdmittedImages(o, e.results) && Validated(lib, img) == Some(v);
    FilterMapMember(e.results, r => Admitted(o, r), img);
    var r :| r in e.results && Admitted(o, r) == Some(img);
    var i :| 0 <= i < |e.results| && e.results[i] == r;
    assert AgesAt(lib, o, repo, f, later, i, r, v);
  }

  lemma AgeingReported(
      lib: Library, o: Oci, repo: Repository, f: Filter, later: Time, e: Env<TagResult>, i: nat, r: TagResult,
      v: SourceImage)
    requires Plain(o, repo.tags, repo.manifests) && Fetches(o, repo.tags, repo.manifests, e)
    requires AgesAt(lib, o, repo, f, later, i, r, v)
    ensures exists img :: img in AdmittedImages(o, e.results) && Validated(lib, img) == Some(v)
  {
    TagResultUnique(o, repo.tags[i], repo.manifests[i], r, e.results[i]);
    assert r in e.results;
    FilterMapMember(e.results, r => Admitted(o, r), Admitted(o, r).value);
  }

  /** Without garbage collection an unchanged repository always gives the same images. */
  lemma FetchFixedWithoutCollection(lib: Library, o: Oci, repo: Repository, a: seq<SourceImage>, b: seq<SourceImage>)
    requires Plain(o, repo.tags, repo.manifests)
    requires OciFetched(lib, o, repo, None, a) && OciFetched(lib, o, repo, None, b)
    ensures a == b
  {
    var e: Env<TagResult>, run: seq<State<TagResult>>, x: seq<SourceImage> :|
        OciFetchedVia(lib, o, repo, None, a, e, run, x);
    var f: Env<TagResult>, other: seq<State<TagResult>>, y: seq<SourceImage> :|
        OciFetchedVia(lib, o, repo, None, b, f, other, y);
    FetchIndependentOfSchedule(o, lib, repo.tags, repo.manifests, e, run, f, other, KeepFor(None));
  }

  /** With garbage collection, unchanged push times and unchanged versions in use, but a cutoff that moves
      on, it gives the same images exactly when nothing ages in between. */
  lemma FetchFixedExactly(
    lib: Library, o: Oci, repo: Repository, f: Filter, later: Time, a: seq<SourceImage>, b: seq<SourceImage>)
    requires Plain(o, repo.tags, repo.manifests) && f.cutoff <= later
    requires OciFetched(lib, o, repo, Some(f), a) && OciFetched(lib, o, repo, Some(f.(cutoff := later)), b)
    ensures a == b <==> !SomethingAges(lib, o, repo, f, later)
  {
    var g := f.(cutoff := later);
    var e: Env<TagResult>, run: seq<State<TagResult>>, x: seq<SourceImage> :|
        OciFetchedVia(lib, o, repo, Some(f), a, e, run, x);
    var d: Env<TagResult>, other: seq<State<TagResult>>, y: seq<SourceImage> :|
        OciFetchedVia(lib, o, repo, Some(g), b, d, other, y);
    SameReports(o, repo.tags, repo.manifests, e, run, d, other);
    AgesAmongReports(lib, o, repo, f, later, e, x);
    FetchesAgreeExactly(lib, x, y, f, later, a, b);
  }

  /** Whatever ages is gone from the later fetch, and nothing else changes. */
  lemma FetchWithoutAged(
    lib: Library, o: Oci, repo: Repository, f: Filter, later: Time, a: seq<SourceImage>, b: seq<SourceImage>)
    requires Plain(o, repo.tags, repo.manifests) && f.cutoff <= later
    requires OciFetched(lib, o, repo, Some(f), a) && OciFetched(lib, o, repo, Some(f.(cutoff := later)), b)
    ensures b == Select(a, img => !Ages(f, later, img))
  {
    var e: Env<TagResult>, run: seq<State<TagResult>>, x: seq<SourceImage> :|
        OciFetchedVia(lib, o, repo, Some(f), a, e, run, x);
    var d: Env<TagResult>, other: seq<State<TagResult>>, y: seq<SourceImage> :|
        OciFetchedVia(lib, o, repo, Some(f.(cutoff := later)), b, d, other, y);
    SameReports(o, repo.tags, repo.manifests, e, run, d, other);
    LaterFetch(lib, x, y, f, later, a, b);
  }

  // ---------------------------------------------------------------- the smallest failing input

  /** Every list of results the workers may yield is collected by some run; this is what `Fetch` then keeps. */
  lemma SomeOciFetch(
      lib: Library, o: Oci, repo: Repository, f: Option<Filter>, results: seq<TagResult>) returns (a: seq<SourceImage>)
    requires |repo.tags| == |repo.manifests| == |results|
    requires forall i :: 0 <= i < |results| ==> TagYields(o, repo.tags[i], repo.manifests[i], results[i])
    requires GetVersionsOutcome(o, results).Versions?
    ensures OciFetched(lib, o, repo, f, a)
    ensures forall v :: v in a <==> v in ValidatedAll(lib, AdmittedImages(o, results)) && KeepFor(f)(v)
  {
    var e, run := SomeRun(results);
    SafeAlways(e, run, |run| - 1);
    ScheduleOnlyOrders(e, run);
    var received := Received(run[|run| - 1]);
    OutcomeOfPermutation(o, received, results);
    a := SomeFetch(lib, AdmittedImages(o, received), AdmittedImages(o, results), f);
    assert OciFetchedVia(lib, o, repo, f, a, e, run, AdmittedImages(o, received));
  }

  lemma SomeRun(results: seq<TagResult>) returns (e: Env<TagResult>, run: seq<State<TagResult>>)
    ensures e == Env(1, results, Cancelled, false, 0, false) && Complete(e, run)
  {
    e := Env(1, results, Cancelled, false, 0, false);
    RunsFinish(e, [Init(e)]);
    run :| [Init(e)] <= run && FinishedRun(e, run);
  }

  lemma SomeFetch(
      lib: Library, imgs: seq<SourceImage>, other: seq<SourceImage>, f: Option<Filter>) returns (a: seq<SourceImage>)
    requires multiset(imgs) == multiset(other)
    ensures FetchResult(lib, imgs, KeepFor(f), a)
    ensures forall v :: v in a <==> v in ValidatedAll(lib, other) && KeepFor(f)(v)
  {
    var valid := ValidatedAll(lib, imgs);
    FilterMapPermutation(imgs, other, img => Validated(lib, img));
    SameMembers(valid, ValidatedAll(lib, other));
    FetchOrderPreorder();
    SortSorts(valid, FetchOrder);
    SameMembers(Sort(valid, FetchOrder), valid);
    a := Select(Sort(valid, FetchOrder), KeepFor(f));
  }

  const ONE_TAG := Repository(["1.0.0"], [Some(map[ARCHITECTURE_CAPABILITY := "amd64"])])
  const NO_FEATURES := Oci(map[], None, _ => {})
  const ONE_IMAGE := SourceImage("1.0.0", "", ["amd64"], None, false, [], None, None)

  const ONE_RESULT := Collected(CollectedImage(ONE_IMAGE, ""))

  lemma OneTagYields()
    ensures TagYields(NO_FEATURES, "1.0.0", Some(map[ARCHITECTURE_CAPABILITY := "amd64"]), ONE_RESULT)
  {
    assert NormalizeTag("1.0.0") == "1.0.0";
  }

  lemma OneTagValid(lib: Library)
    requires lib.Valid("1.0.0")
    ensures GetVersionsOutcome(NO_FEATURES, [ONE_RESULT]).Versions?
    ensures ValidatedAll(lib, AdmittedImages(NO_FEATURES, [ONE_RESULT])) == [ONE_IMAGE]
  {
    assert ONE_RESULT in [ONE_RESULT];
    FilterMapOne(ONE_RESULT, x => Admitted(NO_FEATURES, x));
    FilterMapOne(ONE_IMAGE, img => Validated(lib, img));
  }

  function OneTagFilter(pushed: Time, cutoff: Time): Filter {
    Filter(map["1.0.0" := pushed], {}, cutoff)
  }

  /** One unused tag, pushed at the first cutoff: one reconcile returns it, the next, a moment later, does
      not. */
  lemma CutoffMovesOn(lib: Library, pushed: Time) returns (a: seq<SourceImage>, b: seq<SourceImage>)
    requires lib.Valid("1.0.0")
    ensures OciFetched(lib, NO_FEATURES, ONE_TAG, Some(OneTagFilter(pushed, pushed)), a) && ONE_IMAGE in a
    ensures OciFetched(lib, NO_FEATURES, ONE_TAG, Some(OneTagFilter(pushed, pushed + 1)), b) && b == []
  {
    OneTagYields();
    OneTagValid(lib);
    a := SomeOciFetch(lib, NO_FEATURES, ONE_TAG, Some(OneTagFilter(pushed, pushed)), [ONE_RESULT]);
    b := SomeOciFetch(lib, NO_FEATURES, ONE_TAG, Some(OneTagFilter(pushed, pushed + 1)), [ONE_RESULT]);
    EmptyExactly(b);
  }
}
