/** Reconciling again at a later time, with the same spec and the same images in the registries: when
    does that change nothing, although a source stamps the current time? */
module SteadyState {
  import opened Prelude
  import opened Keyed
  import opened Images
  import opened Semver
  import opened CapabilitySets
  import opened ImageUpdater
  import opened ImageMerge
  import opened MergeTheorems
  import opened CloudProfile
  import opened CloudProfileTheorems
  import opened AlikeSources
  import opened ProviderChains

  // ---------------------------------------------------------------- differences are only ever dates

  predicate DateOnly(x: VersionFields, y: VersionFields) {
    (x.expirationDate.Some? <==> y.expirationDate.Some?) && y == x.(expirationDate := y.expirationDate)
  }

  ghost predicate DateOnlyVersions(s: seq<ImageVersion>, t: seq<ImageVersion>) {
    RelatedLists(s, t, (k, x, y) => DateOnly(x, y))
  }

  ghost predicate DateOnlyImages(s: seq<MachineImage>, t: seq<MachineImage>) {
    && |s| == |t|
    && forall i :: 0 <= i < |s| ==>
         && s[i].key == t[i].key && s[i].body.updateStrategy == t[i].body.updateStrategy
         && DateOnlyVersions(s[i].body.versions, t[i].body.versions)
  }

  ghost predicate DateOnlyWrites(v: seq<VersionWrite>, w: seq<VersionWrite>) {
    RelatedWrites(v, w, (k, x, y) => DateOnly(x, y))
  }

  lemma SourceDateOnly(lib: Library, u: Updater, a: SourceImage, b: SourceImage)
    requires Alike(a, b)
    ensures DateOnlyWrites(WritesOf(lib, u, a), WritesOf(lib, u, b))
  {
    var rel := (k: string, x: VersionFields, y: VersionFields) => DateOnly(x, y);
    assert RelatedWrite(LegacyWrite(lib, u, a), LegacyWrite(lib, u, b), rel) by {
      forall x, y | DateOnly(x, y) ensures DateOnly(Legacy(u, a, x), Legacy(u, b, y)) {
      }
    }
    CleanDateOnly(u, a, b);
  }

  lemma CleanDateOnly(u: Updater, a: SourceImage, b: SourceImage)
    requires Alike(a, b)
    ensures RelatedWrite(CleanWrite(u, a), CleanWrite(u, b), (k, x, y) => DateOnly(x, y))
  {
    forall x, y | DateOnly(x, y) ensures DateOnly(Clean(u, a, x), Clean(u, b, y)) {
    }
  }

  lemma {:induction false} WritesDateOnly(lib: Library, u: Updater, a: seq<SourceImage>, b: seq<SourceImage>)
    requires AllAlike(a, b)
    ensures DateOnlyWrites(Writes(lib, u, a), Writes(lib, u, b))
  {
    if a != [] {
      WritesDateOnly(lib, u, a[1..], b[1..]);
      SourceDateOnly(lib, u, a[0], b[0]);
      RelatedWritesConcat(WritesOf(lib, u, a[0]), WritesOf(lib, u, b[0]), Writes(lib, u, a[1..]),
          Writes(lib, u, b[1..]), (k, x, y) => DateOnly(x, y));
    }
  }

  lemma MergedDateOnly(
      lib: Library, u: Updater, base: seq<ImageVersion>, other: seq<ImageVersion>, a: seq<SourceImage>,
      b: seq<SourceImage>)
    requires DateOnlyVersions(base, other) && AllAlike(a, b)
    ensures DateOnlyVersions(Merged(lib, u, base, a), Merged(lib, u, other, b))
  {
    WritesDateOnly(lib, u, a, b);
    PutAllRelated(base, other, Writes(lib, u, a), Writes(lib, u, b), Last, (k, x, y) => DateOnly(x, y));
  }

  /** The same updates, with what the sources report at another time. */
  ghost predicate SameUpdates<C>(a: seq<Update<C>>, b: seq<Update<C>>) {
    && |a| == |b|
    && forall i :: 0 <= i < |a| ==>
         && a[i].fetched.Ok? && b[i].fetched.Ok? && b[i] == a[i].(fetched := b[i].fetched)
         && AllAlike(a[i].fetched.value, b[i].fetched.value)
  }

  lemma EditDateOnly(
      lib: Library, u: Updater, s: seq<MachineImage>, t: seq<MachineImage>, a: seq<SourceImage>, b: seq<SourceImage>)
    requires DateOnlyImages(s, t) && AllAlike(a, b)
    ensures DateOnlyImages(Put(s, ImageEdit(lib, u, a), First), Put(t, ImageEdit(lib, u, b), First))
  {
    SameLocate(s, t, u.imageName, First);
    var i := Locate(s, u.imageName, First);
    if i == -1 {
      MergedDateOnly(lib, u, [], [], a, b);
    } else {
      MergedDateOnly(lib, u, s[i].body.versions, t[i].body.versions, a, b);
    }
  }

  lemma PreparedDateOnly<C>(
      lib: Library, defs: seq<CapabilityDefinition>, p: Profile<C>, q: Profile<C>, a: Update<C>, b: Update<C>)
    requires DateOnlyImages(p.images, q.images)
    requires a.fetched.Ok? && b.fetched.Ok? && b == a.(fetched := b.fetched)
    requires AllAlike(a.fetched.value, b.fetched.value)
    ensures DateOnlyImages(Prepared(lib, defs, p, a).images, Prepared(lib, defs, q, b).images)
  {
    FilteredAlike(lib, a.fetched.value, b.fetched.value, Declared(defs));
    EditDateOnly(lib, a.updater, p.images, q.images, Sources(defs, a), Sources(defs, b));
  }

  lemma {:induction false} ChainDateOnly<C>(
    lib: Library, defs: seq<CapabilityDefinition>, p: Profile<C>, q: Profile<C>, a: seq<Update<C>>, b: seq<Update<C>>)
    requires DateOnlyImages(p.images, q.images) && SameUpdates(a, b)
    ensures DateOnlyImages(PreparedAll(lib, defs, p, a).images, PreparedAll(lib, defs, q, b).images)
    decreases |a|
  {
    if a != [] {
      PreparedDateOnly(lib, defs, p, q, a[0], b[0]);
      ChainDateOnly(lib, defs, Prepared(lib, defs, p, a[0]), Prepared(lib, defs, q, b[0]), a[1..], b[1..]);
    }
  }

  /** Providers that do not read dates end in the same configuration. */
  lemma {:induction false} ChainSameConfig<C(!new)>(
    lib: Library, defs: seq<CapabilityDefinition>, p: Profile<C>, q: Profile<C>, a: seq<Update<C>>, b: seq<Update<C>>)
    requires SameUpdates(a, b) && p.config == q.config
    requires forall i :: 0 <= i < |a| ==> Blind(a[i].provider)
    ensures PreparedAll(lib, defs, p, a).config == PreparedAll(lib, defs, q, b).config
    decreases |a|
  {
    if a != [] {
      FilteredAlike(lib, a[0].fetched.value, b[0].fetched.value, Declared(defs));
      assert Blind(a[0].provider) && b[0].provider == a[0].provider;
      assert a[0].provider(p.config, Sources(defs, a[0])) == a[0].provider(p.config, Sources(defs, b[0]));
      ChainSameConfig(lib, defs, Prepared(lib, defs, p, a[0]), Prepared(lib, defs, q, b[0]), a[1..], b[1..]);
    }
  }

  // ---------------------------------------------------------------- exactly when nothing changes

  /** No version that is not deprecated takes its date from the clock. */
  ghost predicate ClockFree(s: seq<MachineImage>, t: seq<MachineImage>)
    requires DateOnlyImages(s, t)
  {
    forall i, j :: 0 <= i < |s| && 0 <= j < |s[i].body.versions| ==> FreeEntry(s, t, i, j)
  }

  ghost predicate FreeEntry(s: seq<MachineImage>, t: seq<MachineImage>, i: nat, j: nat)
    requires DateOnlyImages(s, t) && i < |s| && j < |s[i].body.versions|
  {
    assert DateOnlyVersions(s[i].body.versions, t[i].body.versions);
    || s[i].body.versions[j].body.Deprecated()
    || s[i].body.versions[j].body.expirationDate == t[i].body.versions[j].body.expirationDate
  }

  /** Carrying dates over from a stored profile erases later differences exactly when they are on
      deprecated versions. */
  lemma CarriedTwice(stored: seq<MachineImage>, s: seq<MachineImage>, t: seq<MachineImage>)
    requires WellFormed(s) && DateOnlyImages(s, t)
    ensures Carried(Carried(stored, s), t) == Carried(stored, s) <==> ClockFree(s, t)
  {
    var first := Carried(stored, s);
    var second := Carried(first, t);
    CarriedKeys(stored, s);
    forall i, j | 0 <= i < |s| && 0 <= j < |s[i].body.versions|
      ensures second[i].body.versions[j] == first[i].body.versions[j] <==> FreeEntry(s, t, i, j) {
      CarriedTwiceAt(stored, s, t, i, j);
    }
    if ClockFree(s, t) {
      forall i | 0 <= i < |s| ensures second[i] == first[i] {
        forall j | 0 <= j < |s[i].body.versions| ensures second[i].body.versions[j] == first[i].body.versions[j] {
        }
        assert second[i].body.versions == first[i].body.versions;
      }
    }
  }

  lemma CarriedTwiceAt(stored: seq<MachineImage>, s: seq<MachineImage>, t: seq<MachineImage>, i: nat, j: nat)
    requires WellFormed(s) && DateOnlyImages(s, t) && i < |s| && j < |s[i].body.versions|
    ensures var first := Carried(stored, s);
            Carried(first, t)[i].body.versions[j] == first[i].body.versions[j] <==> FreeEntry(s, t, i, j)
  {
    var first := Carried(stored, s);
    CarriedKeys(stored, s);
    assert first[i] == CarriedImage(StoredDates(stored), s[i]);
    StoredDatesExact(first, i, j);
    assert DateOnly(s[i].body.versions[j].body, t[i].body.versions[j].body);
  }

  lemma SelfAlike(images: seq<MachineImage>)
    ensures DateOnlyImages(images, images)
  {
  }

  // ---------------------------------------------------------------- read off the spec and the sources

  /** The hits of all updates of one image on one version, in the order of the updates. */
  function ChainHits<C>(defs: seq<CapabilityDefinition>, updates: seq<Update<C>>, name: string, k: string): seq<Hit>
    requires forall i :: 0 <= i < |updates| ==> updates[i].fetched.Ok?
  {
    if updates == [] then []
    else OwnHits(defs, updates[0], name, k) + ChainHits(defs, updates[1..], name, k)
  }

  function OwnHits<C>(defs: seq<CapabilityDefinition>, update: Update<C>, name: string, k: string): seq<Hit>
    requires update.fetched.Ok?
  {
    if update.updater.imageName == name then Hits(update.updater, Sources(defs, update), k) else []
  }

  lemma {:induction false} FirstDateConcat(a: seq<Hit>, b: seq<Hit>)
    ensures FirstDate(a + b) == if FirstDate(a).Some? then FirstDate(a) else FirstDate(b)
  {
    if a == [] {
      assert a + b == b;
    } else {
      assert (a + b)[1..] == a[1..] + b;
      FirstDateConcat(a[1..], b);
    }
  }

  function DateAfter(c: Option<VersionFields>, hits: seq<Hit>): Option<Time> {
    if c.Some? && c.value.expirationDate.Some? then c.value.expirationDate else FirstDate(hits)
  }

  /** What some hits make of an entry, as far as presence, classification and date go. */
  ghost predicate EntryAfter(
      lib: Library, k: string, c: Option<VersionFields>, hits: seq<Hit>, r: Option<VersionFields>) {
    && (r.Some? <==> c.Some? || (hits != [] && lib.Valid(k)))
    && (r.Some? && hits != [] ==> r.value.classification == hits[|hits| - 1].src.classification)
    && (r.Some? && hits == [] ==> r.value.classification == c.value.classification)
    && (r.Some? ==> r.value.expirationDate == DateAfter(c, hits))
  }

  lemma EntryAfterBoth(
      lib: Library, k: string, c: Option<VersionFields>, a: seq<Hit>, d: Option<VersionFields>, b: seq<Hit>,
      r: Option<VersionFields>)
    requires EntryAfter(lib, k, c, a, d) && EntryAfter(lib, k, d, b, r)
    ensures EntryAfter(lib, k, c, a + b, r)
  {
    FirstDateConcat(a, b);
  }

  lemma ValidHits<C>(lib: Library, defs: seq<CapabilityDefinition>, update: Update<C>, k: string)
    requires update.fetched.Ok? && CleanVersionsValid(lib, update.updater, update.fetched.value)
    ensures !lib.Valid(k) ==> forall h :: h in Hits(update.updater, Sources(defs, update), k) ==> h.LegacyHit?
  {
    var srcs := Sources(defs, update);
    forall h | h in Hits(update.updater, srcs, k) && h.CleanHit? ensures lib.Valid(k) {
      var j :| 0 <= j < |srcs| && srcs[j] == h.src;
      assert update.fetched.value[j] in update.fetched.value;
    }
  }

  lemma MergedEntryAfter(lib: Library, u: Updater, base: seq<ImageVersion>, srcs: seq<SourceImage>, k: string)
    requires !lib.Valid(k) ==> forall h :: h in Hits(u, srcs, k) ==> h.LegacyHit?
    ensures EntryAfter(lib, k, Find(base, k, Last), Hits(u, srcs, k), Find(Merged(lib, u, base, srcs), k, Last))
  {
    MergedEntryFields(lib, u, base, srcs, k);
  }

  lemma PreparedEntry<C>(
      lib: Library, defs: seq<CapabilityDefinition>, p: Profile<C>, update: Update<C>, name: string, k: string)
    requires update.fetched.Ok? && CleanVersionsValid(lib, update.updater, update.fetched.value)
    ensures EntryAfter(lib, k, VersionAt(p.images, name, k), OwnHits(defs, update, name, k),
                       VersionAt(Prepared(lib, defs, p, update).images, name, k))
  {
    var u, srcs := update.updater, Sources(defs, update);
    PutFind(p.images, ImageEdit(lib, u, srcs), First, name);
    if name == u.imageName {
      var at := Find(p.images, name, First);
      ValidHits(lib, defs, update, k);
      MergedEntryAfter(lib, u, if at.Some? then at.value.versions else [], srcs, k);
    }
  }

  lemma {:induction false} ChainEntry<C>(
    lib: Library, defs: seq<CapabilityDefinition>, p: Profile<C>, updates: seq<Update<C>>, name: string, k: string)
    requires forall i :: 0 <= i < |updates| ==>
               updates[i].fetched.Ok? && CleanVersionsValid(lib, updates[i].updater, updates[i].fetched.value)
    ensures EntryAfter(lib, k, VersionAt(p.images, name, k), ChainHits(defs, updates, name, k),
                       VersionAt(PreparedAll(lib, defs, p, updates).images, name, k))
    decreases |updates|
  {
    if updates != [] {
      var next := Prepared(lib, defs, p, updates[0]);
      PreparedEntry(lib, defs, p, updates[0], name, k);
      ChainEntry(lib, defs, next, updates[1..], name, k);
      EntryAfterBoth(lib, k, VersionAt(p.images, name, k), OwnHits(defs, updates[0], name, k),
                     VersionAt(next.images, name, k), ChainHits(defs, updates[1..], name, k),
                     VersionAt(PreparedAll(lib, defs, p, updates).images, name, k));
    }
  }

  /** A version that takes its date from the sources and ends without being deprecated: it has no date in the
      base, the first date any update of its image brings is not the same at the two times, and the last
      hit does not deprecate it. */
  ghost predicate Drifts<C>(lib: Library, s: Spec<C>, t: Spec<C>, name: string, k: string)
    requires forall i :: 0 <= i < |s.updates| ==> s.updates[i].fetched.Ok?
    requires forall i :: 0 <= i < |t.updates| ==> t.updates[i].fetched.Ok?
  {
    var base := VersionAt(s.base.images, name, k);
    var hits, others := ChainHits(s.capabilities, s.updates, name, k), ChainHits(t.capabilities, t.updates, name, k);
    && (if base.Some? then base.value.expirationDate.None? else lib.Valid(k))
    && FirstDate(hits) != FirstDate(others)
    && hits != [] && hits[|hits| - 1].src.classification != Some(DEPRECATED)
  }

  lemma DateOnlyEntries(x: seq<MachineImage>, y: seq<MachineImage>, name: string, k: string)
    requires DateOnlyImages(x, y)
    ensures VersionAt(x, name, k).Some? <==> VersionAt(y, name, k).Some?
    ensures VersionAt(x, name, k).Some? ==> DateOnly(VersionAt(x, name, k).value, VersionAt(y, name, k).value)
  {
    SameLocate(x, y, name, First);
    var i := Locate(x, name, First);
    if i != -1 {
      var rel := (k: string, v: VersionFields, w: VersionFields) => DateOnly(v, w);
      var a, b := x[i].body.versions, y[i].body.versions;
      assert DateOnlyVersions(a, b);
      SameLocate(a, b, k, Last);
      var j := Locate(a, k, Last);
      assert j != -1 ==> rel(a[j].key, a[j].body, b[j].body);
    }
  }

  lemma SameKeys(x: seq<MachineImage>, y: seq<MachineImage>)
    requires DateOnlyImages(x, y) && WellFormed(x)
    ensures WellFormed(y)
  {
    assert Keys(x) == Keys(y);
    forall i | 0 <= i < |y| ensures WellFormedVersions(y[i].body.versions) {
      assert WellFormedVersions(x[i].body.versions) && DateOnlyVersions(x[i].body.versions, y[i].body.versions);
      assert Keys(x[i].body.versions) == Keys(y[i].body.versions);
    }
  }

  /** No entry found by name and version takes its date from the clock without being deprecated. */
  ghost predicate FreeAt(x: seq<MachineImage>, y: seq<MachineImage>, name: string, k: string) {
    VersionAt(x, name, k).Some? && VersionAt(y, name, k).Some? ==>
      || VersionAt(x, name, k).value.Deprecated()
      || VersionAt(x, name, k).value.expirationDate == VersionAt(y, name, k).value.expirationDate
  }

  lemma ClockFreeByName(x: seq<MachineImage>, y: seq<MachineImage>)
    requires DateOnlyImages(x, y) && WellFormed(x)
    ensures ClockFree(x, y) <==> forall name, k :: FreeAt(x, y, name, k)
  {
    SameKeys(x, y);
    if forall name, k :: FreeAt(x, y, name, k) {
      forall i, j | 0 <= i < |x| && 0 <= j < |x[i].body.versions| ensures FreeEntry(x, y, i, j) {
        OnlyEntry(x, i, j);
        assert DateOnlyVersions(x[i].body.versions, y[i].body.versions);
        OnlyEntry(y, i, j);
        assert FreeAt(x, y, x[i].key, x[i].body.versions[j].key);
      }
    }
    if ClockFree(x, y) {
      forall name, k ensures FreeAt(x, y, name, k) {
        SameLocate(x, y, name, First);
        var i := Locate(x, name, First);
        if i != -1 {
          assert DateOnlyVersions(x[i].body.versions, y[i].body.versions);
          SameLocate(x[i].body.versions, y[i].body.versions, k, Last);
          var j := Locate(x[i].body.versions, k, Last);
          assert j != -1 ==> FreeEntry(x, y, i, j);
        }
      }
    }
  }

  /** At a name and version the chains are free of the clock exactly when the spec and the sources do not
      let it drift. */
  lemma FreeUnlessDrifts<C>(lib: Library, s: Spec<C>, t: Spec<C>, name: string, k: string)
    requires lib.Lawful() && t == s.(updates := t.updates) && SameUpdates(s.updates, t.updates)
    requires forall i :: 0 <= i < |s.updates| ==>
               && CleanVersionsValid(lib, s.updates[i].updater, s.updates[i].fetched.value)
               && CleanVersionsValid(lib, t.updates[i].updater, t.updates[i].fetched.value)
    ensures var x := PreparedAll(lib, s.capabilities, s.base, s.updates).images;
            var y := PreparedAll(lib, t.capabilities, t.base, t.updates).images;
            FreeAt(x, y, name, k) <==> !Drifts(lib, s, t, name, k)
  {
    ChainEntry(lib, s.capabilities, s.base, s.updates, name, k);
    ChainEntry(lib, t.capabilities, t.base, t.updates, name, k);
    SelfAlike(s.base.images);
    ChainDateOnly(lib, s.capabilities, s.base, t.base, s.updates, t.updates);
    DateOnlyEntries(PreparedAll(lib, s.capabilities, s.base, s.updates).images,
                    PreparedAll(lib, t.capabilities, t.base, t.updates).images, name, k);
  }

  lemma AlikeCleanVersionsValid(lib: Library, u: Updater, a: seq<SourceImage>, b: seq<SourceImage>)
    requires AllAlike(a, b) && CleanVersionsValid(lib, u, a)
    ensures CleanVersionsValid(lib, u, b)
  {
    forall src | src in b && WritesClean(u, src) ensures lib.Valid(src.cleanVersion) {
      var i :| 0 <= i < |b| && b[i] == src;
      assert Alike(a[i], b[i]) && a[i] in a;
    }
  }

  // ---------------------------------------------------------------- the second reconcile

  /** The same spec at two times: the same updates, with the sources reporting the same images. */
  ghost predicate SameSpec<C>(lib: Library, s: Spec<C>, t: Spec<C>) {
    && lib.Lawful() && WellFormedSpec(lib, s) && !s.paused
    && t == s.(updates := t.updates) && SameUpdates(s.updates, t.updates) && Succeeds(lib, s)
  }

  lemma SecondPreparation<C(!new)>(lib: Library, s: Spec<C>, t: Spec<C>)
    requires SameSpec(lib, s, t)
    ensures Succeeds(lib, t)
    ensures var x := PreparedAll(lib, s.capabilities, s.base, s.updates).images;
            var y := PreparedAll(lib, t.capabilities, t.base, t.updates).images;
            && DateOnlyImages(x, y) && WellFormed(x)
            && (ClockFree(x, y) <==> forall name, k :: !Drifts(lib, s, t, name, k))
  {
    forall i | 0 <= i < |t.updates|
      ensures Runs(lib, t.updates[i]) && CleanVersionsValid(lib, t.updates[i].updater, t.updates[i].fetched.value) {
      assert Runs(lib, s.updates[i]);
      AlikeCleanVersionsValid(lib, s.updates[i].updater, s.updates[i].fetched.value, t.updates[i].fetched.value);
    }
    SelfAlike(s.base.images);
    ChainDateOnly(lib, s.capabilities, s.base, t.base, s.updates, t.updates);
    PreparedAllWellFormed(lib, s.capabilities, s.base, s.updates);
    var x := PreparedAll(lib, s.capabilities, s.base, s.updates).images;
    var y := PreparedAll(lib, t.capabilities, t.base, t.updates).images;
    ClockFreeByName(x, y);
    forall name, k ensures FreeAt(x, y, name, k) <==> !Drifts(lib, s, t, name, k) {
      FreeUnlessDrifts(lib, s, t, name, k);
    }
  }

  /** A second reconcile, with the same spec and the sources reporting the same images at a later time,
      leaves the provider configuration as it was, and leaves the machine images as they were exactly when
      no version drifts. */
  lemma SecondReconcileExactly<C(!new)>(lib: Library, stored: Profile<C>, s: Spec<C>, t: Spec<C>)
    requires SameSpec(lib, s, t)
    requires forall i :: 0 <= i < |s.updates| ==> Blind(s.updates[i].provider)
    ensures Succeeds(lib, t)
    ensures Reconciled(lib, Reconciled(lib, stored, s), t) == Reconciled(lib, stored, s) <==>
              forall name, k :: !Drifts(lib, s, t, name, k)
    ensures Reconciled(lib, Reconciled(lib, stored, s), t).config == Reconciled(lib, stored, s).config
  {
    SecondPreparation(lib, s, t);
    ChainSameConfig(lib, s.capabilities, s.base, t.base, s.updates, t.updates);
    CarriedTwice(stored.images, Target(lib, stored, s).images, Target(lib, Reconciled(lib, stored, s), t).images);
  }

  // ---------------------------------------------------------------- one update per image

  lemma {:induction false} ChainHitsOnce<C>(
      defs: seq<CapabilityDefinition>, updates: seq<Update<C>>, name: string, k: string)
    requires Distinct(Names(updates)) && forall i :: 0 <= i < |updates| ==> updates[i].fetched.Ok?
    ensures name !in Names(updates) ==> ChainHits(defs, updates, name, k) == []
    ensures forall i :: 0 <= i < |updates| && updates[i].updater.imageName == name ==>
              ChainHits(defs, updates, name, k) == Hits(updates[i].updater, Sources(defs, updates[i]), k)
  {
    if updates != [] {
      assert Names(updates[1..]) == Names(updates)[1..];
      ChainHitsOnce(defs, updates[1..], name, k);
      assert Names(updates)[0] == updates[0].updater.imageName;
    }
  }

  /** With one version per image all hits on a version come from the one image that has it. */
  lemma OneSource(lib: Library, u: Updater, srcs: seq<SourceImage>, k: string)
    requires OneVersionEach(lib, srcs)
    ensures forall h :: h in Hits(u, srcs, k) ==> h.src in srcs && h.src.version == k
    ensures Hits(u, srcs, k) != [] <==> k in Tags(srcs)
  {
    var hits := Hits(u, srcs, k);
    forall h | h in hits ensures h.src.version == k && k in Tags(srcs) {
      var i :| 0 <= i < |srcs| && srcs[i] == h.src;
      assert SingleVersion(lib, srcs[i]) && Tags(srcs)[i] == srcs[i].version;
    }
    assert hits != [] ==> hits[0] in hits;
    if k in Tags(srcs) {
      var i :| 0 <= i < |srcs| && Tags(srcs)[i] == k;
      LegacyHitThere(u, srcs, i);
    }
  }

  lemma {:induction false} LegacyHitThere(u: Updater, srcs: seq<SourceImage>, i: nat)
    requires i < |srcs|
    ensures LegacyHit(srcs[i]) in Hits(u, srcs, srcs[i].version)
  {
    if i > 0 {
      LegacyHitThere(u, srcs[1..], i - 1);
    }
  }

  lemma {:induction false} FirstDateOfOne(hits: seq<Hit>, src: SourceImage)
    requires forall h :: h in hits ==> h.src == src
    ensures FirstDate(hits) == if hits == [] then None else src.expirationDate
  {
    if hits != [] {
      assert hits[0] in hits && forall h :: h in hits[1..] ==> h in hits;
      FirstDateOfOne(hits[1..], src);
    }
  }

  lemma UniqueSource(lib: Library, srcs: seq<SourceImage>, i: nat, src: SourceImage)
    requires OneVersionEach(lib, srcs) && i < |srcs| && src in srcs && src.version == srcs[i].version
    ensures src == srcs[i]
  {
    var j :| 0 <= j < |srcs| && srcs[j] == src;
    assert Tags(srcs)[i] == Tags(srcs)[j];
  }

  /** The hits of a source with one version per image, read off that image. */
  lemma HitsOfOne(lib: Library, u: Updater, srcs: seq<SourceImage>, i: nat)
    requires OneVersionEach(lib, srcs) && i < |srcs|
    ensures var hits := Hits(u, srcs, srcs[i].version);
            hits != [] && hits[|hits| - 1].src == srcs[i] && FirstDate(hits) == srcs[i].expirationDate
  {
    var hits := Hits(u, srcs, srcs[i].version);
    OneSource(lib, u, srcs, srcs[i].version);
    assert Tags(srcs)[i] in Tags(srcs);
    forall h | h in hits ensures h.src == srcs[i] {
      UniqueSource(lib, srcs, i, h.src);
    }
    FirstDateOfOne(hits, srcs[i]);
    assert hits[|hits| - 1] in hits;
  }

  lemma NoDriftOfOne(lib: Library, u: Updater, a: seq<SourceImage>, b: seq<SourceImage>, k: string)
    requires AllAlike(a, b) && OneVersionEach(lib, a)
    ensures var hits, others := Hits(u, a, k), Hits(u, b, k);
            || FirstDate(hits) == FirstDate(others)
            || (hits != [] && hits[|hits| - 1].src.classification == Some(DEPRECATED))
  {
    AlikeShape(lib, a, b);
    assert Tags(a) == Tags(b);
    if k in Tags(a) {
      var i :| 0 <= i < |a| && Tags(a)[i] == k;
      HitsOfOne(lib, u, a, i);
      HitsOfOne(lib, u, b, i);
      assert Alike(a[i], b[i]);
    } else {
      OneSource(lib, u, a, k);
      OneSource(lib, u, b, k);
    }
  }

  /** With one update per image and one version per image of a stamping source, nothing drifts, so a second
      reconcile at a later time changes nothing. */
  lemma SecondReconcileChangesNothing<C(!new)>(lib: Library, stored: Profile<C>, s: Spec<C>, t: Spec<C>)
    requires SameSpec(lib, s, t)
    requires forall i :: 0 <= i < |s.updates| ==> Blind(s.updates[i].provider)
    requires Distinct(Names(s.updates))
    requires forall i :: 0 <= i < |s.updates| ==>
               s.updates[i].fetched == t.updates[i].fetched || OneVersionEach(lib, s.updates[i].fetched.value)
    ensures Succeeds(lib, t) && Reconciled(lib, Reconciled(lib, stored, s), t) == Reconciled(lib, stored, s)
  {
    SecondReconcileExactly(lib, stored, s, t);
    forall name, k ensures !Drifts(lib, s, t, name, k) {
      NoDrift(lib, s, t, name, k);
    }
  }

  lemma NoDrift<C>(lib: Library, s: Spec<C>, t: Spec<C>, name: string, k: string)
    requires t == s.(updates := t.updates) && SameUpdates(s.updates, t.updates) && Distinct(Names(s.updates))
    requires forall i :: 0 <= i < |s.updates| ==>
               s.updates[i].fetched == t.updates[i].fetched || OneVersionEach(lib, s.updates[i].fetched.value)
    ensures !Drifts(lib, s, t, name, k)
  {
    assert Names(s.updates) == Names(t.updates);
    ChainHitsOnce(s.capabilities, s.updates, name, k);
    ChainHitsOnce(t.capabilities, t.updates, name, k);
    if name in Names(s.updates) {
      var i :| 0 <= i < |s.updates| && Names(s.updates)[i] == name;
      var a, b := s.updates[i], t.updates[i];
      if a.fetched != b.fetched {
        FilteredAlike(lib, a.fetched.value, b.fetched.value, Declared(s.capabilities));
        NoDriftOfOne(lib, a.updater, Sources(s.capabilities, a), Sources(s.capabilities, b), k);
      }
    }
  }
}
