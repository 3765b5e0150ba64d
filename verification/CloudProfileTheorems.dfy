/** What holds over whole runs of the reconcile step: expiration dates stay, updates of different
    images do not disturb each other, and a pause freezes the stored images. */
module CloudProfileTheorems {
  import opened Prelude
  import opened Keyed
  import opened Images
  import opened Semver
  import opened ImageMerge
  import opened MergeTheorems
  import opened CloudProfile

  // ---------------------------------------------------------------- the string key

  /** The key identifies image and version, among all versions without a slash, exactly when the
      version has none. */
  lemma KeyIdentifiesExactly(name: string, version: string)
    ensures '/' !in version <==>
              forall m, w :: '/' !in w && ExpirationDateKey(m, w) == ExpirationDateKey(name, version) ==>
                  m == name && w == version
  {
    if '/' !in version {
      forall m, w | '/' !in w && ExpirationDateKey(m, w) == ExpirationDateKey(name, version)
        ensures m == name && w == version {
        KeyInjective(m, w, name, version);
      }
    } else {
      var i := LastSlash(version);
      var m, w := name + "/" + version[..i], version[i + 1..];
      assert version == version[..i] + "/" + w;
      assert ExpirationDateKey(m, w) == ExpirationDateKey(name, version);
      assert |w| < |version|;
    }
  }

  lemma KeyInjective(m: string, w: string, name: string, version: string)
    requires '/' !in w && '/' !in version && ExpirationDateKey(m, w) == ExpirationDateKey(name, version)
    ensures m == name && w == version
  {
    SlashEndsName(m, w);
    SlashEndsName(name, version);
    var key := ExpirationDateKey(m, w);
    assert |m| == |name|;
    assert key[..|m|] == m && key[..|name|] == name;
    assert key[|m| + 1..] == w && key[|name| + 1..] == version;
  }

  lemma SlashEndsName(m: string, w: string)
    requires '/' !in w
    ensures var key := ExpirationDateKey(m, w);
            key[|m|] == '/' && forall k :: |m| < k < |key| ==> key[k] != '/'
  {
    var key := ExpirationDateKey(m, w);
    assert forall k :: |m| < k < |key| ==> key[k] == w[k - |m| - 1];
  }

  lemma {:induction false} LastSlash(s: string) returns (i: nat)
    requires '/' in s
    ensures i < |s| && s[i] == '/' && '/' !in s[i + 1..]
  {
    if s[|s| - 1] == '/' {
      i := |s| - 1;
    } else {
      assert s == s[..|s| - 1] + [s[|s| - 1]];
      i := LastSlash(s[..|s| - 1]);
      assert s[i + 1..] == s[..|s| - 1][i + 1..] + [s[|s| - 1]];
    }
  }

  // ---------------------------------------------------------------- the stored dates

  /** Version strings are distinct and free of slashes. */
  ghost predicate WellFormedVersions(versions: seq<ImageVersion>) {
    Distinct(Keys(versions)) && forall j :: 0 <= j < |versions| ==> '/' !in versions[j].key
  }

  ghost predicate WellFormed(images: seq<MachineImage>) {
    Distinct(Keys(images)) && forall i :: 0 <= i < |images| ==> WellFormedVersions(images[i].body.versions)
  }

  /** Entry (i, j) is dated and has this key string. */
  predicate Dated(images: seq<MachineImage>, i: nat, j: nat, key: string) {
    && i < |images| && j < |images[i].body.versions|
    && images[i].body.versions[j].body.expirationDate.Some?
    && key == ExpirationDateKey(images[i].key, images[i].body.versions[j].key)
  }

  /** Entry (i, j) is the last dated one with this key string. */
  ghost predicate LastDated(images: seq<MachineImage>, i: nat, j: nat, key: string) {
    Dated(images, i, j, key) && forall k: nat, l: nat :: Dated(images, k, l, key) ==> k < i || (k == i && l <= j)
  }

  predicate DatedIn(name: string, versions: seq<ImageVersion>, j: nat, key: string) {
    && j < |versions| && versions[j].body.expirationDate.Some?
    && key == ExpirationDateKey(name, versions[j].key)
  }

  /** What one image adds under a key: the date of its last dated entry with the key, if any. */
  lemma {:induction false} LastNoted(
      m: map<string, Time>, name: string, versions: seq<ImageVersion>, key: string) returns (j: int)
    ensures -1 <= j < |versions|
    ensures forall l: nat :: DatedIn(name, versions, l, key) ==> l <= j
    ensures j == -1 ==>
              (key in Noted(m, name, versions) <==> key in m) && (key in m ==> Noted(m, name, versions)[key] == m[key])
    ensures j >= 0 ==> DatedIn(name, versions, j, key) && key in Noted(m, name, versions)
    ensures j >= 0 ==> versions[j].body.expirationDate == Some(Noted(m, name, versions)[key])
  {
    if versions == [] {
      j := -1;
    } else {
      var n := |versions| - 1;
      if DatedIn(name, versions, n, key) {
        j := n;
      } else {
        j := LastNoted(m, name, versions[..n], key);
        forall l: nat | DatedIn(name, versions, l, key) ensures l <= j {
          assert DatedIn(name, versions[..n], l, key);
        }
      }
    }
  }

  /** Exactly what is stored under a key: the date of the last dated entry with the key, if any. */
  lemma {:induction false} LastStored(images: seq<MachineImage>, key: string) returns (i: int, j: nat)
    ensures i == -1 ==> key !in StoredDates(images) && forall k: nat, l: nat :: !Dated(images, k, l, key)
    ensures i != -1 ==> i >= 0 && LastDated(images, i, j, key) && key in StoredDates(images)
    ensures i != -1 ==> images[i].body.versions[j].body.expirationDate == Some(StoredDates(images)[key])
  {
    i, j := -1, 0;
    if images != [] {
      var n := |images| - 1;
      var last := images[n];
      var l := LastNoted(StoredDates(images[..n]), last.key, last.body.versions, key);
      var p, q := LastStored(images[..n], key);
      forall k: nat, h: nat | Dated(images, k, h, key)
        ensures if k == n then h <= l else p != -1 && (k < p || (k == p && h <= q)) {
        assert if k == n then DatedIn(last.key, last.body.versions, h, key) else Dated(images[..n], k, h, key);
      }
      if l >= 0 {
        i, j := n, l;
      } else if p != -1 {
        i, j := p, q;
        assert Dated(images[..n], p, q, key);
      }
    }
  }

  /** In a well-formed list an entry is the only one with its key. */
  lemma KeyedOnce(images: seq<MachineImage>, i: nat, j: nat, k: nat, l: nat)
    requires WellFormed(images)
    requires i < |images| && j < |images[i].body.versions| && k < |images| && l < |images[k].body.versions|
    requires ExpirationDateKey(images[i].key, images[i].body.versions[j].key) ==
               ExpirationDateKey(images[k].key, images[k].body.versions[l].key)
    ensures i == k && j == l
  {
    KeyInjective(images[i].key, images[i].body.versions[j].key, images[k].key, images[k].body.versions[l].key);
    assert Keys(images)[i] == Keys(images)[k];
    assert Keys(images[i].body.versions)[j] == Keys(images[i].body.versions)[l];
  }

  /** The date stored under the key of an entry is the date of that entry. */
  lemma StoredDatesExact(images: seq<MachineImage>, i: nat, j: nat)
    requires WellFormed(images) && i < |images| && j < |images[i].body.versions|
    ensures var v := images[i].body.versions[j];
            var key := ExpirationDateKey(images[i].key, v.key);
            v.body.expirationDate == if key in StoredDates(images) then Some(StoredDates(images)[key]) else None
  {
    var key := ExpirationDateKey(images[i].key, images[i].body.versions[j].key);
    var k, l := LastStored(images, key);
    if k == -1 {
      assert !Dated(images, i, j, key);
    } else {
      KeyedOnce(images, i, j, k, l);
    }
  }

  // ---------------------------------------------------------------- sticky dates

  /** The entry of a version of an image. */
  function VersionAt(images: seq<MachineImage>, name: string, version: string): Option<VersionFields> {
    match Find(images, name, First)
    case None => None
    case Some(img) => Find(img.versions, version, Last)
  }

  lemma CarriedKeys(existing: seq<MachineImage>, next: seq<MachineImage>)
    ensures Keys(Carried(existing, next)) == Keys(next)
    ensures forall i :: 0 <= i < |next| ==>
              Keys(Carried(existing, next)[i].body.versions) == Keys(next[i].body.versions)
    ensures WellFormed(next) ==> WellFormed(Carried(existing, next))
  {
    var r := Carried(existing, next);
    forall i | 0 <= i < |next| ensures Keys(r[i].body.versions) == Keys(next[i].body.versions) {
    }
    if WellFormed(next) {
      forall i | 0 <= i < |r| ensures WellFormedVersions(r[i].body.versions) {
        assert WellFormedVersions(next[i].body.versions);
      }
    }
  }

  /** The lookup by string key is the lookup by image and version. */
  lemma StoredByNameAndVersion(images: seq<MachineImage>, name: string, version: string)
    requires WellFormed(images) && '/' !in version
    ensures var key, entry := ExpirationDateKey(name, version), VersionAt(images, name, version);
            (if key in StoredDates(images) then Some(StoredDates(images)[key]) else None) ==
            if entry.Some? then entry.value.expirationDate else None
  {
    var key := ExpirationDateKey(name, version);
    if VersionAt(images, name, version).Some? {
      var i := Locate(images, name, First);
      StoredDatesExact(images, i, Locate(images[i].body.versions, version, Last));
    } else if key in StoredDates(images) {
      var i, j := LastStored(images, key);
      KeyInjective(images[i].key, images[i].body.versions[j].key, name, version);
      OnlyEntry(images, i, j);
    }
  }

  /** In a well-formed list every entry is the one found for its image and version. */
  lemma OnlyEntry(images: seq<MachineImage>, i: nat, j: nat)
    requires WellFormed(images) && i < |images| && j < |images[i].body.versions|
    ensures VersionAt(images, images[i].key, images[i].body.versions[j].key) == Some(images[i].body.versions[j].body)
  {
    var p := Locate(images, images[i].key, First);
    assert Keys(images)[p] == Keys(images)[i];
    var vs := images[i].body.versions;
    var q := Locate(vs, vs[j].key, Last);
    assert Keys(vs)[q] == Keys(vs)[j];
  }

  /** What the carry-over does, without string keys: a deprecated version takes the date its image and
      version have in the stored profile, if any, and nothing else changes. */
  lemma CarriedByNameAndVersion(existing: seq<MachineImage>, next: seq<MachineImage>, i: nat, j: nat)
    requires WellFormed(existing) && i < |next| && j < |next[i].body.versions| && '/' !in next[i].body.versions[j].key
    ensures var r, v := Carried(existing, next), next[i].body.versions[j];
            var stored := VersionAt(existing, next[i].key, v.key);
            && r[i] == next[i].(body := next[i].body.(versions := r[i].body.versions))
            && r[i].body.versions[j] ==
               if v.body.classification == Some("deprecated") && stored.Some? && stored.value.expirationDate.Some?
               then v.(body := v.body.(expirationDate := stored.value.expirationDate)) else v
  {
    StoredByNameAndVersion(existing, next[i].key, next[i].body.versions[j].key);
  }

  predicate DatedAt(images: seq<MachineImage>, name: string, version: string, date: Time) {
    VersionAt(images, name, version).Some? && VersionAt(images, name, version).value.expirationDate == Some(date)
  }

  predicate DeprecatedAt(images: seq<MachineImage>, name: string, version: string) {
    VersionAt(images, name, version).Some? && VersionAt(images, name, version).value.Deprecated()
  }

  /** The last dated entry that has the key string of this version has this date. */
  ghost predicate KeyHasDate(images: seq<MachineImage>, name: string, version: string, date: Time) {
    forall i: nat, j: nat :: LastDated(images, i, j, ExpirationDateKey(name, version)) ==>
      images[i].body.versions[j].body.expirationDate == Some(date)
  }

  /** Whatever is stored next, the version keeps this date if it is deprecated there. */
  ghost predicate Sticks(images: seq<MachineImage>, name: string, version: string, date: Time) {
    forall next :: DeprecatedAt(Carried(images, next), name, version) ==>
        DatedAt(Carried(images, next), name, version, date)
  }

  /** The date of a stored version sticks exactly when the last dated entry with its key string has that
      date. */
  lemma SticksExactly(images: seq<MachineImage>, name: string, version: string, date: Time)
    requires DatedAt(images, name, version, date)
    ensures Sticks(images, name, version, date) <==> KeyHasDate(images, name, version, date)
  {
    var key := ExpirationDateKey(name, version);
    var p := Locate(images, name, First);
    assert Dated(images, p, Locate(images[p].body.versions, version, Last), key);
    var i, j := LastStored(images, key);
    if KeyHasDate(images, name, version, date) {
      forall next | DeprecatedAt(Carried(images, next), name, version)
        ensures DatedAt(Carried(images, next), name, version, date) {
        CarriedDate(images, next, name, version);
      }
    } else {
      var v: ImageVersion := Entry(version, BLANK.(classification := Some(DEPRECATED)));
      var next: seq<MachineImage> := [Entry(name, NEW_IMAGE.(versions := [v]))];
      OneVersionAt(next, Carried(images, next), name, version);
      CarriedDate(images, next, name, version);
      assert DeprecatedAt(Carried(images, next), name, version);
    }
  }

  lemma OneVersionAt(next: seq<MachineImage>, r: seq<MachineImage>, name: string, version: string)
    requires |next| == |r| == 1 && next[0].key == r[0].key == name
    requires |next[0].body.versions| == |r[0].body.versions| == 1
    requires next[0].body.versions[0].key == r[0].body.versions[0].key == version
    ensures VersionAt(r, name, version) == Some(r[0].body.versions[0].body)
    ensures VersionAt(next, name, version) == Some(next[0].body.versions[0].body)
  {
  }

  /** A deprecated version of what is stored next takes the date stored under its key. */
  lemma CarriedDate(existing: seq<MachineImage>, next: seq<MachineImage>, name: string, version: string)
    requires DeprecatedAt(Carried(existing, next), name, version) || DeprecatedAt(next, name, version)
    ensures var key := ExpirationDateKey(name, version);
            key in StoredDates(existing) ==> DatedAt(Carried(existing, next), name, version, StoredDates(existing)[key])
  {
    var r := Carried(existing, next);
    SameLocate(r, next, name, First);
    var i := Locate(next, name, First);
    SameLocate(r[i].body.versions, next[i].body.versions, version, Last);
    var j := Locate(next[i].body.versions, version, Last);
    assert r[i].body.versions[j] == CarriedVersion(StoredDates(existing), name, next[i].body.versions[j]);
  }

  lemma SameLocate<B>(s: seq<Entry<string, B>>, t: seq<Entry<string, B>>, k: string, p: Pick)
    requires |s| == |t| && forall i :: 0 <= i < |s| ==> s[i].key == t[i].key
    ensures Locate(s, k, p) == Locate(t, k, p)
  {
  }

  // ---------------------------------------------------------------- runs

  /** Base versions are distinct and slash-free, and so is everything the sources may bring. */
  ghost predicate WellFormedSpec<C>(lib: Library, spec: Spec<C>) {
    && WellFormed(spec.base.images)
    && forall i :: 0 <= i < |spec.updates| && spec.updates[i].fetched.Ok? ==>
         CleanVersionsValid(lib, spec.updates[i].updater, spec.updates[i].fetched.value)
  }

  lemma PreparedWellFormed<C>(lib: Library, defs: seq<CapabilityDefinition>, p: Profile<C>, update: Update<C>)
    requires lib.Lawful() && WellFormed(p.images) && update.fetched.Ok?
    requires CleanVersionsValid(lib, update.updater, update.fetched.value)
    ensures WellFormed(Prepared(lib, defs, p, update).images)
  {
    var u, srcs := update.updater, Sources(defs, update);
    var edit := ImageEdit(lib, u, srcs);
    var r := Put(p.images, edit, First);
    var i := Locate(p.images, u.imageName, First);
    forall src | src in srcs ensures WritesClean(u, src) ==> lib.Valid(src.cleanVersion) {
      var j :| 0 <= j < |srcs| && srcs[j] == src;
      assert update.fetched.value[j] in update.fetched.value;
    }
    MergedWellFormed(lib, u, if i == -1 then [] else p.images[i].body.versions, srcs);
    PutAllDistinct(p.images, [edit], First);
    assert PutAll(p.images, [edit], First) == PutAll(r, [edit][1..], First) == r;
  }

  lemma MergedWellFormed(lib: Library, u: Updater, base: seq<ImageVersion>, srcs: seq<SourceImage>)
    requires lib.Lawful() && WellFormedVersions(base) && CleanVersionsValid(lib, u, srcs)
    ensures WellFormedVersions(Merged(lib, u, base, srcs))
  {
    var r := Merged(lib, u, base, srcs);
    MergedVersionSet(lib, u, base, srcs);
    forall j | 0 <= j < |r| ensures '/' !in r[j].key {
      assert Keys(r)[j] in Keys(r);
      if r[j].key in Keys(base) {
        var k :| 0 <= k < |base| && Keys(base)[k] == r[j].key;
      }
    }
  }

  lemma {:induction false} PreparedAllWellFormed<C>(
      lib: Library, defs: seq<CapabilityDefinition>, p: Profile<C>, updates: seq<Update<C>>)
    requires lib.Lawful() && WellFormed(p.images)
    requires forall i :: 0 <= i < |updates| ==>
               updates[i].fetched.Ok? && CleanVersionsValid(lib, updates[i].updater, updates[i].fetched.value)
    ensures WellFormed(PreparedAll(lib, defs, p, updates).images)
    decreases |updates|
  {
    if updates != [] {
      PreparedWellFormed(lib, defs, p, updates[0]);
      PreparedAllWellFormed(lib, defs, Prepared(lib, defs, p, updates[0]), updates[1..]);
    }
  }

  /** Distinct, slash-free versions are an invariant of the stored profile. */
  lemma ReconciledWellFormed<C>(lib: Library, stored: Profile<C>, spec: Spec<C>)
    requires lib.Lawful() && WellFormed(stored.images) && WellFormedSpec(lib, spec) && Succeeds(lib, spec)
    ensures WellFormed(Reconciled(lib, stored, spec).images)
  {
    if !spec.paused {
      PreparedAllWellFormed(lib, spec.capabilities, spec.base, spec.updates);
    }
    CarriedKeys(stored.images, Target(lib, stored, spec).images);
  }

  /** A history of the stored profile: each attempt either applies its spec or leaves the profile
      alone. */
  ghost predicate History<C>(lib: Library, specs: seq<Spec<C>>, run: seq<Profile<C>>) {
    && |run| == |specs| + 1
    && forall i :: 0 <= i < |specs| ==>
         run[i + 1] == run[i] || (Succeeds(lib, specs[i]) && run[i + 1] == Reconciled(lib, run[i], specs[i]))
  }

  lemma {:induction false} HistoryWellFormed<C>(lib: Library, specs: seq<Spec<C>>, run: seq<Profile<C>>, i: nat)
    requires lib.Lawful() && History(lib, specs, run) && i < |run| && WellFormed(run[0].images)
    requires forall k :: 0 <= k < |specs| ==> WellFormedSpec(lib, specs[k])
    ensures WellFormed(run[i].images)
  {
    if i > 0 {
      HistoryWellFormed(lib, specs, run, i - 1);
      if run[i] != run[i - 1] {
        ReconciledWellFormed(lib, run[i - 1], specs[i - 1]);
      }
    }
  }

  /** Expiration dates are sticky over whole runs. Across any sequence of reconciles with arbitrary
      specs, sources, clocks, pauses and failures, once a version of an image has a date it keeps that
      date for as long as it stays present and deprecated and the last dated entry with its key string has
      its date. */
  lemma {:induction false} DatesAreSticky<C>(
    lib: Library, specs: seq<Spec<C>>, run: seq<Profile<C>>, i: nat, j: nat, name: string, version: string, date: Time)
    requires History(lib, specs, run)
    requires i <= j < |run| && DatedAt(run[i].images, name, version, date)
    requires forall k :: i < k <= j ==> DeprecatedAt(run[k].images, name, version)
    requires forall k :: i <= k < j ==> KeyHasDate(run[k].images, name, version, date)
    ensures DatedAt(run[j].images, name, version, date)
    decreases j
  {
    if i < j {
      DatesAreSticky(lib, specs, run, i, j - 1, name, version, date);
      assert DeprecatedAt(run[j].images, name, version) && KeyHasDate(run[j - 1].images, name, version, date);
      HistoryStep(lib, specs, run, j - 1);
      if run[j] != run[j - 1] {
        StickyStep(lib, run[j - 1], specs[j - 1], name, version, date);
      }
    }
  }

  lemma HistoryStep<C>(lib: Library, specs: seq<Spec<C>>, run: seq<Profile<C>>, i: nat)
    requires History(lib, specs, run) && i < |specs|
    ensures run[i + 1] == run[i] || (Succeeds(lib, specs[i]) && run[i + 1] == Reconciled(lib, run[i], specs[i]))
  {
  }

  lemma StickyStep<C>(lib: Library, stored: Profile<C>, spec: Spec<C>, name: string, version: string, date: Time)
    requires Succeeds(lib, spec) && DatedAt(stored.images, name, version, date)
    requires KeyHasDate(stored.images, name, version, date)
    requires DeprecatedAt(Reconciled(lib, stored, spec).images, name, version)
    ensures DatedAt(Reconciled(lib, stored, spec).images, name, version, date)
  {
    SticksExactly(stored.images, name, version, date);
    assert Sticks(stored.images, name, version, date);
    assert Reconciled(lib, stored, spec).images == Carried(stored.images, Target(lib, stored, spec).images);
  }

  /** In a well-formed profile the condition always holds. */
  lemma WellFormedSticks(images: seq<MachineImage>, name: string, version: string, date: Time)
    requires WellFormed(images) && DatedAt(images, name, version, date)
    ensures KeyHasDate(images, name, version, date)
  {
    var p := Locate(images, name, First);
    var q := Locate(images[p].body.versions, version, Last);
    forall i: nat, j: nat | LastDated(images, i, j, ExpirationDateKey(name, version))
      ensures images[i].body.versions[j].body.expirationDate == Some(date) {
      KeyedOnce(images, p, q, i, j);
    }
  }

  /** So with distinct, slash-free versions in every spec dates are sticky without a further condition. */
  lemma {:induction false} DatesAreStickyForSpecs<C>(
    lib: Library, specs: seq<Spec<C>>, run: seq<Profile<C>>, i: nat, j: nat, name: string, version: string, date: Time)
    requires lib.Lawful() && History(lib, specs, run) && WellFormed(run[0].images)
    requires forall k :: 0 <= k < |specs| ==> WellFormedSpec(lib, specs[k])
    requires i <= j < |run| && DatedAt(run[i].images, name, version, date)
    requires forall k :: i < k <= j ==> DeprecatedAt(run[k].images, name, version)
    ensures DatedAt(run[j].images, name, version, date)
    decreases j
  {
    if i < j {
      DatesAreStickyForSpecs(lib, specs, run, i, j - 1, name, version, date);
      HistoryWellFormed(lib, specs, run, j - 1);
      HistoryStep(lib, specs, run, j - 1);
      assert DeprecatedAt(run[j].images, name, version);
      if run[j] != run[j - 1] {
        WellFormedSticks(run[j - 1].images, name, version, date);
        StickyStep(lib, run[j - 1], specs[j - 1], name, version, date);
      }
    }
  }

  /** Without the distinctness of keys this fails: two versions that share a key take each other's
      date, so storing the same images again changes one. */
  lemma SharedKeyMovesDates(m: Time, n: Time)
    requires m != n
    ensures var old1 := BLANK.(classification := Some(DEPRECATED), expirationDate := Some(m));
            var old2 := BLANK.(classification := Some(DEPRECATED), expirationDate := Some(n));
            var images := [Entry("a/b", NEW_IMAGE.(versions := [Entry("c", old1)])),
                Entry("a", NEW_IMAGE.(versions := [Entry("b/c", old2)]))];
            VersionAt(Carried(images, images), "a/b", "c") == Some(old2) != VersionAt(images, "a/b", "c")
  {
    var old1 := BLANK.(classification := Some(DEPRECATED), expirationDate := Some(m));
    var old2 := BLANK.(classification := Some(DEPRECATED), expirationDate := Some(n));
    var x: MachineImage := Entry("a/b", NEW_IMAGE.(versions := [Entry("c", old1)]));
    var y: MachineImage := Entry("a", NEW_IMAGE.(versions := [Entry("b/c", old2)]));
    var images := [x, y];
    assert ExpirationDateKey("a/b", "c") == "a/b/c" == ExpirationDateKey("a", "b/c");
    assert images[..1] == [x] && [x][..0] == [];
    assert x.body.versions[..0] == [] && y.body.versions[..0] == [];
    assert StoredDates(images)["a/b/c"] == n;
    var r := Carried(images, images);
    assert r[0].key == "a/b" && Locate(r, "a/b", First) == 0;
    assert r[0].body.versions[0] == Entry("c", old2);
    assert Locate(r[0].body.versions, "c", Last) == 0;
  }

  // ---------------------------------------------------------------- pause

  /** Every deprecated entry has the date of the last dated entry with its key string, if there is one. */
  ghost predicate DatesAgree(images: seq<MachineImage>) {
    forall i: nat, j: nat, k: nat, l: nat :: CarriesInto(images, i, j, k, l) ==>
      images[i].body.versions[j].body.expirationDate == images[k].body.versions[l].body.expirationDate
  }

  /** Entry (i, j) is deprecated, and the last dated entry with its key string is (k, l). */
  ghost predicate CarriesInto(images: seq<MachineImage>, i: nat, j: nat, k: nat, l: nat) {
    && i < |images| && j < |images[i].body.versions| && images[i].body.versions[j].body.Deprecated()
    && LastDated(images, k, l, ExpirationDateKey(images[i].key, images[i].body.versions[j].key))
  }

  /** Carrying the dates of images over to themselves changes nothing exactly when they agree. */
  lemma CarriedToSelfExactly(images: seq<MachineImage>)
    ensures Carried(images, images) == images <==> DatesAgree(images)
  {
    var r := Carried(images, images);
    if DatesAgree(images) {
      forall i | 0 <= i < |images| ensures r[i] == images[i] {
        forall j | 0 <= j < |images[i].body.versions| ensures r[i].body.versions[j] == images[i].body.versions[j] {
          var k, l := LastStored(images, ExpirationDateKey(images[i].key, images[i].body.versions[j].key));
          if k != -1 && images[i].body.versions[j].body.Deprecated() {
            assert CarriesInto(images, i, j, k, l);
          }
        }
        assert r[i].body.versions == images[i].body.versions;
      }
    } else {
      var i: nat, j: nat, k: nat, l: nat :| CarriesInto(images, i, j, k, l) &&
        images[i].body.versions[j].body.expirationDate != images[k].body.versions[l].body.expirationDate;
      CarriedDiffers(images, i, j, k, l);
    }
  }

  lemma CarriedDiffers(images: seq<MachineImage>, i: nat, j: nat, k: nat, l: nat)
    requires CarriesInto(images, i, j, k, l)
    requires images[i].body.versions[j].body.expirationDate != images[k].body.versions[l].body.expirationDate
    ensures Carried(images, images) != images
  {
    var key := ExpirationDateKey(images[i].key, images[i].body.versions[j].key);
    var p, q := LastStored(images, key);
    assert Dated(images, k, l, key);
    assert p == k && q == l;
    assert Carried(images, images)[i].body.versions[j].body.expirationDate ==
             images[k].body.versions[l].body.expirationDate;
  }

  lemma WellFormedAgrees(images: seq<MachineImage>)
    requires WellFormed(images)
    ensures DatesAgree(images)
  {
    forall i: nat, j: nat, k: nat, l: nat | CarriesInto(images, i, j, k, l)
      ensures images[i].body.versions[j].body.expirationDate == images[k].body.versions[l].body.expirationDate {
      KeyedOnce(images, i, j, k, l);
    }
  }

  /** A paused reconcile leaves stored images and provider configuration as they are exactly when the stored
      dates agree, which distinct, slash-free versions ensure; it stores the base when no images are stored
      yet. */
  lemma PauseFreezesExactly<C>(lib: Library, stored: Profile<C>, spec: Spec<C>)
    requires spec.paused
    ensures stored.images != [] ==> (Reconciled(lib, stored, spec) == stored <==> DatesAgree(stored.images))
    ensures stored.images == [] ==> Reconciled(lib, stored, spec) == spec.base
    ensures WellFormed(stored.images) ==> DatesAgree(stored.images)
  {
    CarriedToSelfExactly(stored.images);
    if stored.images == [] {
      NothingCarried(spec.base.images);
    }
    if WellFormed(stored.images) {
      WellFormedAgrees(stored.images);
    }
  }

  lemma NothingCarried(images: seq<MachineImage>)
    ensures Carried([], images) == images
  {
    forall i | 0 <= i < |images| ensures Carried([], images)[i] == images[i] {
      assert CarriedVersions(map[], images[i].key, images[i].body.versions) == images[i].body.versions;
    }
  }

  // ---------------------------------------------------------------- independence of updates

  function Names<C>(updates: seq<Update<C>>): (names: seq<string>)
    ensures |names| == |updates| && forall i :: 0 <= i < |updates| ==> names[i] == updates[i].updater.imageName
  {
    seq(|updates|, i requires 0 <= i < |updates| => updates[i].updater.imageName)
  }

  function ImageEdits<C>(
      lib: Library, defs: seq<CapabilityDefinition>, updates: seq<Update<C>>): (edits: seq<Write<string, ImageFields>>)
    requires forall i :: 0 <= i < |updates| ==> updates[i].fetched.Ok?
    ensures |edits| == |updates|
    ensures forall i :: 0 <= i < |updates| ==> edits[i] == ImageEdit(lib, updates[i].updater, Sources(defs, updates[i]))
  {
    seq(|updates|, i requires 0 <= i < |updates| => ImageEdit(lib, updates[i].updater, Sources(defs, updates[i])))
  }

  lemma {:induction false} ChainIsPutAll<C>(
      lib: Library, defs: seq<CapabilityDefinition>, p: Profile<C>, updates: seq<Update<C>>)
    requires forall i :: 0 <= i < |updates| ==> updates[i].fetched.Ok?
    ensures PreparedAll(lib, defs, p, updates).images == PutAll(p.images, ImageEdits(lib, defs, updates), First)
    decreases |updates|
  {
    if updates != [] {
      ChainIsPutAll(lib, defs, Prepared(lib, defs, p, updates[0]), updates[1..]);
      assert ImageEdits(lib, defs, updates)[1..] == ImageEdits(lib, defs, updates[1..]);
    }
  }

  /** Updates of pairwise distinct images are independent: after the whole chain the image of each
      update is what its update alone makes of the base. */
  lemma UpdatesAreIndependent<C>(
      lib: Library, defs: seq<CapabilityDefinition>, p: Profile<C>, updates: seq<Update<C>>, i: nat)
    requires Distinct(Names(updates)) && forall j :: 0 <= j < |updates| ==> updates[j].fetched.Ok?
    requires i < |updates|
    ensures var name := updates[i].updater.imageName;
            Find(PreparedAll(lib, defs, p, updates).images, name, First) ==
                Find(Prepared(lib, defs, p, updates[i]).images, name, First)
  {
    var edits := ImageEdits(lib, defs, updates);
    ChainIsPutAll(lib, defs, p, updates);
    assert Targets(edits) == Names(updates);
    IndependentWrite(p.images, edits, First, i);
  }

  /** Images that no update names are unchanged. */
  lemma UnnamedImagesUnchanged<C>(lib: Library, defs: seq<CapabilityDefinition>, p: Profile<C>, updates: seq<Update<C>>)
    requires forall j :: 0 <= j < |updates| ==> updates[j].fetched.Ok?
    ensures var r := PreparedAll(lib, defs, p, updates).images;
            && (forall name :: name !in Names(updates) ==> Find(r, name, First) == Find(p.images, name, First))
            && |p.images| <= |r|
            && (forall j :: 0 <= j < |p.images| && p.images[j].key !in Names(updates) ==> r[j] == p.images[j])
  {
    var edits := ImageEdits(lib, defs, updates);
    ChainIsPutAll(lib, defs, p, updates);
    assert Targets(edits) == Names(updates);
    UntouchedKeys(p.images, edits, First);
  }
}
