/** Which versions a second reconcile drops because the cutoff of the collection has moved. */
module DroppedVersions {
  import opened Prelude
  import opened Images
  import opened Semver
  import opened CapabilitySets
  import opened ImageMerge
  import opened MergeTheorems
  import opened GarbageCollection
  import opened GlanceTheorems
  import opened GlanceEndToEnd
  import opened AlikeSources
  import opened OciCollection
  import opened CloudProfile
  import opened CloudProfileTheorems
  import opened ProtectedVersions
  import opened SteadyState
  import opened EndToEnd

  /** The merge of `img` writes to version `k`. */
  predicate WritesTo(u: Updater, img: SourceImage, k: string) {
    img.version == k || (u.enableCapabilities && img.cleanVersion == k && k != "")
  }

  /** The cutoff passes the push time of `img` between the two reconciles. */
  predicate Lost(h: Holdings, img: SourceImage) {
    h.Tagged? && h.collection.Some? && Ages(h.collection.value, h.laterCutoff, img)
  }

  /** Ties leave the Glance window no choice; an OCI repository may lose images. */
  ghost predicate Undisturbed(lib: Library, h: Holdings) {
    h.Regions? ==> WindowDecided(h.g, lib, h.grid)
  }

  /** Update `i` is about image `name` and has fetched `img`, which it writes to version `k`. */
  ghost predicate Brings<C>(updates: seq<Update<C>>, i: nat, img: SourceImage, name: string, k: string) {
    && i < |updates| && updates[i].fetched.Ok? && updates[i].updater.imageName == name
    && img in updates[i].fetched.value && WritesTo(updates[i].updater, img, k)
  }

  // ---------------------------------------------------------------- hits

  lemma HitsExactly(
      u: Updater, fetched: seq<SourceImage>, allowed: map<string, set<string>>, k: string)
    ensures Hits(u, FilteredSources(fetched, allowed), k) != [] <==>
              exists img :: img in fetched && WritesTo(u, img, k)
  {
    var srcs := FilteredSources(fetched, allowed);
    var hits := Hits(u, srcs, k);
    if hits != [] {
      assert hits[0] in hits;
      FilteredFrom(fetched, allowed, hits[0].src);
    }
    if img :| img in fetched && WritesTo(u, img, k) {
      var i :| 0 <= i < |fetched| && fetched[i] == img;
      if img.version == k {
        LegacyHitThere(u, srcs, i);
      } else {
        CleanHitThere(u, srcs, i);
      }
    }
  }

  lemma BringsFirst<C>(updates: seq<Update<C>>, name: string, k: string)
    requires updates != []
    ensures (exists i: nat, img :: Brings(updates, i, img, name, k)) <==>
              || (exists img :: Brings(updates, 0, img, name, k))
              || exists i: nat, img :: Brings(updates[1..], i, img, name, k)
  {
    if i: nat, img :| Brings(updates[1..], i, img, name, k) {
      assert Brings(updates, i + 1, img, name, k);
    }
    if i: nat, img :| Brings(updates, i, img, name, k) {
      assert i > 0 ==> Brings(updates[1..], i - 1, img, name, k);
    }
  }

  lemma OwnHitsExactly<C>(defs: seq<CapabilityDefinition>, updates: seq<Update<C>>, name: string, k: string)
    requires updates != [] && updates[0].fetched.Ok?
    ensures OwnHits(defs, updates[0], name, k) != [] <==> exists img :: Brings(updates, 0, img, name, k)
  {
    HitsExactly(updates[0].updater, updates[0].fetched.value, Declared(defs), k);
    if img :| img in updates[0].fetched.value && WritesTo(updates[0].updater, img, k) {
      assert updates[0].updater.imageName == name ==> Brings(updates, 0, img, name, k);
    }
  }

  lemma {:induction false} ChainHitsExactly<C>(
      defs: seq<CapabilityDefinition>, updates: seq<Update<C>>, name: string, k: string)
    requires forall i :: 0 <= i < |updates| ==> updates[i].fetched.Ok?
    ensures ChainHits(defs, updates, name, k) != [] <==> exists i: nat, img :: Brings(updates, i, img, name, k)
    decreases |updates|
  {
    if updates != [] {
      ChainHitsExactly(defs, updates[1..], name, k);
      OwnHitsExactly(defs, updates, name, k);
      BringsFirst(updates, name, k);
    }
  }

  // ---------------------------------------------------------------- what the second fetch still brings

  lemma LaterBrings(lib: Library, h: Holdings, u: Updater, a: seq<SourceImage>, b: seq<SourceImage>, k: string)
    requires lib.Lawful() && FetchedTwice(lib, h, a, b) && Undisturbed(lib, h)
    ensures (exists img :: img in b && WritesTo(u, img, k)) <==>
              exists img :: img in a && WritesTo(u, img, k) && !Lost(h, img)
  {
    match h
    case Regions(g, grid, now, later) =>
      FetchedAlike(g, lib, grid, now, a, later, b);
      AlikeBring(u, a, b, k);
    case Tagged(o, repo, collection, laterCutoff) =>
      if collection.Some? {
        FetchWithoutAged(lib, o, repo, collection.value, laterCutoff, a, b);
      } else {
        FetchFixedWithoutCollection(lib, o, repo, a, b);
      }
  }

  lemma AlikeBring(u: Updater, a: seq<SourceImage>, b: seq<SourceImage>, k: string)
    requires AllAlike(a, b)
    ensures (exists img :: img in b && WritesTo(u, img, k)) <==> exists img :: img in a && WritesTo(u, img, k)
  {
    if img :| img in b && WritesTo(u, img, k) {
      var i :| 0 <= i < |b| && b[i] == img;
      assert Alike(a[i], b[i]) && a[i] in a;
    }
    if img :| img in a && WritesTo(u, img, k) {
      var i :| 0 <= i < |a| && a[i] == img;
      assert Alike(a[i], b[i]) && b[i] in b;
    }
  }

  /** Some image brings the version at the second time exactly when one that does at the first is not lost. */
  lemma StillBrought<C>(
      lib: Library, s: Spec<C>, t: Spec<C>, holdings: seq<Holdings>, name: string, k: string)
    requires lib.Lawful() && HeldSpec(lib, s, t, holdings)
    requires forall i :: 0 <= i < |holdings| ==> Undisturbed(lib, holdings[i])
    ensures (exists i: nat, img :: Brings(t.updates, i, img, name, k)) <==>
              exists i: nat, img :: Brings(s.updates, i, img, name, k) && !Lost(holdings[i], img)
  {
    forall i: nat | i < |holdings| && s.updates[i].updater.imageName == name
      ensures (exists img :: Brings(t.updates, i, img, name, k)) <==>
                exists img :: Brings(s.updates, i, img, name, k) && !Lost(holdings[i], img) {
      var a, b := s.updates[i].fetched.value, t.updates[i].fetched.value;
      LaterBrings(lib, holdings[i], s.updates[i].updater, a, b, k);
      if img :| img in b && WritesTo(s.updates[i].updater, img, k) {
        assert Brings(t.updates, i, img, name, k);
      }
      if img :| img in a && WritesTo(s.updates[i].updater, img, k) && !Lost(holdings[i], img) {
        assert Brings(s.updates, i, img, name, k);
      }
    }
    if i: nat, img :| Brings(t.updates, i, img, name, k) {
      var other :| Brings(s.updates, i, other, name, k) && !Lost(holdings[i], other);
    }
    if i: nat, img :| Brings(s.updates, i, img, name, k) && !Lost(holdings[i], img) {
      var other :| Brings(t.updates, i, other, name, k);
    }
  }

  // ---------------------------------------------------------------- the stored profile

  /** A version is stored exactly when the base has it, or it is valid and some image brings it. */
  lemma StoredExactly<C>(lib: Library, stored: Profile<C>, s: Spec<C>, name: string, k: string)
    requires Succeeds(lib, s) && !s.paused
    requires forall i :: 0 <= i < |s.updates| ==>
               CleanVersionsValid(lib, s.updates[i].updater, s.updates[i].fetched.value)
    ensures VersionAt(Reconciled(lib, stored, s).images, name, k).Some? <==>
              || VersionAt(s.base.images, name, k).Some?
              || (lib.Valid(k) && exists i: nat, img :: Brings(s.updates, i, img, name, k))
  {
    ChainEntry(lib, s.capabilities, s.base, s.updates, name, k);
    ChainHitsExactly(s.capabilities, s.updates, name, k);
    CarriedVersionAt(stored.images, Target(lib, stored, s).images, name, k);
  }

  /** Exactly which versions are in the stored profile after a reconcile and gone after the next, with the spec,
      the repositories, the versions in use and the regions unchanged: those that are valid, not in the base,
      and brought by some image, of which every one passes the cutoff in between. None is added. */
  lemma DroppedExactly<C>(
      lib: Library, stored: Profile<C>, s: Spec<C>, t: Spec<C>, holdings: seq<Holdings>, name: string, k: string)
    requires lib.Lawful() && HeldSpec(lib, s, t, holdings)
    requires forall i :: 0 <= i < |holdings| ==> Undisturbed(lib, holdings[i])
    ensures Succeeds(lib, t)
    ensures var first := Reconciled(lib, stored, s);
            var before, after := VersionAt(first.images, name, k), VersionAt(Reconciled(lib, first, t).images, name, k);
            && (before.Some? && after.None? <==>
                  && VersionAt(s.base.images, name, k).None? && lib.Valid(k)
                  && (exists i: nat, img :: Brings(s.updates, i, img, name, k))
                  && forall i: nat, img :: Brings(s.updates, i, img, name, k) ==> Lost(holdings[i], img))
            && (after.Some? ==> before.Some?)
  {
    forall i | 0 <= i < |s.updates|
      ensures Runs(lib, t.updates[i])
      ensures CleanVersionsValid(lib, s.updates[i].updater, s.updates[i].fetched.value)
      ensures CleanVersionsValid(lib, t.updates[i].updater, t.updates[i].fetched.value) {
      assert Runs(lib, s.updates[i]);
      FetchedCleanly(lib, holdings[i], s.updates[i].updater, s.updates[i].fetched.value, t.updates[i].fetched.value);
    }
    StoredExactly(lib, stored, s, name, k);
    StoredExactly(lib, Reconciled(lib, stored, s), t, name, k);
    StillBrought(lib, s, t, holdings, name, k);
  }
}
