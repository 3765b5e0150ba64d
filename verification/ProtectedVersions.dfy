/** Garbage collection seen from the stored profile. */
module ProtectedVersions {
  import opened Keyed
  import opened Images
  import opened Semver
  import opened CapabilitySets
  import opened ImageUpdater
  import opened ImageMerge
  import opened MergeTheorems
  import opened GarbageCollection
  import opened CloudProfile
  import opened CloudProfileTheorems

  lemma CarriedVersionAt(existing: seq<MachineImage>, next: seq<MachineImage>, name: string, version: string)
    ensures VersionAt(Carried(existing, next), name, version).Some? <==> VersionAt(next, name, version).Some?
  {
    var r := Carried(existing, next);
    SameLocate(r, next, name, First);
    var i := Locate(next, name, First);
    if i != -1 {
      SameLocate(r[i].body.versions, next[i].body.versions, version, Last);
    }
  }

  /** An update only adds versions. */
  lemma PreparedKeeps<C>(
      lib: Library, defs: seq<CapabilityDefinition>, p: Profile<C>, update: Update<C>, name: string, version: string)
    requires update.fetched.Ok? && VersionAt(p.images, name, version).Some?
    ensures VersionAt(Prepared(lib, defs, p, update).images, name, version).Some?
  {
    var u, srcs := update.updater, Sources(defs, update);
    PutFind(p.images, ImageEdit(lib, u, srcs), First, name);
    if name == u.imageName {
      var versions := Find(p.images, name, First).value.versions;
      MergedVersionSet(lib, u, versions, srcs);
      FindPresence(versions, version, Last);
      FindPresence(Merged(lib, u, versions, srcs), version, Last);
    }
  }

  /** A version that is there when the chain starts, or once its first updates have run, is there in the
      end. */
  lemma {:induction false} ChainKeeps<C>(
    lib: Library, defs: seq<CapabilityDefinition>, p: Profile<C>, updates: seq<Update<C>>, name: string,
    version: string)
    requires forall i :: 0 <= i < |updates| ==> updates[i].fetched.Ok?
    requires VersionAt(p.images, name, version).Some?
    ensures VersionAt(PreparedAll(lib, defs, p, updates).images, name, version).Some?
    decreases |updates|
  {
    if updates != [] {
      PreparedKeeps(lib, defs, p, updates[0], name, version);
      ChainKeeps(lib, defs, Prepared(lib, defs, p, updates[0]), updates[1..], name, version);
    }
  }

  lemma {:induction false} ChainSplit<C>(
    lib: Library, defs: seq<CapabilityDefinition>, p: Profile<C>, updates: seq<Update<C>>, i: nat)
    requires i < |updates| && forall j :: 0 <= j < |updates| ==> updates[j].fetched.Ok?
    ensures PreparedAll(lib, defs, p, updates) ==
            PreparedAll(lib, defs, Prepared(lib, defs, PreparedAll(lib, defs, p, updates[..i]), updates[i]),
                updates[i + 1..])
    decreases i
  {
    if i == 0 {
      assert updates[..0] == [];
    } else {
      ChainSplit(lib, defs, Prepared(lib, defs, p, updates[0]), updates[1..], i - 1);
      assert updates[1..][..i - 1] == updates[..i][1..] && updates[1..][i..] == updates[i + 1..];
    }
  }

  /** The versions an image must have after one update with garbage collection. */
  lemma InUseAfterUpdate<C>(
    lib: Library, defs: seq<CapabilityDefinition>, p: Profile<C>, update: Update<C>, f: Filter, shoots: seq<Shoot>,
    profile: string,
    v: string, reported: seq<SourceImage>, img: SourceImage)
    requires update.fetched.Ok? && FetchResult(lib, reported, x => f.Keep(x), update.fetched.value)
    requires Protects(f, shoots, profile, update.updater.imageName)
    requires InUse(shoots, profile, update.updater.imageName, v)
    requires img in ValidatedAll(lib, reported)
    requires NormalizeTag(v) == img.version || (img.cleanVersion != "" && NormalizeTag(v) == img.cleanVersion)
    ensures var r, u := Prepared(lib, defs, p, update).images, update.updater;
            && (lib.Valid(img.version) ==> VersionAt(r, u.imageName, img.version).Some?)
            && (u.enableCapabilities && img.cleanVersion != "" ==> VersionAt(r, u.imageName, img.cleanVersion).Some?)
  {
    var u, srcs := update.updater, Sources(defs, update);
    var at := Find(p.images, u.imageName, First);
    var versions := if at.Some? then at.value.versions else [];
    PutFind(p.images, ImageEdit(lib, u, srcs), First, u.imageName);
    VersionsInUseSurvive(lib, u, f, shoots, profile, v, reported, update.fetched.value, img, Declared(defs), versions);
    FindPresence(Merged(lib, u, versions, srcs), img.version, Last);
    FindPresence(Merged(lib, u, versions, srcs), img.cleanVersion, Last);
  }

  /** A version that is there after some update of the chain is there in the stored profile. */
  lemma StaysStored<C>(lib: Library, stored: Profile<C>, spec: Spec<C>, i: nat, name: string, version: string)
    requires Succeeds(lib, spec) && !spec.paused && i < |spec.updates|
    ensures var before := PreparedAll(lib, spec.capabilities, spec.base, spec.updates[..i]);
            VersionAt(Prepared(lib, spec.capabilities, before, spec.updates[i]).images, name, version).Some? ==>
              VersionAt(Reconciled(lib, stored, spec).images, name, version).Some?
  {
    var before := PreparedAll(lib, spec.capabilities, spec.base, spec.updates[..i]);
    var after := Prepared(lib, spec.capabilities, before, spec.updates[i]);
    if VersionAt(after.images, name, version).Some? {
      ChainSplit(lib, spec.capabilities, spec.base, spec.updates, i);
      ChainKeeps(lib, spec.capabilities, after, spec.updates[i + 1..], name, version);
      CarriedVersionAt(stored.images, Target(lib, stored, spec).images, name, version);
    }
  }

  /** A version some worker pool uses stays in the stored profile. When a reconcile with garbage
      collection applies, every reported image whose tag or clean version is the normalised version in
      use has entries in the stored profile afterwards: its tag, if valid, and its clean version, if
      capabilities are enabled. */
  lemma VersionsInUseStayStored<C>(
    lib: Library, stored: Profile<C>, spec: Spec<C>, i: nat, f: Filter, shoots: seq<Shoot>, profile: string, v: string,
    reported: seq<SourceImage>, img: SourceImage)
    requires Succeeds(lib, spec) && !spec.paused && i < |spec.updates|
    requires Protects(f, shoots, profile, spec.updates[i].updater.imageName)
    requires InUse(shoots, profile, spec.updates[i].updater.imageName, v)
    requires FetchResult(lib, reported, x => f.Keep(x), spec.updates[i].fetched.value)
    requires img in ValidatedAll(lib, reported)
    requires NormalizeTag(v) == img.version || (img.cleanVersion != "" && NormalizeTag(v) == img.cleanVersion)
    ensures var r, u := Reconciled(lib, stored, spec).images, spec.updates[i].updater;
            && (lib.Valid(img.version) ==> VersionAt(r, u.imageName, img.version).Some?)
            && (u.enableCapabilities && img.cleanVersion != "" ==> VersionAt(r, u.imageName, img.cleanVersion).Some?)
  {
    InUseAfterUpdate(lib, spec.capabilities, PreparedAll(lib, spec.capabilities, spec.base, spec.updates[..i]),
                     spec.updates[i], f, shoots, profile, v, reported, img);
    StaysStored(lib, stored, spec, i, spec.updates[i].updater.imageName, img.version);
    StaysStored(lib, stored, spec, i, spec.updates[i].updater.imageName, img.cleanVersion);
  }
}
