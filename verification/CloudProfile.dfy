/** The reconcile step: the chain of machine image updates, the pause branch, the carry-over of
    expiration dates, and the stored profile they act on. */
module CloudProfile {
  import opened Prelude
  import opened Keyed
  import opened Images
  import opened Semver
  import opened CapabilitySets
  import opened ImageMerge

  // ---------------------------------------------------------------- carrying expiration dates

  function ExpirationDateKey(imageName: string, version: string): string {
    imageName + "/" + version
  }

  /** The dated versions of one image, added to the dates by key; a later one replaces an earlier one. */
  function Noted(m: map<string, Time>, name: string, versions: seq<ImageVersion>): map<string, Time> {
    if versions == [] then m
    else
      var before, v := Noted(m, name, versions[..|versions| - 1]), versions[|versions| - 1];
      if v.body.expirationDate.None? then before
      else before[ExpirationDateKey(name, v.key) := v.body.expirationDate.value]
  }

  function StoredDates(images: seq<MachineImage>): map<string, Time> {
    if images == [] then map[]
    else
      var img := images[|images| - 1];
      Noted(StoredDates(images[..|images| - 1]), img.key, img.body.versions)
  }

  function CarriedVersion(stored: map<string, Time>, name: string, v: ImageVersion): ImageVersion {
    var key := ExpirationDateKey(name, v.key);
    if v.body.Deprecated() && key in stored then v.(body := v.body.(expirationDate := Some(stored[key]))) else v
  }

  function CarriedVersions(stored: map<string, Time>, name: string, versions: seq<ImageVersion>): (r: seq<ImageVersion>)
    ensures |r| == |versions| && forall j :: 0 <= j < |r| ==> r[j] == CarriedVersion(stored, name, versions[j])
  {
    seq(|versions|, j requires 0 <= j < |versions| => CarriedVersion(stored, name, versions[j]))
  }

  function CarriedImage(stored: map<string, Time>, img: MachineImage): MachineImage {
    img.(body := img.body.(versions := CarriedVersions(stored, img.key, img.body.versions)))
  }

  /** `next` with the dates of `existing` on its deprecated versions. */
  function Carried(existing: seq<MachineImage>, next: seq<MachineImage>): (r: seq<MachineImage>)
    ensures |r| == |next| && forall i :: 0 <= i < |r| ==> r[i] == CarriedImage(StoredDates(existing), next[i])
  {
    seq(|next|, i requires 0 <= i < |next| => CarriedImage(StoredDates(existing), next[i]))
  }

  method CarryExpirationDates(existing: seq<MachineImage>, next: seq<MachineImage>) returns (r: seq<MachineImage>)
    ensures r == Carried(existing, next)
  {
    var stored: map<string, Time> := map[];
    for i := 0 to |existing|
      invariant stored == StoredDates(existing[..i])
    {
      assert existing[..i + 1][..i] == existing[..i];
      var img := existing[i];
      ghost var before := stored;
      for j := 0 to |img.body.versions|
        invariant stored == Noted(before, img.key, img.body.versions[..j])
      {
        var v := img.body.versions[j];
        assert img.body.versions[..j + 1][..j] == img.body.versions[..j];
        if v.body.expirationDate.Some? {
          stored := stored[ExpirationDateKey(img.key, v.key) := v.body.expirationDate.value];
        }
      }
      assert img.body.versions[..|img.body.versions|] == img.body.versions;
    }
    assert existing[..|existing|] == existing;
    r := next;
    for i := 0 to |next|
      invariant |r| == |next|
      invariant forall k :: 0 <= k < i ==> r[k] == CarriedImage(stored, next[k])
      invariant forall k :: i <= k < |next| ==> r[k] == next[k]
    {
      var versions := CarryInto(stored, r[i].key, r[i].body.versions);
      r := r[i := r[i].(body := r[i].body.(versions := versions))];
    }
  }

  /** The inner loop: the versions of one image. */
  method CarryInto(stored: map<string, Time>, name: string, versions: seq<ImageVersion>) returns (r: seq<ImageVersion>)
    ensures r == CarriedVersions(stored, name, versions)
  {
    r := versions;
    for j := 0 to |r|
      invariant |r| == |versions|
      invariant forall k :: 0 <= k < j ==> r[k] == CarriedVersion(stored, name, versions[k])
      invariant forall k :: j <= k < |r| ==> r[k] == versions[k]
    {
      var v := r[j];
      var isDeprecated := v.body.classification.Some? && v.body.classification.value == DEPRECATED;
      if !isDeprecated {
        continue;
      }
      var key := ExpirationDateKey(name, v.key);
      if key in stored {
        r := r[j := v.(body := v.body.(expirationDate := Some(stored[key])))];
      }
    }
  }

  // ---------------------------------------------------------------- the update chain

  datatype Profile<C> = Profile(images: seq<MachineImage>, config: Option<C>)

  /** One configured update: the outcome of selecting its source and provider, what the source came back
      with, and whether the provider can read and write the configuration. */
  datatype Update<!C> = Update(
    updater: Updater, provider: Provider<C>, fetched: Result<seq<SourceImage>, string>,
    selected: Result<(), string> := Ok(()), configured: Result<(), string> := Ok(()))

  /** The parts of a managed profile that decide its machine images. */
  datatype Spec<!C> = Spec(
    base: Profile<C>, capabilities: seq<CapabilityDefinition>, paused: bool, updates: seq<Update<C>>)

  predicate Runs<C>(lib: Library, update: Update<C>) {
    && (update.updater.minVersionForUpdate.Some? ==> lib.Valid(update.updater.minVersionForUpdate.value))
    && update.selected.Ok? && update.fetched.Ok? && update.configured.Ok?
  }

  function Sources<C>(defs: seq<CapabilityDefinition>, update: Update<C>): seq<SourceImage>
    requires update.fetched.Ok?
  {
    FilteredSources(update.fetched.value, Declared(defs))
  }

  /** The profile after one update. */
  function Prepared<C>(lib: Library, defs: seq<CapabilityDefinition>, p: Profile<C>, update: Update<C>): Profile<C>
    requires update.fetched.Ok?
  {
    var srcs := Sources(defs, update);
    Profile(Put(p.images, ImageEdit(lib, update.updater, srcs), First), Some(update.provider(p.config, srcs)))
  }

  function PreparedAll<C>(
      lib: Library, defs: seq<CapabilityDefinition>, p: Profile<C>, updates: seq<Update<C>>): Profile<C>
    requires forall i :: 0 <= i < |updates| ==> updates[i].fetched.Ok?
    decreases |updates|
  {
    if updates == [] then p else PreparedAll(lib, defs, Prepared(lib, defs, p, updates[0]), updates[1..])
  }

  method PrepareMachineImageUpdate<C>(lib: Library, defs: seq<CapabilityDefinition>, p: Profile<C>, update: Update<C>)
    returns (r: Result<Profile<C>, string>)
    ensures r.Ok? <==>
              && (update.updater.minVersionForUpdate.Some? ==>
                    lib.parse(update.updater.minVersionForUpdate.value).Some?)
              && update.selected.Ok? && update.fetched.Ok? && update.configured.Ok?
    ensures r.Ok? ==> r.value == Prepared(lib, defs, p, update)
  {
    if update.updater.minVersionForUpdate.Some? && lib.parse(update.updater.minVersionForUpdate.value).None? {
      return Err("minVersionForUpdate is not valid semver");
    }
    if update.selected.Err? {
      return Err(update.selected.error);
    }
    if update.fetched.Err? {
      return Err(update.fetched.error);
    }
    var images, config := Apply(lib, update.updater, Some(update.provider), defs, p.images, p.config,
        update.fetched.value);
    if update.configured.Err? {
      return Err(update.configured.error);
    }
    return Ok(Profile(images, config));
  }

  // ---------------------------------------------------------------- reconcile

  predicate Succeeds<C>(lib: Library, spec: Spec<C>) {
    spec.paused || forall i :: 0 <= i < |spec.updates| ==> Runs(lib, spec.updates[i])
  }

  /** What is to be stored before dates are carried over: the updated base, or when paused what is
      stored already, or the base when nothing is. */
  function Target<C>(lib: Library, stored: Profile<C>, spec: Spec<C>): Profile<C>
    requires Succeeds(lib, spec)
  {
    if !spec.paused then PreparedAll(lib, spec.capabilities, spec.base, spec.updates)
    else if stored.images == [] then spec.base
    else stored
  }

  function Reconciled<C>(lib: Library, stored: Profile<C>, spec: Spec<C>): Profile<C>
    requires Succeeds(lib, spec)
  {
    var target := Target(lib, stored, spec);
    target.(images := Carried(stored.images, target.images))
  }

  /** The stored cloud profile. */
  class ProfileStore<!C> {
    var images: seq<MachineImage>
    var config: Option<C>

    function Contents(): Profile<C>
      reads this
    {
      Profile(images, config)
    }

    constructor ()
      ensures Contents() == Profile([], None)
    {
      images, config := [], None;
    }

    /** `kubernetes` is the outcome of the Kubernetes version update if one is configured, `listing` that of
        listing the shoots, and `accepted` the API server's answer to the patch. The shoots are listed for
        garbage collection, unless paused, and for a Kubernetes update. A failure of any part leaves the
        stored profile as it was. */
    method Reconcile(
      lib: Library, spec: Spec<C>, collects: bool, listing: Result<(), string>,
      kubernetes: Option<Result<(), string>>, accepted: bool)
      returns (applied: bool)
      modifies this
      ensures applied <==>
                && (((collects && !spec.paused) || kubernetes.Some?) ==> listing.Ok?)
                && Succeeds(lib, spec)
                && (spec.paused || forall i :: 0 <= i < |spec.updates| ==>
                      var update := spec.updates[i];
                      && update.selected.Ok? && update.fetched.Ok? && update.configured.Ok?
                      && (update.updater.minVersionForUpdate.Some? ==>
                            lib.parse(update.updater.minVersionForUpdate.value).Some?))
                && (kubernetes.Some? ==> kubernetes.value.Ok?)
                && accepted
      ensures Contents() == if applied then Reconciled(lib, old(Contents()), spec) else old(Contents())
    {
      var needShootsForGC := collects && !spec.paused;
      var needShoots := needShootsForGC || kubernetes.Some?;
      if needShoots && listing.Err? {
        return false;
      }
      var imgs: seq<MachineImage>, providerConfig: Option<C> := [], None;
      if !spec.paused {
        imgs, providerConfig := spec.base.images, spec.base.config;
        for i := 0 to |spec.updates|
          invariant Contents() == old(Contents())
          invariant forall j :: 0 <= j < i ==> Runs(lib, spec.updates[j])
          invariant Succeeds(lib, spec) ==>
                      PreparedAll(lib, spec.capabilities, Profile(imgs, providerConfig), spec.updates[i..]) ==
                      PreparedAll(lib, spec.capabilities, spec.base, spec.updates)
        {
          assert spec.updates[i..][1..] == spec.updates[i + 1..];
          var next := PrepareMachineImageUpdate(lib, spec.capabilities, Profile(imgs, providerConfig), spec.updates[i]);
          if next.Err? {
            return false;
          }
          imgs, providerConfig := next.value.images, next.value.config;
        }
      }
      if kubernetes.Some? && kubernetes.value.Err? {
        return false;
      }
      if spec.paused {
        if |images| == 0 {
          imgs, providerConfig := spec.base.images, spec.base.config;
        } else {
          imgs, providerConfig := images, config;
        }
      }
      var carried := CarryExpirationDates(images, imgs);
      if !accepted {
        return false;
      }
      images, config := carried, providerConfig;
      return true;
    }
  }
}
