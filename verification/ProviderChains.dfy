/** The provider configuration along the update chain, for updates of one provider kind. */
module ProviderChains {
  import opened Prelude
  import opened Keyed
  import opened Images
  import opened CapabilitySets
  import opened Semver
  import opened ImageUpdater
  import opened ImageMerge
  import opened MergeTheorems
  import opened CloudProfile
  import opened CloudProfileTheorems
  import opened AlikeSources
  import OpenStackProvider
  import OpenStackTheorems
  import ConfigTheorems
  import IroncoreProvider

  type OpenStackConfig = OpenStackProvider.CloudProfileConfig
  type MetalConfig = IroncoreProvider.MetalConfig

  // ---------------------------------------------------------------- one image per update

  /** Each update's provider edits just the list of images `imagesOf` reads off the configuration, by
      one upsert of the update's image. */
  ghost predicate EditsImages<C(!new), V(!new)>(
    defs: seq<CapabilityDefinition>, updates: seq<Update<C>>, imagesOf: Option<C> -> seq<Entry<string, V>>,
    edits: seq<Write<string, V>>) {
    && |edits| == |updates|
    && forall i :: 0 <= i < |updates| ==>
         && updates[i].fetched.Ok?
         && edits[i].key == updates[i].updater.imageName
         && forall c :: imagesOf(Some(updates[i].provider(c, Sources(defs, updates[i])))) ==
              Put(imagesOf(c), edits[i], First)
  }

  lemma {:induction false} ConfigChainIsPutAll<C(!new), V(!new)>(
    lib: Library, defs: seq<CapabilityDefinition>, p: Profile<C>, updates: seq<Update<C>>,
    imagesOf: Option<C> -> seq<Entry<string, V>>, edits: seq<Write<string, V>>)
    requires EditsImages(defs, updates, imagesOf, edits)
    ensures imagesOf(PreparedAll(lib, defs, p, updates).config) == PutAll(imagesOf(p.config), edits, First)
    decreases |updates|
  {
    if updates != [] {
      assert EditsImages(defs, updates[1..], imagesOf, edits[1..]);
      ConfigChainIsPutAll(lib, defs, Prepared(lib, defs, p, updates[0]), updates[1..], imagesOf, edits[1..]);
    }
  }

  /** Updates of pairwise distinct images are independent in the provider configuration too: the entry
      of each is what its update alone makes of the base, and other images are unchanged. */
  lemma ConfigsAreIndependent<C(!new), V(!new)>(
    lib: Library, defs: seq<CapabilityDefinition>, p: Profile<C>, updates: seq<Update<C>>,
    imagesOf: Option<C> -> seq<Entry<string, V>>, edits: seq<Write<string, V>>)
    requires EditsImages(defs, updates, imagesOf, edits) && Distinct(Names(updates))
    ensures var r := imagesOf(PreparedAll(lib, defs, p, updates).config);
            && (forall i :: 0 <= i < |updates| ==>
                  var name := updates[i].updater.imageName;
                  Find(r, name, First) == Find(imagesOf(Prepared(lib, defs, p, updates[i]).config), name, First))
            && (forall name :: name !in Names(updates) ==>
                  Find(r, name, First) == Find(imagesOf(p.config), name, First))
  {
    ConfigChainIsPutAll(lib, defs, p, updates, imagesOf, edits);
    assert Targets(edits) == Names(updates);
    forall i | 0 <= i < |updates| ensures
        var name := updates[i].updater.imageName;
        Find(PutAll(imagesOf(p.config), edits, First), name, First) ==
            Find(imagesOf(Prepared(lib, defs, p, updates[i]).config), name, First) {
      IndependentWrite(imagesOf(p.config), edits, First, i);
    }
    UntouchedKeys(imagesOf(p.config), edits, First);
  }

  // ---------------------------------------------------------------- the two provider kinds

  /** `selectProvider` for an OpenStack update. */
  function OpenStackFor(u: Updater): Provider<OpenStackProvider.CloudProfileConfig> {
    (c, srcs) => OpenStackProvider.Configured(OpenStackProvider.OpenStack(u.imageName, u.enableCapabilities), c, srcs)
  }

  /** `selectProvider` for an Ironcore update. */
  function IroncoreFor(registry: string, repository: string, u: Updater): Provider<IroncoreProvider.MetalConfig> {
    (c, srcs) => IroncoreProvider.Configured(
      IroncoreProvider.Ironcore(registry, repository, u.imageName, u.enableCapabilities), c, srcs)
  }

  function OpenStackImages(c: Option<OpenStackProvider.CloudProfileConfig>): seq<OpenStackProvider.ConfigImage> {
    if c.Some? then c.value.machineImages else []
  }

  function MetalImages(c: Option<IroncoreProvider.MetalConfig>): seq<Entry<string, seq<IroncoreProvider.MetalEntry>>> {
    if c.Some? then c.value.machineImages else []
  }

  function OpenStackEdits(defs: seq<CapabilityDefinition>, updates: seq<Update<OpenStackProvider.CloudProfileConfig>>)
    : (edits: seq<Write<string, seq<OpenStackProvider.ConfigVersion>>>)
    requires forall i :: 0 <= i < |updates| ==> updates[i].fetched.Ok?
  {
    seq(|updates|, i requires 0 <= i < |updates| => OpenStackProvider.ConfigEdit(
      OpenStackProvider.OpenStack(updates[i].updater.imageName, updates[i].updater.enableCapabilities),
      Sources(defs, updates[i])))
  }

  /** OpenStack updates of distinct images. */
  lemma OpenStackUpdatesIndependent(
    lib: Library, defs: seq<CapabilityDefinition>, p: Profile<OpenStackProvider.CloudProfileConfig>,
    updates: seq<Update<OpenStackProvider.CloudProfileConfig>>)
    requires forall i :: 0 <= i < |updates| ==>
               updates[i].fetched.Ok? && updates[i].provider == OpenStackFor(updates[i].updater)
    requires Distinct(Names(updates))
    ensures var r := OpenStackImages(PreparedAll(lib, defs, p, updates).config);
            && (forall i :: 0 <= i < |updates| ==>
                  var name := updates[i].updater.imageName;
                  Find(r, name, First) == Find(OpenStackImages(Prepared(lib, defs, p, updates[i]).config), name, First))
            && (forall name :: name !in Names(updates) ==>
                  Find(r, name, First) == Find(OpenStackImages(p.config), name, First))
  {
    ConfigsAreIndependent(lib, defs, p, updates, OpenStackImages, OpenStackEdits(defs, updates));
  }

  datatype Registry = Registry(registry: string, repository: string)

  function IroncoreEdits(
      defs: seq<CapabilityDefinition>, registries: seq<Registry>, updates: seq<Update<IroncoreProvider.MetalConfig>>)
    : (edits: seq<Write<string, seq<IroncoreProvider.MetalEntry>>>)
    requires |registries| == |updates| && forall i :: 0 <= i < |updates| ==> updates[i].fetched.Ok?
  {
    seq(|updates|, i requires 0 <= i < |updates| => IroncoreProvider.ConfigEdit(
      IroncoreProvider.Ironcore(registries[i].registry, registries[i].repository, updates[i].updater.imageName,
                                updates[i].updater.enableCapabilities),
      Sources(defs, updates[i])))
  }

  /** Ironcore updates of distinct images. */
  lemma IroncoreUpdatesIndependent(
    lib: Library, defs: seq<CapabilityDefinition>, registries: seq<Registry>, p: Profile<IroncoreProvider.MetalConfig>,
    updates: seq<Update<IroncoreProvider.MetalConfig>>)
    requires |registries| == |updates| && Distinct(Names(updates))
    requires forall i :: 0 <= i < |updates| ==>
               updates[i].fetched.Ok? && updates[i].provider ==
                   IroncoreFor(registries[i].registry, registries[i].repository, updates[i].updater)
    ensures var r := MetalImages(PreparedAll(lib, defs, p, updates).config);
            && (forall i :: 0 <= i < |updates| ==>
                  var name := updates[i].updater.imageName;
                  Find(r, name, First) == Find(MetalImages(Prepared(lib, defs, p, updates[i]).config), name, First))
            && (forall name :: name !in Names(updates) ==>
                  Find(r, name, First) == Find(MetalImages(p.config), name, First))
  {
    ConfigsAreIndependent(lib, defs, p, updates, MetalImages, IroncoreEdits(defs, registries, updates));
  }

  // ---------------------------------------------------------------- providers that do not read dates

  /** The provider gives alike sources the same configuration, whatever configuration it starts from. */
  ghost predicate Blind<C(!new)>(provider: Provider<C>) {
    forall c, a, b :: AllAlike(a, b) ==> provider(c, a) == provider(c, b)
  }

  /** The OpenStack provider sees neither dates nor the order in which regions were collected. */
  lemma OpenStackIsBlind(u: Updater)
    ensures Blind(OpenStackFor(u))
  {
    forall c, a, b | AllAlike(a, b) ensures OpenStackFor(u)(c, a) == OpenStackFor(u)(c, b) {
      OpenStackSame(u, c, a, b);
    }
  }

  lemma OpenStackSame(
      u: Updater, c: Option<OpenStackProvider.CloudProfileConfig>, a: seq<SourceImage>, b: seq<SourceImage>)
    requires AllAlike(a, b)
    ensures OpenStackFor(u)(c, a) == OpenStackFor(u)(c, b)
  {
    var images := OpenStackImages(c);
    var i := Locate(images, u.imageName, First);
    ConfigTheorems.ConfigureCongruent(u.enableCapabilities, if i == -1 then [] else images[i].body, a, b);
  }

  /** The Ironcore provider reads neither dates nor regions. */
  lemma IroncoreIsBlind(registry: string, repository: string, u: Updater)
    ensures Blind(IroncoreFor(registry, repository, u))
  {
    var p := IroncoreProvider.Ironcore(registry, repository, u.imageName, u.enableCapabilities);
    forall c, a, b | AllAlike(a, b)
      ensures IroncoreFor(registry, repository, u)(c, a) == IroncoreFor(registry, repository, u)(c, b) {
      var images := MetalImages(c);
      var i := Locate(images, u.imageName, First);
      MetalRunAlike(p, IroncoreProvider.Start(if i == -1 then [] else images[i].body), a, b);
    }
  }

  lemma {:induction false} MetalRunAlike(
      p: IroncoreProvider.Ironcore, st: IroncoreProvider.State, a: seq<SourceImage>, b: seq<SourceImage>)
    requires IroncoreProvider.Pointing(st) && AllAlike(a, b)
    ensures IroncoreProvider.Run(p, st, a) == IroncoreProvider.Run(p, st, b)
    decreases |a|
  {
    if a != [] {
      MetalRunAlike(p, st, a[..|a| - 1], b[..|b| - 1]);
    }
  }

  // ---------------------------------------------------------------- the same update again

  /** Applying an OpenStack update to its own result never changes the machine images, and changes the provider
      configuration exactly when `Configure` does. */
  lemma UpdateIdempotentExactly(
    lib: Library, defs: seq<CapabilityDefinition>, p: Profile<OpenStackProvider.CloudProfileConfig>, u: Updater,
    reported: seq<SourceImage>, keep: SourceImage -> bool, fetched: seq<SourceImage>)
    requires lib.Lawful() && FetchResult(lib, reported, keep, fetched)
    ensures var update := Update(u, OpenStackFor(u), Ok(fetched));
            var once := Prepared(lib, defs, p, update);
            && Prepared(lib, defs, once, update).images == once.images
            && (Prepared(lib, defs, once, update) == once <==> SettledUpdate(p.config, u, Sources(defs, update)))
            && (Distinct(Tags(fetched)) ==>
                  (Prepared(lib, defs, once, update) == once <==> SteadyUpdate(p.config, u, Sources(defs, update))))
  {
    var srcs := FilteredSources(fetched, Declared(defs));
    var provider := OpenStackProvider.OpenStack(u.imageName, u.enableCapabilities);
    ApplyIsIdempotent(lib, u, reported, keep, fetched, Declared(defs), p.images);
    ConfigTheorems.RepeatsExactly(provider, p.config, srcs);
    if Distinct(Tags(fetched)) {
      forall i, j | 0 <= i < j < |srcs| ensures srcs[i].version != srcs[j].version {
        assert Tags(fetched)[i] != Tags(fetched)[j];
      }
      ConfigTheorems.ConfigureIdempotentExactly(provider, p.config, srcs);
    }
  }

  /** In the list each source writes to, no mapping of a written region is hidden behind the first one with an
      id smaller than the one written. */
  ghost predicate SteadyUpdate(c: Option<OpenStackConfig>, u: Updater, srcs: seq<SourceImage>) {
    var own := ConfigTheorems.OwnVersions(OpenStackProvider.OpenStack(u.imageName, u.enableCapabilities), c);
    forall s :: s in srcs ==>
      OpenStackTheorems.Steady(
        ConfigTheorems.WrittenList(u.enableCapabilities, ConfigTheorems.VersionOr(Find(own, s.version, Last)), s),
        s.regions)
  }

  /** The lists the sources write to settle, in every entry they pick in the image of the update. */
  ghost predicate SettledUpdate(c: Option<OpenStackConfig>, u: Updater, srcs: seq<SourceImage>) {
    var own := ConfigTheorems.OwnVersions(OpenStackProvider.OpenStack(u.imageName, u.enableCapabilities), c);
    forall k :: ConfigTheorems.EntrySettles(u.enableCapabilities, ConfigTheorems.VersionOr(Find(own, k, Last)),
      ConfigTheorems.SourcesOf(srcs, k))
  }

  lemma EditTwice(lib: Library, u: Updater, srcs: seq<SourceImage>, c: Option<ImageFields>)
    requires CleanVersionsValid(lib, u, srcs)
    ensures var edit := ImageEdit(lib, u, srcs); Written(Written(c, edit), edit) == Written(c, edit)
  {
    MergeIsIdempotent(lib, u, if c.Some? then c.value.versions else [], srcs);
  }

  lemma EditsTwice<C>(
      lib: Library, defs: seq<CapabilityDefinition>, updates: seq<Update<C>>, c: Option<ImageFields>, k: string)
    requires Distinct(Names(updates)) && forall i :: 0 <= i < |updates| ==> updates[i].fetched.Ok?
    requires forall i :: 0 <= i < |updates| ==> CleanVersionsValid(lib, updates[i].updater, Sources(defs, updates[i]))
    ensures var edits := ImageEdits(lib, defs, updates); FoldKey(FoldKey(c, edits, k), edits, k) == FoldKey(c, edits, k)
  {
    var edits := ImageEdits(lib, defs, updates);
    assert Targets(edits) == Names(updates);
    if k in Targets(edits) {
      var i :| 0 <= i < |edits| && Targets(edits)[i] == k;
      FoldKeyOnce(c, edits, i);
      FoldKeyOnce(Written(c, edits[i]), edits, i);
      EditTwice(lib, updates[i].updater, Sources(defs, updates[i]), c);
    } else {
      FoldKeyMiss(c, edits, k);
    }
  }

  /** So does a whole chain of updates of distinct images, applied to its own machine images. */
  lemma ChainIsIdempotent<C>(
      lib: Library, defs: seq<CapabilityDefinition>, p: Profile<C>, updates: seq<Update<C>>, config: Option<C>)
    requires Distinct(Names(updates)) && forall i :: 0 <= i < |updates| ==> updates[i].fetched.Ok?
    requires forall i :: 0 <= i < |updates| ==> CleanVersionsValid(lib, updates[i].updater, Sources(defs, updates[i]))
    ensures var r := PreparedAll(lib, defs, p, updates).images;
            PreparedAll(lib, defs, Profile(r, config), updates).images == r
  {
    var edits := ImageEdits(lib, defs, updates);
    ChainIsPutAll(lib, defs, p, updates);
    ChainIsPutAll(lib, defs, Profile(PutAll(p.images, edits, First), config), updates);
    forall k
      ensures var c := Find(p.images, k, First); FoldKey(FoldKey(c, edits, k), edits, k) == FoldKey(c, edits, k) {
      EditsTwice(lib, defs, updates, Find(p.images, k, First), k);
    }
    PutAllTwice(p.images, edits, First);
  }
}
