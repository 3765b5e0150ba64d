/** The version entries of the OpenStack configuration after any number of sources per version. */
module ConfigTheorems {
  import opened Prelude
  import opened Sorting
  import opened Keyed
  import opened Images
  import opened OpenStackProvider
  import opened OpenStackTheorems

  // ---------------------------------------------------------------- one region list, many sources

  function TouchAll(regions: RegionList, srcs: seq<SourceImage>): RegionList
    decreases |srcs|
  {
    if srcs == [] then regions else TouchAll(Touch(regions, srcs[0].regions), srcs[1..])
  }

  function RegionsOfAll(srcs: seq<SourceImage>): seq<RegionImage> {
    if srcs == [] then [] else srcs[0].regions + RegionsOfAll(srcs[1..])
  }

  lemma {:induction false} LastIdConcat(a: seq<RegionImage>, b: seq<RegionImage>, name: string)
    ensures LastId(a + b, name) == Override(LastId(a, name), LastId(b, name))
  {
    if a == [] {
      assert a + b == b;
    } else {
      assert (a + b)[1..] == a[1..] + b;
      LastIdConcat(a[1..], b, name);
    }
  }

  /** Source `i` is the last that names the region. */
  predicate LastToName(srcs: seq<SourceImage>, name: string, i: nat) {
    && i < |srcs| && LastId(srcs[i].regions, name).Some?
    && forall j :: i < j < |srcs| ==> LastId(srcs[j].regions, name).None?
  }

  /** Over several sources the last one that names the region decides. */
  lemma {:induction false} LastSourceDecides(srcs: seq<SourceImage>, name: string, i: nat)
    requires LastToName(srcs, name, i)
    ensures LastId(RegionsOfAll(srcs), name) == LastId(srcs[i].regions, name)
  {
    LastIdConcat(srcs[0].regions, RegionsOfAll(srcs[1..]), name);
    assert forall j :: 0 < j < |srcs| ==> srcs[j] == srcs[1..][j - 1];
    if i > 0 {
      LastSourceDecides(srcs[1..], name, i - 1);
    } else {
      NoneNames(srcs[1..], name);
    }
  }

  lemma {:induction false} NoneNames(srcs: seq<SourceImage>, name: string)
    requires forall j :: 0 <= j < |srcs| ==> LastId(srcs[j].regions, name).None?
    ensures LastId(RegionsOfAll(srcs), name).None?
  {
    if srcs != [] {
      assert forall j :: 0 < j < |srcs| ==> srcs[j] == srcs[1..][j - 1];
      NoneNames(srcs[1..], name);
      LastIdConcat(srcs[0].regions, RegionsOfAll(srcs[1..]), name);
    }
  }

  lemma {:induction false} TouchAllRegions(regions: RegionList, srcs: seq<SourceImage>)
    requires UniqueNames(regions)
    ensures UniqueNames(TouchAll(regions, srcs))
    ensures srcs != [] ==> Canonical(TouchAll(regions, srcs))
    ensures forall n :: IdOf(TouchAll(regions, srcs), n) == Override(IdOf(regions, n), LastId(RegionsOfAll(srcs), n))
    decreases |srcs|
  {
    if srcs != [] {
      var r := Touch(regions, srcs[0].regions);
      TouchedRegions(regions, srcs[0].regions);
      TouchAllRegions(r, srcs[1..]);
      forall n ensures IdOf(TouchAll(regions, srcs), n) == Override(IdOf(regions, n), LastId(RegionsOfAll(srcs), n)) {
        LastIdConcat(srcs[0].regions, RegionsOfAll(srcs[1..]), n);
        assert IdOf(r, n) == Override(IdOf(regions, n), LastId(srcs[0].regions, n));
      }
    }
  }

  lemma TouchAllTwice(regions: RegionList, srcs: seq<SourceImage>)
    requires UniqueNames(regions)
    ensures TouchAll(TouchAll(regions, srcs), srcs) == TouchAll(regions, srcs)
  {
    if srcs != [] {
      TouchAllRegions(regions, srcs);
      TouchAllRegions(TouchAll(regions, srcs), srcs);
      CanonicalUnique(TouchAll(TouchAll(regions, srcs), srcs), TouchAll(regions, srcs));
    }
  }

  // ---------------------------------------------------------------- one version entry

  function RunVersion(enable: bool, b: VersionConfig, srcs: seq<SourceImage>): VersionConfig
    decreases |srcs|
  {
    if srcs == [] then b else RunVersion(enable, TouchVersion(enable, srcs[0], b), srcs[1..])
  }

  predicate ClearsRegions(enable: bool, srcs: seq<SourceImage>) {
    exists i :: 0 <= i < |srcs| && WritesFlavor(enable, srcs[i])
  }

  lemma ClearsFirst(enable: bool, srcs: seq<SourceImage>)
    requires srcs != []
    ensures ClearsRegions(enable, srcs) <==> WritesFlavor(enable, srcs[0]) || ClearsRegions(enable, srcs[1..])
  {
    if ClearsRegions(enable, srcs[1..]) {
      var i :| 0 <= i < |srcs[1..]| && WritesFlavor(enable, srcs[1..][i]);
      assert WritesFlavor(enable, srcs[i + 1]);
    }
    if i :| 0 < i < |srcs| && WritesFlavor(enable, srcs[i]) {
      assert WritesFlavor(enable, srcs[1..][i - 1]);
    }
  }

  /** The sources after the last one that clears the plain regions (all of them when none does). */
  function Tail(enable: bool, srcs: seq<SourceImage>): seq<SourceImage> {
    if srcs == [] || !ClearsRegions(enable, srcs) then srcs else Tail(enable, srcs[1..])
  }

  /** The plain regions depend on the old ones only when no source clears them, and on no source
      before the last clearing one. */
  lemma {:induction false} RegionsAfter(enable: bool, b: VersionConfig, srcs: seq<SourceImage>)
    ensures RunVersion(enable, b, srcs).regions ==
            TouchAll(if ClearsRegions(enable, srcs) then [] else b.regions, Tail(enable, srcs))
    decreases |srcs|
  {
    if srcs != [] {
      ClearsFirst(enable, srcs);
      RegionsAfter(enable, TouchVersion(enable, srcs[0], b), srcs[1..]);
    }
  }

  function FlavorWrites(enable: bool, srcs: seq<SourceImage>): seq<Write<Capabilities, RegionList>> {
    if srcs == [] then []
    else (if WritesFlavor(enable, srcs[0]) then [FlavorWrite(srcs[0])] else []) + FlavorWrites(enable, srcs[1..])
  }

  function FlavorSources(enable: bool, srcs: seq<SourceImage>, caps: Capabilities): seq<SourceImage> {
    Select(srcs, (s: SourceImage) => WritesFlavor(enable, s) && s.capabilities.value == caps)
  }

  lemma {:induction false} FlavorsAfter(enable: bool, b: VersionConfig, srcs: seq<SourceImage>)
    ensures RunVersion(enable, b, srcs).capabilityFlavors ==
              PutAll(b.capabilityFlavors, FlavorWrites(enable, srcs), First)
    decreases |srcs|
  {
    if srcs != [] {
      FlavorsAfter(enable, TouchVersion(enable, srcs[0], b), srcs[1..]);
      var ws := FlavorWrites(enable, srcs);
      if WritesFlavor(enable, srcs[0]) {
        assert ws[0] == FlavorWrite(srcs[0]) && ws[1..] == FlavorWrites(enable, srcs[1..]);
      } else {
        assert ws == FlavorWrites(enable, srcs[1..]);
      }
    }
  }

  function RegionsOr(c: Option<RegionList>): RegionList {
    if c.Some? then c.value else []
  }

  lemma {:induction false} FoldFlavor(enable: bool, c: Option<RegionList>, srcs: seq<SourceImage>, caps: Capabilities)
    ensures FoldKey(c, FlavorWrites(enable, srcs), caps) ==
            (var hits := FlavorSources(enable, srcs, caps);
             if hits == [] then c else Some(TouchAll(RegionsOr(c), hits)))
    decreases |srcs|
  {
    if srcs != [] {
      var ws, rest := FlavorWrites(enable, srcs), FlavorWrites(enable, srcs[1..]);
      var hits := FlavorSources(enable, srcs, caps);
      if WritesFlavor(enable, srcs[0]) {
        assert ws[0] == FlavorWrite(srcs[0]) && ws[1..] == rest;
        if srcs[0].capabilities.value == caps {
          assert hits[0] == srcs[0] && hits[1..] == FlavorSources(enable, srcs[1..], caps);
          FoldFlavor(enable, Some(Touch(RegionsOr(c), srcs[0].regions)), srcs[1..], caps);
        } else {
          assert hits == FlavorSources(enable, srcs[1..], caps);
          FoldFlavor(enable, c, srcs[1..], caps);
        }
      } else {
        assert ws == rest;
        assert hits == FlavorSources(enable, srcs[1..], caps);
        FoldFlavor(enable, c, srcs[1..], caps);
      }
    }
  }

  /** Region names are unique in the lists of an entry that sources can write to: its plain regions, and the
      picked flavors when the provider writes flavors. */
  ghost predicate PickedUniqueAt(enable: bool, b: VersionConfig) {
    && UniqueNames(b.regions)
    && (enable ==> forall f :: UniqueNames(RegionsOr(Find(b.capabilityFlavors, f, First))))
  }

  /** Touching a list again with the regions of the same sources changes nothing. */
  predicate Settles(regions: RegionList, srcs: seq<SourceImage>) {
    TouchAll(TouchAll(regions, srcs), srcs) == TouchAll(regions, srcs)
  }

  /** The lists of an entry that sources write to settle: its plain regions unless they are cleared, and the
      regions of every flavor that is picked. */
  ghost predicate EntrySettles(enable: bool, b: VersionConfig, srcs: seq<SourceImage>) {
    && (ClearsRegions(enable, srcs) || Settles(b.regions, srcs))
    && forall f :: Settles(RegionsOr(Find(b.capabilityFlavors, f, First)), FlavorSources(enable, srcs, f))
  }

  lemma FlavorsTwiceExactly(enable: bool, flavors: seq<Flavor>, srcs: seq<SourceImage>)
    ensures var ws := FlavorWrites(enable, srcs);
            PutAll(PutAll(flavors, ws, First), ws, First) == PutAll(flavors, ws, First) <==>
              forall f :: Settles(RegionsOr(Find(flavors, f, First)), FlavorSources(enable, srcs, f))
  {
    var ws := FlavorWrites(enable, srcs);
    PutAllTwiceExactly(flavors, ws, First);
    forall f
      ensures var c := Find(flavors, f, First);
              FoldKey(FoldKey(c, ws, f), ws, f) == FoldKey(c, ws, f) <==>
                Settles(RegionsOr(c), FlavorSources(enable, srcs, f)) {
      var c := Find(flavors, f, First);
      FoldFlavor(enable, c, srcs, f);
      FoldFlavor(enable, FoldKey(c, ws, f), srcs, f);
    }
  }

  lemma RunVersionTwiceExactly(enable: bool, b: VersionConfig, srcs: seq<SourceImage>)
    ensures RunVersion(enable, RunVersion(enable, b, srcs), srcs) == RunVersion(enable, b, srcs) <==>
              EntrySettles(enable, b, srcs)
  {
    var r := RunVersion(enable, b, srcs);
    RegionsAfter(enable, b, srcs);
    RegionsAfter(enable, r, srcs);
    FlavorsAfter(enable, b, srcs);
    FlavorsAfter(enable, r, srcs);
    FlavorsTwiceExactly(enable, b.capabilityFlavors, srcs);
    assert !ClearsRegions(enable, srcs) ==> Tail(enable, srcs) == srcs;
  }

  // ---------------------------------------------------------------- all versions of an image

  function SourcesOf(srcs: seq<SourceImage>, k: string): seq<SourceImage> {
    Select(srcs, (s: SourceImage) => s.version == k)
  }

  function VersionOr(c: Option<VersionConfig>): VersionConfig {
    if c.Some? then c.value else EMPTY_VERSION
  }

  lemma {:induction false} FoldVersion(enable: bool, c: Option<VersionConfig>, srcs: seq<SourceImage>, k: string)
    ensures FoldKey(c, ConfigWrites(enable, srcs), k) ==
            (var hits := SourcesOf(srcs, k); if hits == [] then c else Some(RunVersion(enable, VersionOr(c), hits)))
    decreases |srcs|
  {
    if srcs != [] {
      var hits := SourcesOf(srcs, k);
      assert ConfigWrites(enable, srcs)[1..] == ConfigWrites(enable, srcs[1..]);
      if srcs[0].version == k {
        assert hits[0] == srcs[0] && hits[1..] == SourcesOf(srcs[1..], k);
        FoldVersion(enable, Some(TouchVersion(enable, srcs[0], VersionOr(c))), srcs[1..], k);
      } else {
        assert hits == SourcesOf(srcs[1..], k);
        FoldVersion(enable, c, srcs[1..], k);
      }
    }
  }

  /** Exactly when configuring the same sources again changes nothing in the image: when the lists written to
      settle in every entry the sources pick. */
  lemma ConfigureTwiceExactly(enable: bool, base: seq<ConfigVersion>, srcs: seq<SourceImage>)
    ensures var ws := ConfigWrites(enable, srcs);
            PutAll(PutAll(base, ws, Last), ws, Last) == PutAll(base, ws, Last) <==>
              forall k :: EntrySettles(enable, VersionOr(Find(base, k, Last)), SourcesOf(srcs, k))
  {
    var ws := ConfigWrites(enable, srcs);
    PutAllTwiceExactly(base, ws, Last);
    forall k
      ensures var c := Find(base, k, Last);
              FoldKey(FoldKey(c, ws, k), ws, k) == FoldKey(c, ws, k) <==>
                EntrySettles(enable, VersionOr(c), SourcesOf(srcs, k)) {
      var c := Find(base, k, Last);
      FoldVersion(enable, c, srcs, k);
      FoldVersion(enable, FoldKey(c, ws, k), srcs, k);
      RunVersionTwiceExactly(enable, VersionOr(c), SourcesOf(srcs, k));
    }
  }

  /** The versions of the provider's own image. */
  function OwnVersions(p: OpenStack, config: Option<CloudProfileConfig>): seq<ConfigVersion> {
    if config.None? then []
    else match Find(config.value.machineImages, p.imageName, First) case Some(versions) => versions case None => []
  }

  predicate Repeats(p: OpenStack, config: Option<CloudProfileConfig>, srcs: seq<SourceImage>) {
    Configured(p, Some(Configured(p, config, srcs)), srcs) == Configured(p, config, srcs)
  }

  lemma RepeatsExactly(p: OpenStack, config: Option<CloudProfileConfig>, srcs: seq<SourceImage>)
    ensures Repeats(p, config, srcs) <==>
              forall k :: EntrySettles(p.enableCapabilities, VersionOr(Find(OwnVersions(p, config), k, Last)),
                            SourcesOf(srcs, k))
  {
    var images := if config.Some? then config.value.machineImages else [];
    var edit, ws, own := ConfigEdit(p, srcs), ConfigWrites(p.enableCapabilities, srcs), OwnVersions(p, config);
    PutLocate(images, edit, First, p.imageName);
    ConfigureTwiceExactly(p.enableCapabilities, own, srcs);
    var once := Put(images, edit, First);
    var i := Locate(once, p.imageName, First);
    assert once[i] == Entry(p.imageName, PutAll(own, ws, Last));
    assert Put(once, edit, First) == once[i := Entry(p.imageName, PutAll(PutAll(own, ws, Last), ws, Last))];
    assert Put(once, edit, First)[i] == Entry(p.imageName, PutAll(PutAll(own, ws, Last), ws, Last));
  }

  /** The list a source writes to in the entry of its version. */
  function WrittenList(enable: bool, b: VersionConfig, src: SourceImage): RegionList {
    if WritesFlavor(enable, src) then RegionsOr(Find(b.capabilityFlavors, src.capabilities.value, First)) else b.regions
  }

  lemma SettlesOnce(regions: RegionList, src: SourceImage)
    ensures Settles(regions, [src]) <==> Steady(regions, src.regions)
    ensures Settles(regions, [])
  {
    TouchTwiceExactly(regions, src.regions);
    TouchAllOne(regions, src);
    TouchAllOne(Touch(regions, src.regions), src);
  }

  lemma TouchAllOne(regions: RegionList, src: SourceImage)
    ensures TouchAll(regions, [src]) == Touch(regions, src.regions)
  {
    assert [src][1..] == [];
  }

  lemma FlavorSourcesOne(enable: bool, src: SourceImage, f: Capabilities)
    ensures FlavorSources(enable, [src], f) ==
              if WritesFlavor(enable, src) && src.capabilities.value == f then [src] else []
  {
    SelectOne(src, (s: SourceImage) => WritesFlavor(enable, s) && s.capabilities.value == f);
  }

  lemma EntrySettlesOnce(enable: bool, b: VersionConfig, src: SourceImage)
    ensures EntrySettles(enable, b, [src]) <==> Steady(WrittenList(enable, b, src), src.regions)
  {
    SettlesOnce(b.regions, src);
    ClearsFirst(enable, [src]);
    FlavorsSettleOnce(enable, b.capabilityFlavors, src);
  }

  lemma FlavorsSettleOnce(enable: bool, flavors: seq<Flavor>, src: SourceImage)
    ensures (forall f :: Settles(RegionsOr(Find(flavors, f, First)), FlavorSources(enable, [src], f))) <==>
              (WritesFlavor(enable, src) ==>
                 Steady(RegionsOr(Find(flavors, src.capabilities.value, First)), src.regions))
  {
    forall f
      ensures Settles(RegionsOr(Find(flavors, f, First)), FlavorSources(enable, [src], f)) <==>
                (WritesFlavor(enable, src) && src.capabilities.value == f ==>
                   Steady(RegionsOr(Find(flavors, f, First)), src.regions)) {
      FlavorSourcesOne(enable, src, f);
      SettlesOnce(RegionsOr(Find(flavors, f, First)), src);
    }
  }

  /** With one source per version, exactly when `Configure` is idempotent: in the list each source writes to, no
      mapping of a written region is hidden behind the first one with an id smaller than the one written. */
  lemma ConfigureIdempotentExactly(p: OpenStack, config: Option<CloudProfileConfig>, srcs: seq<SourceImage>)
    requires forall i, j :: 0 <= i < j < |srcs| ==> srcs[i].version != srcs[j].version
    ensures Repeats(p, config, srcs) <==>
              forall s :: s in srcs ==>
                Steady(WrittenList(p.enableCapabilities, VersionOr(Find(OwnVersions(p, config), s.version, Last)), s),
                  s.regions)
  {
    RepeatsExactly(p, config, srcs);
    forall s | s in srcs ensures SourcesOf(srcs, s.version) == [s] {
      OnlySource(srcs, s);
    }
    forall k ensures var before := VersionOr(Find(OwnVersions(p, config), k, Last));
        EntrySettles(p.enableCapabilities, before, SourcesOf(srcs, k)) <==>
          forall s :: s in srcs && s.version == k ==>
            Steady(WrittenList(p.enableCapabilities, before, s), s.regions) {
      var before := VersionOr(Find(OwnVersions(p, config), k, Last));
      EmptyExactly(SourcesOf(srcs, k));
      NothingToSettle(p.enableCapabilities, before);
      if s :| s in srcs && s.version == k {
        EntrySettlesOnce(p.enableCapabilities, before, s);
        assert forall t :: t in SourcesOf(srcs, k) <==> t in srcs && t.version == k;
      }
    }
  }

  lemma {:induction false} OnlySource(srcs: seq<SourceImage>, s: SourceImage)
    requires s in srcs && forall i, j :: 0 <= i < j < |srcs| ==> srcs[i].version != srcs[j].version
    ensures SourcesOf(srcs, s.version) == [s]
  {
    assert forall x :: x in srcs[1..] ==> exists j :: 0 < j < |srcs| && srcs[j] == x;
    if srcs[0] == s {
      EmptyExactly(SourcesOf(srcs[1..], s.version));
    } else {
      OnlySource(srcs[1..], s);
    }
  }

  /** Region names are unique in every list some source can write to. */
  ghost predicate PickedUnique(enable: bool, versions: seq<ConfigVersion>) {
    forall k :: PickedUniqueAt(enable, VersionOr(Find(versions, k, Last)))
  }

  lemma UniqueSettles(enable: bool, b: VersionConfig, srcs: seq<SourceImage>)
    requires PickedUniqueAt(enable, b)
    ensures EntrySettles(enable, b, srcs)
  {
    TouchAllTwice(b.regions, srcs);
    forall f ensures Settles(RegionsOr(Find(b.capabilityFlavors, f, First)), FlavorSources(enable, srcs, f)) {
      if enable {
        TouchAllTwice(RegionsOr(Find(b.capabilityFlavors, f, First)), FlavorSources(enable, srcs, f));
      } else {
        EmptyExactly(FlavorSources(enable, srcs, f));
      }
    }
  }

  /** A repeated name in a picked list, and a source that two runs of `Configure` tell from one. */
  lemma Disturbing(enable: bool, b: VersionConfig, k: string) returns (s: SourceImage)
    requires !PickedUniqueAt(enable, b)
    ensures s.version == k && !Steady(WrittenList(enable, b, s), s.regions)
  {
    if !UniqueNames(b.regions) {
      var r := Unsteadying(b.regions);
      s := SourceImage(k, "", [], None, false, [r], None, None);
    } else {
      var f :| !UniqueNames(RegionsOr(Find(b.capabilityFlavors, f, First)));
      var r := Unsteadying(RegionsOr(Find(b.capabilityFlavors, f, First)));
      s := SourceImage(k, "", [], Some(f), false, [r], None, None);
    }
  }

  /** `Configure` is idempotent for whatever sources exactly when region names are unique in every picked list
      of the provider's own image. */
  lemma ConfigureIdempotentIffUnique(p: OpenStack, config: Option<CloudProfileConfig>)
    ensures PickedUnique(p.enableCapabilities, OwnVersions(p, config)) <==> forall srcs :: Repeats(p, config, srcs)
  {
    var own := OwnVersions(p, config);
    if PickedUnique(p.enableCapabilities, own) {
      forall srcs ensures Repeats(p, config, srcs) {
        ConfigureIsIdempotent(p, config, srcs);
      }
    } else {
      var k :| !PickedUniqueAt(p.enableCapabilities, VersionOr(Find(own, k, Last)));
      var s := Disturbing(p.enableCapabilities, VersionOr(Find(own, k, Last)), k);
      ConfigureIdempotentExactly(p, config, [s]);
      assert s in [s];
    }
  }

  /** In particular it is when the entries the sources pick have unique names. */
  lemma ConfigureIsIdempotent(p: OpenStack, config: Option<CloudProfileConfig>, srcs: seq<SourceImage>)
    requires forall s :: s in srcs ==>
               PickedUniqueAt(p.enableCapabilities, VersionOr(Find(OwnVersions(p, config), s.version, Last)))
    ensures Repeats(p, config, srcs)
  {
    RepeatsExactly(p, config, srcs);
    forall k ensures EntrySettles(p.enableCapabilities, VersionOr(Find(OwnVersions(p, config), k, Last)),
        SourcesOf(srcs, k)) {
      var before := VersionOr(Find(OwnVersions(p, config), k, Last));
      EmptyExactly(SourcesOf(srcs, k));
      if s :| s in SourcesOf(srcs, k) {
        UniqueSettles(p.enableCapabilities, before, SourcesOf(srcs, k));
      } else {
        NothingToSettle(p.enableCapabilities, before);
      }
    }
  }

  lemma NothingToSettle(enable: bool, b: VersionConfig)
    ensures EntrySettles(enable, b, [])
  {
  }

  /** Who writes a flavor and who clears the plain regions: with capabilities enabled, the sources that have
      capabilities, and no others. */
  lemma WhoWrites(enable: bool, srcs: seq<SourceImage>, f: Capabilities)
    ensures forall s :: s in FlavorSources(enable, srcs, f) <==> enable && s in srcs && s.capabilities == Some(f)
    ensures ClearsRegions(enable, srcs) <==> enable && exists s :: s in srcs && s.capabilities.Some?
  {
    if s :| enable && s in srcs && s.capabilities.Some? {
      var i :| 0 <= i < |srcs| && srcs[i] == s;
      assert WritesFlavor(enable, srcs[i]);
    }
  }

  lemma FlavorsNeedEnable(enable: bool, srcs: seq<SourceImage>, f: Capabilities)
    ensures FlavorSources(enable, srcs, f) != [] ==> enable
  {
    EmptyExactly(FlavorSources(enable, srcs, f));
  }

  /** What an entry with sources holds afterwards. The plain regions map each region to the last id
      written since they were last cleared; each flavor written maps each region to the last id
      written to it; both are sorted with unique names. */
  lemma ConfiguredVersion(enable: bool, base: seq<ConfigVersion>, srcs: seq<SourceImage>, k: string)
    requires PickedUniqueAt(enable, VersionOr(Find(base, k, Last))) && SourcesOf(srcs, k) != []
    ensures var hits, before := SourcesOf(srcs, k), VersionOr(Find(base, k, Last));
            var after := Find(PutAll(base, ConfigWrites(enable, srcs), Last), k, Last);
            && after.Some?
            && (Tail(enable, hits) != [] || ClearsRegions(enable, hits) ==> Canonical(after.value.regions))
            && (forall n :: IdOf(after.value.regions, n) ==
                  Override(if ClearsRegions(enable, hits) then None else IdOf(before.regions, n),
                      LastId(RegionsOfAll(Tail(enable, hits)), n)))
            && forall f :: FlavorSources(enable, hits, f) != [] ==>
                 var regions := Find(after.value.capabilityFlavors, f, First);
                 && regions.Some? && Canonical(regions.value)
                 && forall n :: IdOf(regions.value, n) ==
                      Override(IdOf(RegionsOr(Find(before.capabilityFlavors, f, First)), n),
                          LastId(RegionsOfAll(FlavorSources(enable, hits, f)), n))
  {
    var hits, before := SourcesOf(srcs, k), VersionOr(Find(base, k, Last));
    var after := RunVersion(enable, before, hits);
    PutAllFind(base, ConfigWrites(enable, srcs), Last, k);
    FoldVersion(enable, Find(base, k, Last), srcs, k);
    RegionsAfter(enable, before, hits);
    TouchAllRegions(if ClearsRegions(enable, hits) then [] else before.regions, Tail(enable, hits));
    FlavorsAfter(enable, before, hits);
    forall f | FlavorSources(enable, hits, f) != []
      ensures Find(after.capabilityFlavors, f, First) ==
                Some(TouchAll(RegionsOr(Find(before.capabilityFlavors, f, First)), FlavorSources(enable, hits, f))) {
      PutAllFind(before.capabilityFlavors, FlavorWrites(enable, hits), First, f);
      FoldFlavor(enable, Find(before.capabilityFlavors, f, First), hits, f);
    }
    forall f | FlavorSources(enable, hits, f) != []
      ensures var regions := TouchAll(RegionsOr(Find(before.capabilityFlavors, f, First)),
                FlavorSources(enable, hits, f));
              && Canonical(regions)
              && forall n :: IdOf(regions, n) ==
                   Override(IdOf(RegionsOr(Find(before.capabilityFlavors, f, First)), n),
                       LastId(RegionsOfAll(FlavorSources(enable, hits, f)), n)) {
      FlavorsNeedEnable(enable, hits, f);
      TouchAllRegions(RegionsOr(Find(before.capabilityFlavors, f, First)), FlavorSources(enable, hits, f));
    }
  }

  /** Versions without a source, shadowed duplicates and other images keep their entries. */
  lemma ConfigureFrame(p: OpenStack, config: CloudProfileConfig, srcs: seq<SourceImage>)
    ensures var r := Configured(p, Some(config), srcs);
            && r.rest == config.rest
            && |config.machineImages| <= |r.machineImages|
            && forall i :: 0 <= i < |config.machineImages| ==>
                 var before, after := config.machineImages[i], r.machineImages[i];
                 && after.key == before.key
                 && (i != Locate(config.machineImages, p.imageName, First) ==> after == before)
                 && |before.body| <= |after.body|
                 && forall j :: 0 <= j < |before.body| && SourcesOf(srcs, before.body[j].key) == [] ==>
                      after.body[j] == before.body[j]
  {
    var images := config.machineImages;
    var i := Locate(images, p.imageName, First);
    if i != -1 {
      var ws := ConfigWrites(p.enableCapabilities, srcs);
      PutAllGrows(images[i].body, ws, Last);
      forall j | 0 <= j < |images[i].body| && SourcesOf(srcs, images[i].body[j].key) == []
        ensures PutAll(images[i].body, ws, Last)[j] == images[i].body[j] {
        forall w | w in ws ensures w.key != images[i].body[j].key {
          var x :| 0 <= x < |ws| && ws[x] == w;
          assert srcs[x] in srcs;
          assert srcs[x] !in SourcesOf(srcs, images[i].body[j].key);
        }
        PutAllFrame(images[i].body, ws, Last, j);
      }
    }
  }

  // ---------------------------------------------------------------- regions or flavors, not both

  predicate Both(b: VersionConfig) {
    b.regions != [] && b.capabilityFlavors != []
  }

  predicate BringsRegions(srcs: seq<SourceImage>) {
    exists i :: 0 <= i < |srcs| && srcs[i].regions != []
  }

  lemma TouchEmpty(regions: RegionList, add: seq<RegionImage>)
    ensures Touch(regions, add) == [] <==> regions == [] && add == []
  {
    var ws := RegionWrites(add);
    var r := PutAll(regions, ws, First);
    NameThenIdOrder();
    SortSorts(r, NameThenId);
    SameMembers(Touch(regions, add), r);
    PutAllGrows(regions, ws, First);
    if add != [] {
      assert ws[0].key == add[0].region && ws[0].initial.Some?;
      assert Creates(ws, add[0].region);
      PutAllKeys(regions, ws, First, add[0].region);
    }
  }

  lemma {:induction false} TouchAllEmpty(regions: RegionList, srcs: seq<SourceImage>)
    ensures TouchAll(regions, srcs) == [] <==> regions == [] && !BringsRegions(srcs)
    decreases |srcs|
  {
    if srcs != [] {
      TouchEmpty(regions, srcs[0].regions);
      TouchAllEmpty(Touch(regions, srcs[0].regions), srcs[1..]);
      if BringsRegions(srcs[1..]) {
        var i :| 0 <= i < |srcs[1..]| && srcs[1..][i].regions != [];
        assert srcs[i + 1].regions != [];
      }
      if i :| 0 < i < |srcs| && srcs[i].regions != [] {
        assert srcs[1..][i - 1].regions != [];
      }
    }
  }

  lemma {:induction false} FlavorsEmpty(enable: bool, b: VersionConfig, srcs: seq<SourceImage>)
    ensures RunVersion(enable, b, srcs).capabilityFlavors == [] <==>
              b.capabilityFlavors == [] && !ClearsRegions(enable, srcs)
    decreases |srcs|
  {
    if srcs != [] {
      ClearsFirst(enable, srcs);
      FlavorsEmpty(enable, TouchVersion(enable, srcs[0], b), srcs[1..]);
    }
  }

  /** Exactly when an entry ends with both regions and flavors: it had or got a flavor, and either its
      old regions were never cleared, or a source without capabilities brings regions after the last
      source with capabilities. */
  lemma BothExactlyWhen(enable: bool, b: VersionConfig, srcs: seq<SourceImage>)
    ensures Both(RunVersion(enable, b, srcs)) <==>
              && (b.capabilityFlavors != [] || ClearsRegions(enable, srcs))
              && ((!ClearsRegions(enable, srcs) && b.regions != []) || BringsRegions(Tail(enable, srcs)))
  {
    RegionsAfter(enable, b, srcs);
    TouchAllEmpty(if ClearsRegions(enable, srcs) then [] else b.regions, Tail(enable, srcs));
    FlavorsEmpty(enable, b, srcs);
  }

  /** With capabilities enabled and present on every source, no entry gets both when none had both. */
  lemma RegionsAndFlavorsExclude(base: seq<ConfigVersion>, srcs: seq<SourceImage>)
    requires forall s :: s in srcs ==> s.capabilities.Some?
    requires forall i :: 0 <= i < |base| ==> !Both(base[i].body)
    ensures var r := PutAll(base, ConfigWrites(true, srcs), Last);
            forall i :: 0 <= i < |r| ==> !Both(r[i].body)
  {
    var ws := ConfigWrites(true, srcs);
    var r := PutAll(base, ws, Last);
    forall i | 0 <= i < |r| ensures !Both(r[i].body) {
      var k := r[i].key;
      if i < |base| && Locate(base, base[i].key, Last) != i {
        PutAllFrame(base, ws, Last, i);
      } else {
        if i < |base| {
          PutAllPrefix(base, ws, Last, i);
        } else {
          PutAllAppended(base, ws, Last, i);
        }
        assert Find(r, k, Last) == Some(r[i].body);
        PutAllFind(base, ws, Last, k);
        FoldVersion(true, Find(base, k, Last), srcs, k);
        var hits := SourcesOf(srcs, k);
        BothExactlyWhen(true, VersionOr(Find(base, k, Last)), hits);
        NoTail(hits);
      }
    }
  }

  lemma {:induction false} NoTail(srcs: seq<SourceImage>)
    requires forall s :: s in srcs ==> s.capabilities.Some?
    ensures Tail(true, srcs) == []
  {
    if srcs != [] {
      assert WritesFlavor(true, srcs[0]);
      assert forall s :: s in srcs[1..] ==> s in srcs;
      NoTail(srcs[1..]);
    }
  }

  // ---------------------------------------------------------------- sources the provider cannot tell apart

  /** The provider reads only the version, the capabilities and the last id per region. */
  ghost predicate SameForProvider(a: SourceImage, b: SourceImage) {
    && a.version == b.version && a.capabilities == b.capabilities
    && SameLastIds(a.regions, b.regions)
  }

  ghost predicate AllSameForProvider(a: seq<SourceImage>, b: seq<SourceImage>) {
    |a| == |b| && forall i :: 0 <= i < |a| ==> SameForProvider(a[i], b[i])
  }

  lemma TouchVersionSame(enable: bool, a: SourceImage, b: SourceImage, v: VersionConfig)
    requires SameForProvider(a, b)
    ensures TouchVersion(enable, a, v) == TouchVersion(enable, b, v)
  {
    if WritesFlavor(enable, a) {
      var i := Locate(v.capabilityFlavors, a.capabilities.value, First);
      TouchCongruent(if i == -1 then [] else v.capabilityFlavors[i].body, a.regions, b.regions);
    } else {
      TouchCongruent(v.regions, a.regions, b.regions);
    }
  }

  /** Such sources give the same configuration. */
  lemma ConfigureCongruent(enable: bool, base: seq<ConfigVersion>, a: seq<SourceImage>, b: seq<SourceImage>)
    requires AllSameForProvider(a, b)
    ensures PutAll(base, ConfigWrites(enable, a), Last) == PutAll(base, ConfigWrites(enable, b), Last)
  {
    var rel := (k: string, v: VersionConfig, w: VersionConfig) => v == w;
    var x, y := ConfigWrites(enable, a), ConfigWrites(enable, b);
    forall i | 0 <= i < |x| ensures RelatedWrite(x[i], y[i], rel) {
      TouchVersionSame(enable, a[i], b[i], EMPTY_VERSION);
      forall v, w | rel(x[i].key, v, w) ensures rel(x[i].key, x[i].update(v), y[i].update(w)) {
        TouchVersionSame(enable, a[i], b[i], v);
      }
    }
    PutAllRelated(base, base, x, y, Last, rel);
    var r, s := PutAll(base, x, Last), PutAll(base, y, Last);
    forall i | 0 <= i < |r| ensures r[i] == s[i] {
      assert rel(r[i].key, r[i].body, s[i].body);
    }
  }
}
