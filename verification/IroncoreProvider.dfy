/** The Ironcore provider: a flat entry per tag and architecture, and flavors grouped under the clean
    version through an index map that flat entries deliberately do not update. */
module IroncoreProvider {
  import opened Prelude
  import opened Keyed
  import opened Images

  datatype MetalFlavor = MetalFlavor(image: string, capabilities: Capabilities)

  /** The fields of a version entry; a flavor group has no image and no architecture of its own. */
  datatype MetalVersion = MetalVersion(image: string, architecture: Option<string>, capabilityFlavors: seq<MetalFlavor>)

  type MetalEntry = Entry<string, MetalVersion>

  /** `rest` stands for the fields of the configuration other than its machine images. */
  datatype MetalConfig = MetalConfig(machineImages: seq<Entry<string, seq<MetalEntry>>>, rest: string)

  const EMPTY_CONFIG := MetalConfig([], "")

  datatype Ironcore = Ironcore(registry: string, repository: string, imageName: string, enableCapabilities: bool) {

    function Ref(version: string): string {
      registry + "/" + repository + ":" + version
    }

    predicate WritesFlavor(src: SourceImage) {
      enableCapabilities && src.capabilities.Some? && src.cleanVersion != "" && src.cleanVersion != src.version
    }
  }

  /** The versions of the image and the partial index map. */
  datatype State = State(versions: seq<MetalEntry>, index: map<string, nat>)

  predicate Covered(versions: seq<MetalEntry>, ref: string, arch: string) {
    exists i :: 0 <= i < |versions| && versions[i].body.image == ref && versions[i].body.architecture == Some(arch)
  }

  lemma CoveredAppend(versions: seq<MetalEntry>, e: MetalEntry, r: string, a: string)
    ensures Covered(versions + [e], r, a) <==>
              Covered(versions, r, a) || (e.body.image == r && e.body.architecture == Some(a))
  {
    var s := versions + [e];
    if Covered(versions, r, a) {
      var i :| 0 <= i < |versions| && versions[i].body.image == r && versions[i].body.architecture == Some(a);
      assert s[i] == versions[i];
    }
    assert s[|versions|] == e;
  }

  predicate HasImage(flavors: seq<MetalFlavor>, ref: string) {
    exists i :: 0 <= i < |flavors| && flavors[i].image == ref
  }

  function AddFlat(versions: seq<MetalEntry>, version: string, ref: string, archs: seq<string>): seq<MetalEntry>
    decreases |archs|
  {
    if archs == [] then versions
    else AddFlat(if Covered(versions, ref, archs[0]) then versions
                 else versions + [Entry(version, MetalVersion(ref, Some(archs[0]), []))], version, ref, archs[1..])
  }

  /** The index only ever points at an entry of its version. */
  ghost predicate Pointing(st: State) {
    forall k :: k in st.index ==> st.index[k] < |st.versions| && st.versions[st.index[k]].key == k
  }

  function AddFlavor(st: State, clean: string, flavor: MetalFlavor): State
    requires Pointing(st)
  {
    if clean in st.index then
      var e := st.versions[st.index[clean]];
      if HasImage(e.body.capabilityFlavors, flavor.image) then st
      else
        var body := e.body.(capabilityFlavors := e.body.capabilityFlavors + [flavor]);
        st.(versions := st.versions[st.index[clean] := e.(body := body)])
    else
      State(st.versions + [Entry(clean, MetalVersion("", None, [flavor]))], st.index[clean := |st.versions|])
  }

  lemma {:induction false} AddFlatPrefix(versions: seq<MetalEntry>, version: string, ref: string, archs: seq<string>)
    ensures versions <= AddFlat(versions, version, ref, archs)
    ensures forall i :: |versions| <= i < |AddFlat(versions, version, ref, archs)| ==>
              var e := AddFlat(versions, version, ref, archs)[i];
              e.key == version && e.body.image == ref && e.body.capabilityFlavors == [] && e.body.architecture.Some?
    decreases |archs|
  {
    if archs != [] {
      AddFlatPrefix(if Covered(versions, ref, archs[0]) then versions
                    else versions + [Entry(version, MetalVersion(ref, Some(archs[0]), []))], version, ref, archs[1..]);
    }
  }

  function Flat(p: Ironcore, st: State, src: SourceImage): (r: State)
    requires Pointing(st)
    ensures Pointing(r)
  {
    AddFlatPrefix(st.versions, src.version, p.Ref(src.version), src.architectures);
    st.(versions := AddFlat(st.versions, src.version, p.Ref(src.version), src.architectures))
  }

  function Step(p: Ironcore, st: State, src: SourceImage): (r: State)
    requires Pointing(st)
    ensures Pointing(r)
  {
    if p.WritesFlavor(src) then
      AddFlavor(Flat(p, st, src), src.cleanVersion, MetalFlavor(p.Ref(src.version), src.capabilities.value))
    else Flat(p, st, src)
  }

  function Run(p: Ironcore, st: State, srcs: seq<SourceImage>): (r: State)
    requires Pointing(st)
    ensures Pointing(r)
    decreases |srcs|
  {
    if srcs == [] then st else Step(p, Run(p, st, srcs[..|srcs| - 1]), srcs[|srcs| - 1])
  }

  /** The index the loop starts with: the last entry of each version. */
  ghost predicate Indexes(versions: seq<MetalEntry>, index: map<string, nat>) {
    && (forall k :: k in index <==> Locate(versions, k, Last) != -1)
    && (forall k :: k in index ==> index[k] == Locate(versions, k, Last))
  }

  function FullIndex(versions: seq<MetalEntry>): (index: map<string, nat>)
    ensures Indexes(versions, index)
  {
    map i | 0 <= i < |versions| && Locate(versions, versions[i].key, Last) == i :: versions[i].key := i
  }

  function Start(versions: seq<MetalEntry>): (st: State)
    ensures Pointing(st)
  {
    State(versions, FullIndex(versions))
  }

  /** The versions of the image after `Configure`. */
  function ConfiguredVersions(p: Ironcore, base: seq<MetalEntry>, srcs: seq<SourceImage>): seq<MetalEntry> {
    Run(p, Start(base), srcs).versions
  }

  /** The image under edit. */
  class MetalImage {
    var versions: seq<MetalEntry>
    var existingVersions: map<string, nat>

    function Abstract(): State
      reads this
    {
      State(versions, existingVersions)
    }

    constructor (base: seq<MetalEntry>)
      ensures Abstract() == Start(base)
    {
      versions, existingVersions := base, map[];
      new;
      var i := 0;
      while i < |base|
        invariant 0 <= i <= |base| && versions == base
        invariant Indexes(base[..i], existingVersions)
      {
        assert base[..i + 1][..i] == base[..i];
        existingVersions := existingVersions[base[i].key := i];
        i := i + 1;
      }
      assert base[..i] == base;
      assert existingVersions == FullIndex(base);
    }

    method WriteFlat(ref: string, src: SourceImage)
      modifies `versions
      ensures versions == AddFlat(old(versions), src.version, ref, src.architectures)
    {
      for i := 0 to |src.architectures|
        invariant AddFlat(versions, src.version, ref, src.architectures[i..]) ==
                    AddFlat(old(versions), src.version, ref, src.architectures)
      {
        var arch := src.architectures[i];
        assert src.architectures[i..][1..] == src.architectures[i + 1..];
        var alreadyPresent := false;
        ghost var current := versions;
        for j := 0 to |versions|
          invariant versions == current
          invariant alreadyPresent <==> Covered(versions[..j], ref, arch)
        {
          assert versions[..j + 1] == versions[..j] + [versions[j]];
          CoveredAppend(versions[..j], versions[j], ref, arch);
          if versions[j].body.image == ref && versions[j].body.architecture == Some(arch) {
            alreadyPresent := true;
          }
        }
        assert versions[..|versions|] == versions;
        if !alreadyPresent {
          versions := versions + [Entry(src.version, MetalVersion(ref, Some(arch), []))];
        }
      }
    }

    method WriteFlavor(clean: string, flavor: MetalFlavor)
      requires Pointing(Abstract())
      modifies this
      ensures Abstract() == AddFlavor(old(Abstract()), clean, flavor)
    {
      if clean in existingVersions {
        var idx := existingVersions[clean];
        var existing := versions[idx].body;
        var alreadyPresent := exists i ::
          0 <= i < |existing.capabilityFlavors| && existing.capabilityFlavors[i].image == flavor.image;
        if !alreadyPresent {
          existing := existing.(capabilityFlavors := existing.capabilityFlavors + [flavor]);
          versions := versions[idx := versions[idx].(body := existing)];
        }
      } else {
        var idx := |versions|;
        versions := versions + [Entry(clean, MetalVersion("", None, [flavor]))];
        existingVersions := existingVersions[clean := idx];
      }
    }
  }

  method ConfigureVersions(
      p: Ironcore, base: seq<MetalEntry>, srcs: seq<SourceImage>) returns (versions: seq<MetalEntry>)
    ensures versions == ConfiguredVersions(p, base, srcs)
  {
    var image := new MetalImage(base);
    for i := 0 to |srcs|
      invariant image.Abstract() == Run(p, Start(base), srcs[..i])
    {
      var src := srcs[i];
      ghost var st := image.Abstract();
      assert srcs[..i + 1][..i] == srcs[..i];
      var ref := p.registry + "/" + p.repository + ":" + src.version;
      image.WriteFlat(ref, src);
      assert image.Abstract() == Flat(p, st, src);
      if p.enableCapabilities && src.capabilities.Some? && src.cleanVersion != "" && src.cleanVersion != src.version {
        image.WriteFlavor(src.cleanVersion, MetalFlavor(ref, src.capabilities.value));
      }
      assert image.Abstract() == Step(p, st, src);
    }
    assert srcs[..|srcs|] == srcs;
    versions := image.versions;
  }

  function ConfigEdit(p: Ironcore, srcs: seq<SourceImage>): Write<string, seq<MetalEntry>> {
    Write(p.imageName, Some(ConfiguredVersions(p, [], srcs)), versions => ConfiguredVersions(p, versions, srcs))
  }

  function Configured(p: Ironcore, config: Option<MetalConfig>, srcs: seq<SourceImage>): MetalConfig {
    var cfg := if config.Some? then config.value else EMPTY_CONFIG;
    cfg.(machineImages := Put(cfg.machineImages, ConfigEdit(p, srcs), First))
  }

  method Configure(p: Ironcore, config: Option<MetalConfig>, srcs: seq<SourceImage>) returns (cfg: MetalConfig)
    ensures cfg == Configured(p, config, srcs)
  {
    cfg := EMPTY_CONFIG;
    if config.Some? {
      cfg := config.value;
    }
    var images := cfg.machineImages;
    var imageIndex := Locate(images, p.imageName, First);
    if imageIndex == -1 {
      imageIndex := |images|;
      images := images + [Entry(p.imageName, [])];
    }
    var versions := ConfigureVersions(p, images[imageIndex].body, srcs);
    images := images[imageIndex := images[imageIndex].(body := versions)];
    cfg := cfg.(machineImages := images);
  }
}
