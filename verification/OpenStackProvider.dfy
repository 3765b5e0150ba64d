/** The OpenStack provider: nested upserts of versions, flavors and regions into the provider
    configuration, each touched region list sorted afterwards. */
module OpenStackProvider {
  import opened Prelude
  import opened Sorting
  import opened Keyed
  import opened IndexedLists
  import opened Images
  import opened CapabilitySets

  /** A region mapping: the key is the region name, the body the image id. */
  type RegionIDMapping = Entry<string, string>
  type RegionList = seq<RegionIDMapping>

  /** A flavor: the key is its capabilities, the body its regions. */
  type Flavor = Entry<Capabilities, RegionList>

  datatype VersionConfig = VersionConfig(regions: RegionList, capabilityFlavors: seq<Flavor>)

  type ConfigVersion = Entry<string, VersionConfig>

  type ConfigImage = Entry<string, seq<ConfigVersion>>

  /** `rest` stands for the fields of the configuration other than its machine images. */
  datatype CloudProfileConfig = CloudProfileConfig(machineImages: seq<ConfigImage>, rest: string)

  const EMPTY_VERSION := VersionConfig([], [])
  const EMPTY_CONFIG := CloudProfileConfig([], "")

  datatype OpenStack = OpenStack(imageName: string, enableCapabilities: bool)

  // ---------------------------------------------------------------- region lists

  predicate NameThenId(a: RegionIDMapping, b: RegionIDMapping) {
    if a.key != b.key then AtMost(a.key, b.key) else AtMost(a.body, b.body)
  }

  lemma NameThenIdOrder()
    ensures TotalPreorder(NameThenId)
    ensures forall a, b :: NameThenId(a, b) && NameThenId(b, a) ==> a == b
  {
    forall a, b ensures (NameThenId(a, b) || NameThenId(b, a)) && (NameThenId(a, b) && NameThenId(b, a) ==> a == b) {
      AtMostTotal(a.key, b.key);
      AtMostTotal(a.body, b.body);
    }
    forall a, b, c | NameThenId(a, b) && NameThenId(b, c) ensures NameThenId(a, c) {
      AtMostTotal(a.key, b.key);
      AtMostTotal(b.key, c.key);
      if AtMost(a.key, b.key) && AtMost(b.key, c.key) {
        AtMostTransitive(a.key, b.key, c.key);
      }
      if AtMost(a.body, b.body) && AtMost(b.body, c.body) {
        AtMostTransitive(a.body, b.body, c.body);
      }
    }
  }

  function RegionWrite(r: RegionImage): Write<string, string> {
    Write(r.region, Some(r.id), _ => r.id)
  }

  function RegionWrites(regions: seq<RegionImage>): (ws: seq<Write<string, string>>)
    ensures |ws| == |regions| && forall i :: 0 <= i < |ws| ==> ws[i] == RegionWrite(regions[i])
  {
    seq(|regions|, i requires 0 <= i < |regions| => RegionWrite(regions[i]))
  }

  /** A region list after upserting `add` and sorting. */
  function Touch(regions: RegionList, add: seq<RegionImage>): RegionList {
    Sort(PutAll(regions, RegionWrites(add), First), NameThenId)
  }

  method UpsertRegion(regions: RegionList, name: string, id: string) returns (r: RegionList)
    ensures r == Put(regions, RegionWrite(RegionImage(name, id)), First)
  {
    for i := 0 to |regions|
      invariant forall j :: 0 <= j < i ==> regions[j].key != name
    {
      if regions[i].key == name {
        return regions[i := regions[i].(body := id)];
      }
    }
    return regions + [Entry(name, id)];
  }

  method SortRegions(regions: RegionList) returns (r: RegionList)
    ensures r == Sort(regions, NameThenId)
  {
    NameThenIdOrder();
    r := SortFunc(regions, NameThenId);
    SortSorts(regions, NameThenId);
    SortUnique(r, Sort(regions, NameThenId), NameThenId);
  }

  method TouchRegions(regions: RegionList, add: seq<RegionImage>) returns (r: RegionList)
    ensures r == Touch(regions, add)
  {
    r := regions;
    ghost var ws := RegionWrites(add);
    for i := 0 to |add|
      invariant PutAll(r, ws[i..], First) == PutAll(regions, ws, First)
    {
      assert ws[i..][1..] == ws[i + 1..];
      r := UpsertRegion(r, add[i].region, add[i].id);
    }
    r := SortRegions(r);
  }

  // ---------------------------------------------------------------- versions

  /** `src` writes a flavor, and clears the plain regions, rather than plain regions. */
  predicate WritesFlavor(enable: bool, src: SourceImage) {
    enable && src.capabilities.Some?
  }

  function FlavorWrite(src: SourceImage): Write<Capabilities, RegionList>
    requires src.capabilities.Some?
  {
    Write(src.capabilities.value, Some(Touch([], src.regions)), regions => Touch(regions, src.regions))
  }

  function TouchVersion(enable: bool, src: SourceImage, b: VersionConfig): VersionConfig {
    if WritesFlavor(enable, src) then VersionConfig([], Put(b.capabilityFlavors, FlavorWrite(src), First))
    else b.(regions := Touch(b.regions, src.regions))
  }

  function ConfigWrite(enable: bool, src: SourceImage): Write<string, VersionConfig> {
    Write(src.version, Some(TouchVersion(enable, src, EMPTY_VERSION)), b => TouchVersion(enable, src, b))
  }

  function ConfigWrites(enable: bool, srcs: seq<SourceImage>): (ws: seq<Write<string, VersionConfig>>)
    ensures |ws| == |srcs| && forall i :: 0 <= i < |ws| ==> ws[i] == ConfigWrite(enable, srcs[i])
  {
    seq(|srcs|, i requires 0 <= i < |srcs| => ConfigWrite(enable, srcs[i]))
  }

  /** The first flavor with equal capabilities, -1 when there is none. */
  method FlavorIndex(flavors: seq<Flavor>, caps: Capabilities) returns (idx: int)
    ensures idx == Locate(flavors, caps, First)
  {
    for i := 0 to |flavors|
      invariant forall j :: 0 <= j < i ==> flavors[j].key != caps
    {
      var equal := CapabilitiesEqual(flavors[i].key, caps);
      if equal {
        return i;
      }
    }
    return -1;
  }

  method ConfigureVersion(enable: bool, src: SourceImage, b: VersionConfig) returns (entry: VersionConfig)
    ensures entry == TouchVersion(enable, src, b)
  {
    entry := b;
    if enable && src.capabilities.Some? {
      entry := entry.(regions := []);
      var flavorIdx := FlavorIndex(entry.capabilityFlavors, src.capabilities.value);
      if flavorIdx == -1 {
        flavorIdx := |entry.capabilityFlavors|;
        entry := entry.(capabilityFlavors := entry.capabilityFlavors + [Entry(src.capabilities.value, [])]);
      }
      var flavor := entry.capabilityFlavors[flavorIdx];
      var regions := TouchRegions(flavor.body, src.regions);
      entry := entry.(capabilityFlavors := entry.capabilityFlavors[flavorIdx := flavor.(body := regions)]);
    } else {
      var regions := TouchRegions(entry.regions, src.regions);
      entry := entry.(regions := regions);
    }
  }

  /** One source: its version is appended when the index map does not know it, then configured. */
  method ConfigureSource(enable: bool, image: IndexedList<VersionConfig>, src: SourceImage)
    requires image.Valid()
    modifies image
    ensures image.Valid() && image.entries == Put(old(image.entries), ConfigWrite(enable, src), Last)
  {
    var idx;
    if src.version !in image.index {
      idx := |image.entries|;
      image.Append(src.version, EMPTY_VERSION);
    } else {
      idx := image.index[src.version];
    }
    var entry := ConfigureVersion(enable, src, image.entries[idx].body);
    image.Replace(idx, entry);
  }

  method ConfigureVersions(
      enable: bool, base: seq<ConfigVersion>, srcs: seq<SourceImage>) returns (versions: seq<ConfigVersion>)
    ensures versions == PutAll(base, ConfigWrites(enable, srcs), Last)
  {
    var image := new IndexedList(base);
    ghost var ws := ConfigWrites(enable, srcs);
    for i := 0 to |srcs|
      invariant image.Valid()
      invariant PutAll(image.entries, ws[i..], Last) == PutAll(base, ws, Last)
    {
      assert ws[i..][1..] == ws[i + 1..];
      ConfigureSource(enable, image, srcs[i]);
    }
    versions := image.entries;
  }

  // ---------------------------------------------------------------- the whole configuration

  function ConfigEdit(p: OpenStack, srcs: seq<SourceImage>): Write<string, seq<ConfigVersion>> {
    Write(p.imageName, Some(PutAll([], ConfigWrites(p.enableCapabilities, srcs), Last)),
          versions => PutAll(versions, ConfigWrites(p.enableCapabilities, srcs), Last))
  }

  function Configured(p: OpenStack, config: Option<CloudProfileConfig>, srcs: seq<SourceImage>): CloudProfileConfig {
    var cfg := if config.Some? then config.value else EMPTY_CONFIG;
    cfg.(machineImages := Put(cfg.machineImages, ConfigEdit(p, srcs), First))
  }

  method Configure(
      p: OpenStack, config: Option<CloudProfileConfig>, srcs: seq<SourceImage>) returns (cfg: CloudProfileConfig)
    ensures cfg == Configured(p, config, srcs)
  {
    cfg := EMPTY_CONFIG;
    if config.Some? {
      cfg := config.value;
    }
    var images := cfg.machineImages;
    var imageIndex := Locate(images, p.imageName, First);
    if imageIndex == -1 {
      imageIndex := |images|;
      images := images + [Entry(p.imageName, [])];
    }
    var versions := ConfigureVersions(p.enableCapabilities, images[imageIndex].body, srcs);
    images := images[imageIndex := images[imageIndex].(body := versions)];
    cfg := cfg.(machineImages := images);
  }
}
