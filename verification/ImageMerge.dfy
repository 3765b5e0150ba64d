/** `ImageUpdater.Apply`: the keyed merge of source images into the versions of one machine image,
    through an index map, with two kinds of write that can hit the same entry. */
module ImageMerge {
  import opened Prelude
  import opened Keyed
  import opened IndexedLists
  import opened Images
  import opened Semver
  import opened CapabilitySets

  datatype Updater = Updater(imageName: string, enableCapabilities: bool, minVersionForUpdate: Option<string>)

  // ---------------------------------------------------------------- the two kinds of write

  function ResolveExpiration(src: SourceImage, existing: Option<Time>): Option<Time> {
    if existing.Some? then existing else src.expirationDate
  }

  function BuildInPlaceUpdates(supported: bool, minVersionForUpdate: Option<string>): Option<InPlaceUpdates> {
    if supported then Some(InPlaceUpdates(true, minVersionForUpdate)) else None
  }

  /** Architectures with those of `add` appended that are not there yet. */
  function Union(archs: seq<string>, add: seq<string>): (r: seq<string>)
    ensures archs <= r
    ensures forall a :: a in r <==> a in archs || a in add
    ensures (forall a :: a in add ==> a in archs) ==> r == archs
    decreases |add|
  {
    if add == [] then archs
    else Union(if add[0] in archs then archs else archs + [add[0]], add[1..])
  }

  /** The fields both kinds of write set in the same way. */
  function Restamped(u: Updater, src: SourceImage, b: VersionFields): VersionFields {
    b.(classification := src.classification,
       expirationDate := ResolveExpiration(src, b.expirationDate),
       inPlaceUpdates := BuildInPlaceUpdates(src.supportInPlaceUpdate, u.minVersionForUpdate))
  }

  const BLANK := VersionFields([], None, None, None, [], [], None)

  /** A legacy write overwrites the architectures. */
  function Legacy(u: Updater, src: SourceImage, b: VersionFields): VersionFields {
    Restamped(u, src, b).(architectures := src.architectures)
  }

  /** A clean-version write extends the architectures and merges the flavor. */
  function Clean(u: Updater, src: SourceImage, b: VersionFields): VersionFields {
    Restamped(u, src, b).(
      architectures := Union(b.architectures, src.architectures),
      capabilityFlavors := MergedFlavors(b.capabilityFlavors, src.capabilities))
  }

  /** A new clean-version entry takes over the architecture list as it is, repetitions included. */
  function NewClean(u: Updater, src: SourceImage): VersionFields {
    Clean(u, src, BLANK).(architectures := src.architectures)
  }

  type VersionWrite = Write<string, VersionFields>

  /** A tag that is not valid semver gets no new entry, but an entry that is there is refreshed. */
  function LegacyWrite(lib: Library, u: Updater, src: SourceImage): VersionWrite {
    Write(src.version, if lib.Valid(src.version) then Some(Legacy(u, src, BLANK)) else None, b => Legacy(u, src, b))
  }

  function CleanWrite(u: Updater, src: SourceImage): VersionWrite {
    Write(src.cleanVersion, Some(NewClean(u, src)), b => Clean(u, src, b))
  }

  predicate WritesClean(u: Updater, src: SourceImage) {
    u.enableCapabilities && src.cleanVersion != ""
  }

  function WritesOf(lib: Library, u: Updater, src: SourceImage): seq<VersionWrite> {
    [LegacyWrite(lib, u, src)] + if WritesClean(u, src) then [CleanWrite(u, src)] else []
  }

  function Writes(lib: Library, u: Updater, srcs: seq<SourceImage>): seq<VersionWrite> {
    if srcs == [] then [] else WritesOf(lib, u, srcs[0]) + Writes(lib, u, srcs[1..])
  }

  /** The versions of an image after merging `srcs`. */
  function Merged(lib: Library, u: Updater, versions: seq<ImageVersion>, srcs: seq<SourceImage>): seq<ImageVersion> {
    PutAll(versions, Writes(lib, u, srcs), Last)
  }

  method UpsertLegacyVersion(lib: Library, u: Updater, image: IndexedList<VersionFields>, src: SourceImage)
    requires image.Valid()
    modifies image
    ensures image.Valid() && image.entries == Put(old(image.entries), LegacyWrite(lib, u, src), Last)
  {
    if src.version in image.index {
      var idx := image.index[src.version];
      var v := image.entries[idx].body;
      v := v.(architectures := src.architectures);
      v := v.(classification := src.classification);
      v := v.(expirationDate := ResolveExpiration(src, v.expirationDate));
      v := v.(inPlaceUpdates := BuildInPlaceUpdates(src.supportInPlaceUpdate, u.minVersionForUpdate));
      image.Replace(idx, v);
      return;
    }
    if lib.parse(src.version).None? {
      return;
    }
    image.Append(src.version, BLANK.(
      architectures := src.architectures,
      classification := src.classification,
      expirationDate := src.expirationDate,
      inPlaceUpdates := BuildInPlaceUpdates(src.supportInPlaceUpdate, u.minVersionForUpdate)));
  }

  method UpsertCleanVersion(u: Updater, image: IndexedList<VersionFields>, src: SourceImage)
    requires image.Valid()
    modifies image
    ensures image.Valid() && image.entries == Put(old(image.entries), CleanWrite(u, src), Last)
  {
    if src.cleanVersion in image.index {
      var idx := image.index[src.cleanVersion];
      var existing := image.entries[idx].body;
      var archs := existing.architectures;
      for i := 0 to |src.architectures|
        invariant image.Valid() && image.entries == old(image.entries)
        invariant Union(archs, src.architectures[i..]) == Union(existing.architectures, src.architectures)
      {
        assert src.architectures[i..][1..] == src.architectures[i + 1..];
        if src.architectures[i] !in archs {
          archs := archs + [src.architectures[i]];
        }
      }
      existing := existing.(architectures := archs);
      existing := existing.(classification := src.classification);
      existing := existing.(expirationDate := ResolveExpiration(src, existing.expirationDate));
      existing := existing.(inPlaceUpdates := BuildInPlaceUpdates(src.supportInPlaceUpdate, u.minVersionForUpdate));
      var flavors := MergeCapabilityFlavor(existing.capabilityFlavors, src.capabilities);
      existing := existing.(capabilityFlavors := flavors);
      image.Replace(idx, existing);
      return;
    }
    var flavors := MergeCapabilityFlavor([], src.capabilities);
    image.Append(src.cleanVersion, BLANK.(
      architectures := src.architectures,
      classification := src.classification,
      expirationDate := src.expirationDate,
      capabilityFlavors := flavors,
      inPlaceUpdates := BuildInPlaceUpdates(src.supportInPlaceUpdate, u.minVersionForUpdate)));
  }

  // ---------------------------------------------------------------- Apply

  function FilteredSources(srcs: seq<SourceImage>, allowed: map<string, set<string>>): (r: seq<SourceImage>)
    ensures |r| == |srcs|
    ensures forall i :: 0 <= i < |srcs| ==> r[i] == srcs[i].(capabilities := Filtered(srcs[i].capabilities, allowed))
  {
    seq(|srcs|, i requires 0 <= i < |srcs| => srcs[i].(capabilities := Filtered(srcs[i].capabilities, allowed)))
  }

  /** The edit `Apply` makes to the list of machine images. */
  function ImageEdit(lib: Library, u: Updater, srcs: seq<SourceImage>): Write<string, ImageFields> {
    Write(u.imageName, Some(NEW_IMAGE.(versions := Merged(lib, u, [], srcs))),
          (img: ImageFields) => img.(versions := Merged(lib, u, img.versions, srcs)))
  }

  /** A provider maps the current provider configuration, if any, to the new one. */
  type Provider<!C> = (Option<C>, seq<SourceImage>) -> C

  method FilterSources(
      sourceImages: seq<SourceImage>, capabilities: seq<CapabilityDefinition>) returns (srcs: seq<SourceImage>)
    ensures srcs == FilteredSources(sourceImages, Declared(capabilities))
  {
    var allowed := AllowedCapabilityValues(capabilities);
    srcs := sourceImages;
    for i := 0 to |srcs|
      invariant |srcs| == |sourceImages|
      invariant forall j :: 0 <= j < i ==>
                  srcs[j] == sourceImages[j].(capabilities := Filtered(sourceImages[j].capabilities, allowed))
      invariant forall j :: i <= j < |srcs| ==> srcs[j] == sourceImages[j]
    {
      var caps := FilterCapabilities(srcs[i].capabilities, allowed);
      srcs := srcs[i := srcs[i].(capabilities := caps)];
    }
  }

  /** The loop of `Apply` over the source images refines the keyed merge. */
  method MergeSources(lib: Library, u: Updater, base: seq<ImageVersion>, srcs: seq<SourceImage>)
    returns (versions: seq<ImageVersion>)
    ensures versions == Merged(lib, u, base, srcs)
  {
    var image := new IndexedList(base);
    for i := 0 to |srcs|
      invariant image.Valid()
      invariant Merged(lib, u, image.entries, srcs[i..]) == Merged(lib, u, base, srcs)
    {
      MergeStep(lib, u, image.entries, srcs, i);
      UpsertLegacyVersion(lib, u, image, srcs[i]);
      if u.enableCapabilities && srcs[i].cleanVersion != "" {
        UpsertCleanVersion(u, image, srcs[i]);
      }
    }
    versions := image.entries;
  }

  method Apply<C>(
    lib: Library, u: Updater, provider: Option<Provider<C>>, capabilities: seq<CapabilityDefinition>,
    baseImages: seq<MachineImage>, baseConfig: Option<C>, sourceImages: seq<SourceImage>)
    returns (images: seq<MachineImage>, config: Option<C>)
    ensures images == Put(baseImages, ImageEdit(lib, u, FilteredSources(sourceImages, Declared(capabilities))), First)
    ensures config == if provider.None? then baseConfig
                      else Some(provider.value(baseConfig, FilteredSources(sourceImages, Declared(capabilities))))
  {
    images, config := baseImages, baseConfig;
    var srcs := FilterSources(sourceImages, capabilities);
    var imageIndex := Locate(images, u.imageName, First);
    if imageIndex == -1 {
      images := images + [Entry(u.imageName, NEW_IMAGE)];
      imageIndex := |images| - 1;
    }
    var image := images[imageIndex].body;
    var versions := MergeSources(lib, u, image.versions, srcs);
    images := images[imageIndex := Entry(u.imageName, image.(versions := versions))];
    if provider.Some? {
      config := Some(provider.value(config, srcs));
    }
  }

  lemma MergeStep(lib: Library, u: Updater, versions: seq<ImageVersion>, srcs: seq<SourceImage>, i: nat)
    requires i < |srcs|
    ensures var legacy := Put(versions, LegacyWrite(lib, u, srcs[i]), Last);
            Merged(lib, u, versions, srcs[i..]) ==
            Merged(lib, u, if WritesClean(u, srcs[i]) then Put(legacy, CleanWrite(u, srcs[i]), Last) else legacy,
                srcs[i + 1..])
  {
    var rest := Writes(lib, u, srcs[i + 1..]);
    assert srcs[i..][0] == srcs[i] && srcs[i..][1..] == srcs[i + 1..];
    var ws := WritesOf(lib, u, srcs[i]) + rest;
    assert Writes(lib, u, srcs[i..]) == ws;
    if WritesClean(u, srcs[i]) {
      assert ws == [LegacyWrite(lib, u, srcs[i]), CleanWrite(u, srcs[i])] + rest;
      assert ws[1..] == [CleanWrite(u, srcs[i])] + rest && ws[1..][1..] == rest;
      var legacy := Put(versions, ws[0], Last);
      assert PutAll(legacy, ws[1..], Last) == PutAll(Put(legacy, ws[1..][0], Last), ws[1..][1..], Last);
    } else {
      assert ws == [LegacyWrite(lib, u, srcs[i])] + rest;
      assert ws[1..] == rest;
    }
  }
}
