/** The entities that flow through the synchronisation: what a source reports, and the machine
    images of a cloud profile. */
module Images {
  import opened Prelude
  import opened Keyed

  type Time = int

  /** Ordered value lists by capability name. */
  type Capabilities = map<string, seq<string>>

  const ARCHITECTURE_CAPABILITY := "architecture"
  const SUPPORTED := "supported"
  const DEPRECATED := "deprecated"

  datatype RegionImage = RegionImage(region: string, id: string)

  /** `capabilities` is `None` for the nil map of images that predate capability annotations. */
  datatype SourceImage = SourceImage(
    version: string,
    cleanVersion: string,
    architectures: seq<string>,
    capabilities: Option<Capabilities>,
    supportInPlaceUpdate: bool,
    regions: seq<RegionImage>,
    classification: Option<string>,
    expirationDate: Option<Time>)
  {
    function EffectiveVersion(): string {
      if cleanVersion != "" then cleanVersion else version
    }
  }

  datatype InPlaceUpdates = InPlaceUpdates(supported: bool, minVersionForUpdate: Option<string>)

  /** A machine image version is an `Entry` whose key is the version string. */
  datatype VersionFields = VersionFields(
    architectures: seq<string>,
    classification: Option<string>,
    expirationDate: Option<Time>,
    inPlaceUpdates: Option<InPlaceUpdates>,
    capabilityFlavors: seq<Capabilities>,
    cri: seq<string>,
    kubeletVersionConstraint: Option<string>)
  {
    predicate Deprecated() {
      classification == Some(DEPRECATED)
    }
  }

  type ImageVersion = Entry<string, VersionFields>

  /** A machine image is an `Entry` whose key is the image name. */
  datatype ImageFields = ImageFields(updateStrategy: Option<string>, versions: seq<ImageVersion>)

  type MachineImage = Entry<string, ImageFields>

  const NEW_IMAGE := ImageFields(None, [])

  datatype CapabilityDefinition = CapabilityDefinition(name: string, values: seq<string>)
}
