# Verification of the cloud profile synchronisation

The controller keeps the machine images of Gardener cloud profiles in step with what registries and
OpenStack regions offer. One pipeline does the work: a source reports images, the updater validates,
sorts and filters them, merges them by version into the machine images of a profile, a provider writes
them into the provider configuration, and the reconcile step carries expiration dates over from the
stored profile and patches the status. This project models that pipeline and proves that its result does
not depend on scheduling, on map iteration order or on the clock where it should not, exactly when
repeating a reconcile changes nothing, and what exactly each merge leaves behind.

`dafny verify dfyconfig.toml` checks everything.

## How the model is built

- `Prelude`, `Sorting`: filtering and permutations of sequences; a library sort is any ordered
  permutation, so nothing relies on a stable sort.
- `Keyed`, `IndexedLists`: one theory of upserts into lists of keyed entries. Images by name, versions by
  version string, flavors by capabilities, regions by name and conditions by type are all such lists. The
  class `IndexedList` holds a list with its `version -> index` map. The list is proved to refine a fold
  per key that knows neither lists nor indices.
- `Images`, `Semver`, `CapabilitySets`: the entities, version precedence after section 11 of Semantic
  Versioning 2.0.0, and capability maps. The parsing library is a value `Library` with the laws
  `Lawful()`: canonical strings are valid and stable, and valid strings are non-empty and hold no slash.
- `ImageUpdater`, `ImageMerge`, `MergeTheorems`, `MergedFields`: validation, `Fetch` and `Apply`.
- `OpenStackProvider`, `OpenStackTheorems`, `ConfigTheorems`, `IroncoreProvider`, `IroncoreTheorems`,
  `IroncoreOrigins`: the two providers.
- `GarbageCollection`, `ProtectedVersions`: the filter, what it protects, and that it stays in the stored
  profile.
- `WorkerProtocol`: workers, semaphore, channel and collector as a step system with both wirings.
- `OciSource`, `GlanceSource`, `GlanceTheorems`: the two image sources.
- `RankWindows`: which elements a window of a sorted list with ties holds, in all sorted orders. A window is
  decided when it is empty, or no class of ties lies across its lower edge and the element at its last rank
  ties with no other.
- `OciCollection`: one repository fetched at two times, with a cutoff that moves on.
- `AlikeSources`, `GlanceEndToEnd`: sources that differ only in the order of regions and in the date of a
  deprecated version, followed from the workers to the fetched images and the profile.
- `CloudProfile`, `CloudProfileTheorems`, `ProviderChains`, `SteadyState`: the update chain, the pause,
  the carry-over, the stored profile, and what holds over whole runs.
- `EndToEnd`, `DroppedVersions`: registries and regions, reconciled twice, and what the second time drops.
- `StatusConditions`, `LandscapeSource`: conditions and the choice of the Kubernetes version tag.

Methods carry the loops and the state of the source and are proved against functions; the theorems are
about those functions. Time is an integer, network and API results are parameters, and a walk over a map
picks its keys in any order.

## Where code and documentation part, or a natural property fails

- `filterRequireRegions` is documented to require every region that was queried successfully. The code
  requires every region that contributed an image: a region that answered with nothing recognisable is
  ignored (`EmptyRegionIsIgnored`). `RequiredRegionsIntersect` says exactly when the two agree.
- With garbage collection on, a second reconcile can drop a version although the registry and the versions
  in use are unchanged, because the cutoff has moved (`OciCollection.CutoffMovesOn`,
  `EndToEnd.CollectionMovesTheProfile`). `OciCollection.FetchFixedExactly` says exactly when both fetches
  agree. An image that ages is not enough to drop its versions from the stored profile:
  `DroppedVersions.DroppedExactly` says exactly which versions go.
- What a Glance fetch returns is not determined when versions tie in precedence at an edge of the window,
  even for one fixed arrival order, because the merged versions are listed in map order and sorted by an
  unstable sort (`GlanceEndToEnd.TiesLeaveAChoice`). `GlanceEndToEnd.FetchFixedExactly` gives the exact
  condition; ties elsewhere do no harm.
- A second reconcile at a later time moves a date when two updates name the same image and one supports
  what the other deprecates (`EndToEnd.TwoUpdatesDrift`). `SecondReconcileExactly` gives the exact condition
  by the base and the fetched images, and one update per image is enough for it
  (`SecondReconcileChangesNothing`).
- The string key of the carry-over identifies a version exactly when it has no slash
  (`KeyIdentifiesExactly`); two versions that share a key take each other's date (`SharedKeyMovesDates`).
  `SticksExactly` says exactly when a stored date survives whatever comes next, `CarriedToSelfExactly`
  exactly when storing the same images again changes nothing.
- `Configure` of the OpenStack provider is not idempotent in general, because the sort can move another
  mapping of a repeated region name to the front. For all mappings it is exactly when names are unique
  (`TouchIdempotentIffUnique`, `ConfigureIdempotentIffUnique`), for given ones exactly when no smaller id
  is hidden behind the first mapping of the name (`TouchTwiceExactly`,
  `ConfigTheorems.ConfigureIdempotentExactly`).
- `Configure` of the Ironcore provider is not idempotent in general: `ClashBreaksIdempotence` is the
  smallest failing input and `IroncoreTheorems.ConfigureIdempotentExactly` the exact condition.
- `upsertCleanVersion` is described as appending to the flavors without touching other fields when it comes
  right after the legacy write of the same source to the same entry, and then it does. For an entry in
  general it also extends the architectures and rewrites classification, date and in-place updates
  (`CleanWriteChangesMore`); `CleanWriteOnlyFlavorsExactly` says exactly when it does not.
- The capability map of an OCI image is independent of map iteration order exactly when features that
  share a capability name agree (`CapabilitiesIndependentOfOrder`).
- Major and minor are compared as strings, so a leading "v" on one side only is a mismatch
  (`MinorVersionsMatchExactly`).

## Model

| member | source | states |
|---|---|---|
| `CapabilitySets.CapabilitiesEqual` | cloudprofilesync/ossync/capabilities.go:24-38 | the size check and the scan of one side, in any order, decide equality of the two maps |
| `CapabilitySets.MergedFlavors` | cloudprofilesync/ossync/capabilities.go:42-52 | flavors are only appended, a non-empty capability map is among them afterwards and is the only one that may be new, one that is there changes nothing, distinct flavors stay distinct |
| `CapabilitySets.MergeCapabilityFlavor` | cloudprofilesync/ossync/capabilities.go:42-52 | the scan computes the merged flavors |
| `CapabilitySets.AllowedCapabilityValues` | cloudprofilesync/ossync/capabilities.go:57-67 | the declared values per capability, a later definition replacing an earlier one |
| `CapabilitySets.DeclaredExactly` | cloudprofilesync/ossync/capabilities.go:57-67 | exactly the names some definition has, each with the values of the last definition of the name |
| `CapabilitySets.FilterCapabilities` | cloudprofilesync/ossync/capabilities.go:73-97 | the walk in any map order computes the declared part, or nothing when it is empty or nothing is declared |
| `CapabilitySets.FilteringKeepsOrder` | cloudprofilesync/ossync/capabilities.go:73-97 | exactly the declared values of each capability survive, in source order, and a capability is dropped exactly when none does |
| `CapabilitySets.FilteredExactly` | cloudprofilesync/ossync/capabilities.go:73-97 | nothing remains exactly when no value is declared, and otherwise exactly the capabilities with a declared value |
| `Semver.Precedence` | cloudprofilesync/ossync/source/glance/os_source.go:349-361 | precedence is a total preorder that ties exactly the versions differing in build metadata alone |
| `Semver.PrecedenceExactly` | cloudprofilesync/ossync/source/glance/os_source.go:349-361 | a version is strictly older exactly by the rules of section 11: smaller numbers, a pre-release before its release, numeric identifiers as numbers and before others, others in byte order, and a proper prefix first |
| `Semver.NewestFirstExactly` | cloudprofilesync/ossync/source/glance/os_source.go:349-361 | `compareSemverDesc` puts a string strictly first exactly when only it can be read, or the other is older, or neither can be read and it comes first in byte order |
| `Semver.NewestFirstPreorder` | cloudprofilesync/ossync/source/glance/os_source.go:349-361 | `compareSemverDesc` is a total preorder on all strings, readable or not |
| `ImageUpdater.ValidateImageVersions` | cloudprofilesync/ossync/os_image_updater.go:77-110 | the loop keeps and rewrites each image as one decision per image says |
| `ImageUpdater.ValidatedExactly` | cloudprofilesync/ossync/os_image_updater.go:77-110 | exactly which images remain, and that nothing but the clean version changes |
| `ImageUpdater.ValidationEstablishesSoundness` | cloudprofilesync/ossync/os_image_updater.go:77-110 | validated images have architectures, a canonical or empty clean version and at least one valid version, and validating again changes nothing |
| `ImageUpdater.Fetch` | cloudprofilesync/ossync/os_image_updater.go:142-167 | the result is some library sort of the validated images, filtered in order |
| `ImageUpdater.FetchOrderPreorder` | cloudprofilesync/ossync/os_image_updater.go:157-162 | the sort key is a total preorder |
| `ImageUpdater.FetchedInOrder` | cloudprofilesync/ossync/os_image_updater.go:157-162 | the fetched images ascend in byte order by clean version, or by tag without one, and then by tag |
| `ImageUpdater.FetchErasesOrder` | cloudprofilesync/ossync/os_image_updater.go:154-162 | with distinct tags the order in which a source reports images leaves no trace |
| `IndexedLists.IndexedList.constructor` | cloudprofilesync/ossync/os_image_updater.go:195-198 | the index built by the loop points at the last entry of every version |
| `IndexedLists.IndexedList.Append` | cloudprofilesync/ossync/os_image_updater.go:233-242 | appending an unknown version keeps the index exact |
| `IndexedLists.IndexedList.Replace` | cloudprofilesync/ossync/os_image_updater.go:249-260 | rewriting the fields of an entry keeps the index exact |
| `ImageMerge.UpsertLegacyVersion` | cloudprofilesync/ossync/os_image_updater.go:216-243 | the entry of the tag is overwritten where it is, appended when the tag is valid, and skipped otherwise; nothing else changes |
| `ImageMerge.UpsertCleanVersion` | cloudprofilesync/ossync/os_image_updater.go:248-274 | the entry of the clean version is extended where it is, and appended otherwise; nothing else changes |
| `ImageMerge.Union` | cloudprofilesync/ossync/os_image_updater.go:251-255 | architectures stay a prefix, the union of both lists is there, and adding what is there changes nothing |
| `ImageMerge.FilterSources` | cloudprofilesync/ossync/os_image_updater.go:179-185 | every source keeps all fields but its capabilities, which become their declared part |
| `ImageMerge.MergeSources` | cloudprofilesync/ossync/os_image_updater.go:194-204 | the index-map loop equals the keyed merge without an index |
| `ImageMerge.Apply` | cloudprofilesync/ossync/os_image_updater.go:169-214 | one upsert of the updater's image, created when missing, and one provider call on the filtered sources |
| `MergeTheorems.EntryIsFoldOfItsWrites` | cloudprofilesync/ossync/os_image_updater.go:195-204 | the final entry of every version string is the fold, in source order, of just the writes aimed at it, from the base entry |
| `MergeTheorems.MergedVersionSet` | cloudprofilesync/ossync/os_image_updater.go:199-274 | base versions stay as a prefix, distinct versions stay distinct, and the version set is exactly base, valid tags and, with capabilities enabled, the non-empty clean versions; without capabilities base and valid tags alone |
| `MergeTheorems.MergedEntryFields` | cloudprofilesync/ossync/os_image_updater.go:216-274 | for every base and every source: classification and in-place support are those of the last write that reaches a version, the date is the old or else the first one reported, architectures are those since the last legacy write, other fields are untouched; legacy writes to a version that is neither there nor valid do not reach it |
| `MergedFields.SourcesDecide` | cloudprofilesync/ossync/os_image_updater.go:199-274 | the same without reference to writes: the last source with the version as its tag, or with capabilities as its clean version, decides classification and in-place support, the first with a date decides a date the base does not have, and the architectures are those no later tag overwrites |
| `MergedFields.UntouchedStays` | cloudprofilesync/ossync/os_image_updater.go:199-204 | a version that is no source's tag nor, with capabilities, clean version keeps its entry |
| `MergeTheorems.CleanWriteOnlyFlavorsExactly` | cloudprofilesync/ossync/os_image_updater.go:244-262 | a clean write changes only flavors exactly when architectures, classification, date and in-place support are there already, as they are right after the legacy write of the same source |
| `MergeTheorems.CleanWriteChangesMore` | cloudprofilesync/ossync/os_image_updater.go:248-262 | an entry of which it changes architectures, classification and date |
| `MergeTheorems.MergeIsIdempotent` | cloudprofilesync/ossync/os_image_updater.go:169-274 | merging the same sources again changes no entry, order, architecture, flavor or date when clean versions are valid |
| `MergeTheorems.ApplyIsIdempotent` | cloudprofilesync/ossync/os_image_updater.go:77-214 | so repeating `Apply` with what `Fetch` returned changes no machine image, because validation makes clean versions valid |
| `MergeTheorems.FlavorSet` | cloudprofilesync/ossync/os_image_updater.go:259-269 | old flavors stay as a prefix, distinct flavors stay distinct, new ones are declared parts of sources of this clean version, and each source's declared part is there exactly once |
| `MergeTheorems.NoFlavorsWithoutCapabilities` | cloudprofilesync/ossync/os_image_updater.go:199-204 | without capabilities no flavor is added |
| `GarbageCollection.NormalizeTagInjective` | cloudprofilesync/ossync/gc/gc.go:35-37 | a tag is the only one without a plus sign with its normal form exactly when it has no plus sign itself; normalising twice is normalising once |
| `GarbageCollection.FilterImages` | controllers/garbage_collection.go:53-61 | the kept images are a subsequence of the input, and an image is collected exactly when it is known to be older than the cutoff and neither its tag nor its clean version is protected |
| `GarbageCollection.ReferencedVersions` | controllers/garbage_collection.go:122-138 | exactly the normalised versions that worker pools of shoots on the profile name for the image |
| `GarbageCollection.NormalizedTags` | controllers/garbage_collection.go:107-111 | every tag is there under its normal form with the push time of some tag of that form, its own when no tag has a plus sign |
| `GarbageCollection.BuildGCFilter` | controllers/garbage_collection.go:82-120 | exactly when it is an error and exactly when there is a filter; the filter holds the push time of every tag under its normal form, exactly the versions in use, and a cutoff the maximum age before now |
| `GarbageCollection.VersionsInUseSurvive` | controllers/garbage_collection.go:53-138 | an image whose tag or clean version is in use survives `Fetch`, and its valid tag and enabled clean version have entries after the merge |
| `GarbageCollection.FetchesAgreeExactly` | controllers/garbage_collection.go:53-61 | two fetches of the same reports under two cutoffs agree exactly when no validated, unprotected image has a push time from the first up to the second |
| `GarbageCollection.LaterFetch` | controllers/garbage_collection.go:53-61 | the fetch under the later cutoff is the earlier one without just those images, in order |
| `ProtectedVersions.VersionsInUseStayStored` | controllers/cloud_profile.go:41-95 | after a whole reconcile with garbage collection the stored profile has entries for every reported image in use, however many updates name the image |
| `WorkerProtocol.SafeAlways` | cloudprofilesync/ossync/source/oci/os_source.go:101-178 | in every reachable state at most `parallel` workers hold a token and each worker has sent at most one message, its own result or a cancellation |
| `WorkerProtocol.AtMostParallel` | cloudprofilesync/ossync/source/oci/os_source.go:101-112 | in every reachable state at most `parallel` workers fetch |
| `WorkerProtocol.StepsDecrease` | cloudprofilesync/ossync/source/oci/os_source.go:101-178 | a non-negative measure decreases at every step, so every run is finite |
| `WorkerProtocol.WorkersNeverStuck` | cloudprofilesync/ossync/source/glance/os_source.go:173-197 | while some worker is not done some worker can step, also after the collector has returned early |
| `WorkerProtocol.NeverStuck` | cloudprofilesync/ossync/source/oci/os_source.go:101-178 | no reachable state short of the end is stuck, in both wirings |
| `WorkerProtocol.RunsFinish` | cloudprofilesync/ossync/source/oci/os_source.go:101-178 | every run can be continued to a finished one, and no run is longer than the work there is at the start |
| `WorkerProtocol.ExactlyOneMessageEach` | cloudprofilesync/ossync/source/oci/os_source.go:160-178 | in the end each worker has sent exactly one message, and a draining collector has received them all |
| `WorkerProtocol.ScheduleOnlyOrders` | cloudprofilesync/ossync/source/glance/os_source.go:186-197 | without cancellation the collector receives every result exactly once; the schedule only decides the order |
| `OciSource.BuildCapabilities` | cloudprofilesync/ossync/source/oci/os_source.go:132-144 | the map is the one some walk of the feature map fills |
| `OciSource.CapabilitiesFilled` | cloudprofilesync/ossync/source/oci/os_source.go:132-144 | which capabilities any walk leaves, that each feature's is "true" or "false" by the presence of a feature of that name, and the architecture |
| `OciSource.CapabilitiesIndependentOfOrder` | cloudprofilesync/ossync/source/oci/os_source.go:133-142 | all walks fill the same map exactly when features sharing a capability name are both present or both absent |
| `OciSource.FetchTag` | cloudprofilesync/ossync/source/oci/os_source.go:109-156 | what one worker sends for the manifest it gets, error cases included |
| `OciSource.TagFields` | cloudprofilesync/ossync/source/oci/os_source.go:125-155 | the fields of what a worker sends, by the names of the annotations |
| `OciSource.TagResultUniqueExactly` | cloudprofilesync/ossync/source/oci/os_source.go:109-156 | a manifest leaves the worker one result only exactly when features that share a capability name are both present in it or both absent, if a capability map is built at all |
| `OciSource.Collect` | cloudprofilesync/ossync/source/oci/os_source.go:160-188 | items, skipped and errors add up to the messages received; the fetch fails exactly when a cancellation was received or nothing but skipped tags; its images are those of the items with all required feature values, in order |
| `OciSource.CountsAddUp` | cloudprofilesync/ossync/source/oci/os_source.go:160-178 | in every finished run items, skipped and failed tags add up to the number of tags |
| `OciSource.ApplyImageFilter` | cloudprofilesync/ossync/source/oci/os_source.go:192-216 | the images are those of a subsequence of exactly the items among whose tokens are all required values |
| `OciSource.DistinctForms` | cloudprofilesync/ossync/gc/gc.go:35-37 | distinct tags without a plus sign stay distinct when normalised |
| `OciSource.FetchIndependentOfSchedule` | cloudprofilesync/ossync/source/oci/os_source.go:101-188 | every interleaving, token count and map order gives the same fetched images, for tags with distinct normal forms and manifests that leave each worker one result |
| `OciCollection.FetchFixedWithoutCollection` | cloudprofilesync/ossync/os_image_updater.go:142-167 | without garbage collection an unchanged repository always gives the same images |
| `OciCollection.FetchFixedExactly` | controllers/garbage_collection.go:53-120 | with an unchanged repository, unchanged push times and versions in use, two fetches under two cutoffs agree exactly when no tag yields an unused image that passes the cutoff in between |
| `OciCollection.CutoffMovesOn` | controllers/garbage_collection.go:118 | the smallest repository for which they do not: one unused tag, pushed at the first cutoff |
| `OpenStackProvider.UpsertRegion` | cloudprofilesync/ossync/provider/openstack/provider.go:21-29 | the first mapping of the region gets the id, or a mapping is appended; no other mapping changes |
| `OpenStackProvider.SortRegions` | cloudprofilesync/ossync/provider/openstack/provider.go:31-38 | the unstable library sort has only one possible result |
| `OpenStackProvider.ConfigureVersion` | cloudprofilesync/ossync/provider/openstack/provider.go:74-100 | what one source does to a version entry, with a flavor or with plain regions |
| `OpenStackProvider.ConfigureSource` | cloudprofilesync/ossync/provider/openstack/provider.go:65-100 | one source is one upsert of its version through an exact index |
| `OpenStackProvider.ConfigureVersions` | cloudprofilesync/ossync/provider/openstack/provider.go:60-101 | the loop equals the keyed merge of one write per source |
| `OpenStackProvider.Configure` | cloudprofilesync/ossync/provider/openstack/provider.go:40-108 | one upsert of the provider's image; the rest of the configuration stays |
| `OpenStackTheorems.TouchedRegions` | cloudprofilesync/ossync/provider/openstack/provider.go:91-99 | a touched list is sorted by name and id, has unique names and maps each region to the last id written |
| `OpenStackTheorems.RegionsInOrder` | cloudprofilesync/ossync/provider/openstack/provider.go:31-38 | a touched list ascends in byte order of names and then of ids |
| `OpenStackTheorems.LastIdExactly` | cloudprofilesync/ossync/provider/openstack/provider.go:91-98 | the last id of a region is that of the last mapping of the region |
| `OpenStackTheorems.CanonicalUnique` | cloudprofilesync/ossync/provider/openstack/provider.go:31-38 | a sorted list with unique names is determined by its ids |
| `OpenStackTheorems.AppendedRegions` | cloudprofilesync/ossync/provider/openstack/provider.go:21-29 | the upserts append each region that was not there once, with its last id |
| `OpenStackTheorems.OldRegion` | cloudprofilesync/ossync/provider/openstack/provider.go:21-29 | of the old mappings just the first of each written name changes, to the last id written |
| `OpenStackTheorems.TouchCongruent` | cloudprofilesync/ossync/provider/openstack/provider.go:91-99 | upserts with the same last id per region end in the same list, in whatever order they come and whatever list they start from |
| `OpenStackTheorems.TouchTwiceExactly` | cloudprofilesync/ossync/provider/openstack/provider.go:91-99 | the same upserts and sort again change nothing exactly when no mapping of a written name but the first has a smaller id than the one written |
| `OpenStackTheorems.TouchIdempotentIffUnique` | cloudprofilesync/ossync/provider/openstack/provider.go:91-99 | writing any mapping twice equals writing it once exactly when region names are unique |
| `ConfigTheorems.ConfiguredVersion` | cloudprofilesync/ossync/provider/openstack/provider.go:65-101 | with unique region names in the picked entry, each touched list of a version is sorted, has unique names and maps each region to the last id written since it was last cleared |
| `ConfigTheorems.WhoWrites` | cloudprofilesync/ossync/provider/openstack/provider.go:74-89 | with capabilities enabled exactly the sources that have some write a flavor and clear the plain regions |
| `ConfigTheorems.LastSourceDecides` | cloudprofilesync/ossync/provider/openstack/provider.go:65-101 | over several sources the last that names a region decides its id |
| `ConfigTheorems.RepeatsExactly` | cloudprofilesync/ossync/provider/openstack/provider.go:40-108 | configuring again changes nothing in the whole configuration exactly when it changes none of the lists that sources write to in the entries they pick |
| `ConfigTheorems.ConfigureIdempotentExactly` | cloudprofilesync/ossync/provider/openstack/provider.go:40-108 | with one source per version, exactly when in the list each source writes to no mapping of a written name but the first has a smaller id than the one written |
| `ConfigTheorems.ConfigureIdempotentIffUnique` | cloudprofilesync/ossync/provider/openstack/provider.go:40-108 | for whatever sources exactly when region names are unique in every list that can be picked in the provider's own image |
| `ConfigTheorems.ConfigureIsIdempotent` | cloudprofilesync/ossync/provider/openstack/provider.go:40-108 | in particular when they are unique in the entries the sources pick |
| `ConfigTheorems.ConfigureFrame` | cloudprofilesync/ossync/provider/openstack/provider.go:48-63 | other images, versions without a source and all other fields are unchanged and in place |
| `ConfigTheorems.BothExactlyWhen` | cloudprofilesync/ossync/provider/openstack/provider.go:76-99 | exactly when an entry ends with both regions and flavors, for any number of sources |
| `ConfigTheorems.RegionsAndFlavorsExclude` | cloudprofilesync/ossync/provider/openstack/provider.go:76-79 | with capabilities enabled and present on all sources no entry gets both when none had both |
| `ConfigTheorems.ConfigureCongruent` | cloudprofilesync/ossync/provider/openstack/provider.go:65-101 | sources with the same version, capabilities and last id per region give the same entries |
| `IroncoreProvider.MetalImage.constructor` | cloudprofilesync/ossync/provider/ironcore/provider.go:42-45 | the index starts with the last entry of every version |
| `IroncoreProvider.MetalImage.WriteFlat` | cloudprofilesync/ossync/provider/ironcore/provider.go:50-63 | a flat entry per architecture not covered yet is appended, and the index is left alone |
| `IroncoreProvider.MetalImage.WriteFlavor` | cloudprofilesync/ossync/provider/ironcore/provider.go:68-87 | the flavor joins the indexed entry unless its image is there, or opens a new indexed entry |
| `IroncoreProvider.ConfigureVersions` | cloudprofilesync/ossync/provider/ironcore/provider.go:42-89 | the loop equals the run of one step per source on list and partial index |
| `IroncoreProvider.Configure` | cloudprofilesync/ossync/provider/ironcore/provider.go:23-96 | one upsert of the provider's image; the rest of the configuration stays |
| `IroncoreTheorems.IndexAlwaysPoints` | cloudprofilesync/ossync/provider/ironcore/provider.go:42-89 | the partial index always points at an entry of its version; base entries stay in place and flavors only grow |
| `IroncoreTheorems.ConfiguredMetal` | cloudprofilesync/ossync/provider/ironcore/provider.go:47-89 | every source and architecture is covered with its reference, every flavor is under its clean version, and uniqueness of (image, architecture) pairs and of flavor images per entry is kept |
| `IroncoreOrigins.ConfiguredFrom` | cloudprofilesync/ossync/provider/ironcore/provider.go:47-89 | a reference and architecture has an entry exactly when it had one or a source brings it; every new entry is the flat entry of a source or the group of its clean version; every new flavor has the reference and the capabilities of a source that writes it under this clean version; and the first source of a tag and clean version has its flavor there unless the picked base entry had the reference |
| `IroncoreTheorems.ConfigureIdempotentExactly` | cloudprofilesync/ossync/provider/ironcore/provider.go:42-89 | configuring again changes nothing exactly when no tag equal to a flavor's clean version brings a new flat entry after that clean version is registered |
| `IroncoreTheorems.ConfigureIdempotentWithoutClash` | cloudprofilesync/ossync/provider/ironcore/provider.go:42-89 | it is idempotent when no tag equals another source's clean version |
| `IroncoreTheorems.ClashBreaksIdempotence` | cloudprofilesync/ossync/provider/ironcore/provider.go:72-87 | two sources for which it is not |
| `GlanceSource.NewGlance` | cloudprofilesync/ossync/source/glance/os_source.go:89-127 | exactly when construction succeeds, which set parameters are used and the value of every default, and that the token count is positive |
| `GlanceSource.PreferenceOrder` | cloudprofilesync/ossync/source/glance/os_source.go:336-346 | preference is a strict order, total on images with different ids: active before inactive, then created later, then the larger id |
| `GlanceSource.DiscoverRegion` | cloudprofilesync/ossync/source/glance/os_source.go:297-333 | every canonical image of the region is reported once, in any order, and the fields of what is reported |
| `GlanceSource.MergeArrivals` | cloudprofilesync/ossync/source/glance/os_source.go:186-214 | exactly when the merge stops at a cancellation, and otherwise what it collects from the arrivals |
| `GlanceSource.FilterRequireRegions` | cloudprofilesync/ossync/source/glance/os_source.go:270-294 | exactly the versions whose regions cover the baseline remain, in order |
| `GlanceSource.SortAndCut` | cloudprofilesync/ossync/source/glance/os_source.go:232-246 | some library sort, newest first, cut to the clamped window |
| `GlanceSource.Stamp` | cloudprofilesync/ossync/source/glance/os_source.go:248-260 | all versions are supported but the last, which is deprecated and dated now unless it has a date |
| `GlanceSource.GetVersions` | cloudprofilesync/ossync/source/glance/os_source.go:172-263 | exactly when the fetch fails, and otherwise that the result went through merge, region requirement, sort, window and stamp |
| `GlanceTheorems.NamesRecognised` | cloudprofilesync/ossync/source/glance/os_source.go:363-389 | exactly which image names are recognised, and as which version |
| `GlanceTheorems.CanonicalIsBest` | cloudprofilesync/ossync/source/glance/os_source.go:309-346 | the kept image of a version is listed and names the version; it is active if a listed one is, and of those as active none was created later or, at the same time, has a larger id |
| `GlanceTheorems.CanonicalIndependentOfListing` | cloudprofilesync/ossync/source/glance/os_source.go:309-319 | with distinct image ids every listing order keeps the same images |
| `GlanceTheorems.ArrivalsAreFaithful` | cloudprofilesync/ossync/source/glance/os_source.go:186-214 | with distinct regions any arrival order brings exactly the grid of region, version and image |
| `GlanceTheorems.KeptExactly` | cloudprofilesync/ossync/source/glance/os_source.go:223-230 | which versions remain, read off the grid alone |
| `GlanceTheorems.RequiredRegionsIntersect` | cloudprofilesync/ossync/source/glance/os_source.go:265-294 | with all regions required the versions that remain are the intersection over the contributing regions, whatever the arrival order; it is the documented set exactly when every queried region contributes or no version is in all contributing ones |
| `GlanceTheorems.EmptyRegionIsIgnored` | cloudprofilesync/ossync/source/glance/os_source.go:265-294 | two regions, one of them empty, for which it is not |
| `GlanceTheorems.WindowByRank` | cloudprofilesync/ossync/source/glance/os_source.go:232-260 | with ties or without, the result holds every kept version all of whose ranks are inside offset to offset + keepLatest and none whose ranks are all outside, exactly those whose first rank is inside when the window is decided, and only the last is deprecated and dated |
| `GlanceTheorems.NewestAreKept` | cloudprofilesync/ossync/source/glance/os_source.go:232-246 | the number of versions kept, that none ranks before an earlier one, and that without an offset none left out ranks before one that is kept |
| `GlanceTheorems.IndependentOfArrival` | cloudprofilesync/ossync/source/glance/os_source.go:186-260 | when the window is decided, two arrivals at two times differ at most in the order of versions and regions and the date of the deprecated version |
| `RankWindows.DecidedWindow` | cloudprofilesync/ossync/source/glance/os_source.go:232-246 | when a window is decided, all sorted orders agree on what the window holds and on its last element |
| `RankWindows.UndecidedWindow` | cloudprofilesync/ossync/source/glance/os_source.go:232-246 | otherwise every sorted order has another that differs in one or the other |
| `AlikeSources.FetchesAlike` | cloudprofilesync/ossync/os_image_updater.go:142-167 | such differences pass through `Fetch` without spreading |
| `AlikeSources.MergedAlike` | cloudprofilesync/ossync/os_image_updater.go:199-204 | such differences stay in the dates of deprecated entries after the merge |
| `CloudProfile.CarryExpirationDates` | controllers/cloud_profile.go:260-283 | deprecated versions get the date stored under their key, all else stays |
| `CloudProfile.PrepareMachineImageUpdate` | controllers/cloud_profile.go:170-225 | exactly when an update fails, by its minimum version, the selection of source or provider, the fetch or the provider, and otherwise its two edits |
| `CloudProfile.ProfileStore.Reconcile` | controllers/cloud_profile.go:24-104 | exactly when a reconcile applies, the shoot listing included, what is stored then, and that any failure leaves the store as it was |
| `CloudProfileTheorems.KeyIdentifiesExactly` | controllers/cloud_profile_helpers.go:187-189 | the key identifies image and version, among slash-free versions, exactly when the version has no slash |
| `CloudProfileTheorems.StoredDatesExact` | controllers/cloud_profile.go:261-268 | for distinct slash-free versions the date found under the key of an entry is the date of that entry |
| `CloudProfileTheorems.StoredByNameAndVersion` | controllers/cloud_profile.go:261-278 | for distinct slash-free versions the lookup by string key is the lookup by image and version |
| `CloudProfileTheorems.CarriedByNameAndVersion` | controllers/cloud_profile.go:269-283 | a deprecated version takes the date its image and version have in the stored profile, if any, and nothing else changes |
| `CloudProfileTheorems.ReconciledWellFormed` | controllers/cloud_profile.go:76-93 | distinct slash-free versions are an invariant of the stored profile |
| `CloudProfileTheorems.SticksExactly` | controllers/cloud_profile.go:260-283 | a stored date survives whatever deprecated images come next exactly when the last dated entry with its key string has it |
| `CloudProfileTheorems.DatesAreSticky` | controllers/cloud_profile.go:72-95 | over any sequence of reconciles with arbitrary specs, sources, clocks, pauses and failures a date once stored stays while its version stays present and deprecated and that condition holds |
| `CloudProfileTheorems.DatesAreStickyForSpecs` | controllers/cloud_profile.go:72-95 | which distinct, slash-free versions in every spec ensure |
| `CloudProfileTheorems.SharedKeyMovesDates` | controllers/cloud_profile.go:260-283 | two versions sharing a key for which storing the same images again changes a date |
| `CloudProfileTheorems.CarriedToSelfExactly` | controllers/cloud_profile.go:260-283 | storing the same images again changes nothing exactly when every deprecated entry has the date of the last dated entry with its key string, if there is one |
| `CloudProfileTheorems.PauseFreezesExactly` | controllers/cloud_profile.go:82-93 | a paused reconcile leaves stored images and provider configuration as they are exactly under that condition, and stores the base when no images are stored |
| `CloudProfileTheorems.UpdatesAreIndependent` | controllers/cloud_profile.go:47-57 | with distinct image names each image after the chain is what its update alone makes of the base |
| `CloudProfileTheorems.UnnamedImagesUnchanged` | controllers/cloud_profile.go:47-57 | images no update names are unchanged and in place |
| `ProviderChains.OpenStackUpdatesIndependent` | cloudprofilesync/ossync/provider/openstack/provider.go:48-58 | the same independence in the OpenStack configuration |
| `ProviderChains.IroncoreUpdatesIndependent` | cloudprofilesync/ossync/provider/ironcore/provider.go:30-40 | the same independence in the Ironcore configuration |
| `ProviderChains.OpenStackIsBlind` | cloudprofilesync/ossync/provider/openstack/provider.go:65-101 | whatever the configuration, the provider sees neither dates nor the order in which regions were collected |
| `ProviderChains.IroncoreIsBlind` | cloudprofilesync/ossync/provider/ironcore/provider.go:47-89 | the provider sees neither dates nor regions |
| `ProviderChains.UpdateIdempotentExactly` | controllers/cloud_profile.go:206-214 | applying an OpenStack update to its own result never changes the images, and changes the configuration exactly when a smaller id is hidden in a list that is written to (for one image per version; in general, when such a list does not settle) |
| `ProviderChains.ChainIsIdempotent` | controllers/cloud_profile.go:47-57 | a chain of updates of distinct images, applied to its own images, changes none |
| `SteadyState.CarriedTwice` | controllers/cloud_profile.go:260-283 | the carry-over erases later dates exactly when they are on deprecated versions |
| `SteadyState.SecondReconcileExactly` | controllers/cloud_profile.go:41-95 | a second reconcile keeps the provider configuration, and keeps the images exactly when there is no version without a date in the base whose first fetched date differs between the two times and whose last write does not deprecate it |
| `SteadyState.SecondReconcileChangesNothing` | controllers/cloud_profile.go:41-95 | with one update per image a second reconcile at a later time changes nothing |
| `EndToEnd.TwoUpdatesDrift` | controllers/cloud_profile.go:47-57 | two Glance updates of one image, with everything they fetch, for which a second reconcile moves a date |
| `EndToEnd.OpenStackReconcileExactly` | controllers/cloud_profile.go:41-95 | for OpenStack updates and any stored configuration, with unchanged spec, registries and regions, decided windows and no unused image passing the cutoff in between, a second reconcile at a later time keeps the stored profile exactly when no version drifts in the sense of `SecondReconcileExactly`, so always with one update per image, although Glance stamps the new time and the cutoff has moved |
| `EndToEnd.IroncoreReconcileExactly` | controllers/cloud_profile.go:41-95 | the same for Ironcore updates |
| `EndToEnd.CollectionMovesTheProfile` | controllers/cloud_profile.go:41-95 | one unused image that passes the cutoff, for which a second reconcile does change the stored profile |
| `DroppedVersions.StoredExactly` | controllers/cloud_profile.go:41-95 | after a reconcile a version is stored exactly when the base has it, or it is valid and some fetched image writes to it |
| `DroppedVersions.DroppedExactly` | controllers/cloud_profile.go:41-95 | a second reconcile with a later cutoff drops exactly the valid versions that are not in the base and are written only by images that pass the cutoff in between, at least one; it adds none |
| `GlanceEndToEnd.QueriesFinish` | cloudprofilesync/ossync/source/glance/os_source.go:172-197 | for every source that can be constructed, cancelled or not, every run of the region queries can be continued to a finished one, and none has more than five steps per region |
| `GlanceEndToEnd.EveryScheduleBringsTheGrid` | cloudprofilesync/ossync/source/glance/os_source.go:172-214 | every interleaving of the workers brings exactly the grid of the listings |
| `GlanceEndToEnd.FetchedAlike` | cloudprofilesync/ossync/source/glance/os_source.go:186-260 | when the window is decided, what `Fetch` returns is fixed up to region order and the date of the deprecated version |
| `GlanceEndToEnd.FetchFixedExactly` | cloudprofilesync/ossync/source/glance/os_source.go:186-260 | all fetches of fixed listings are alike exactly when the window is decided: it is empty, or no class of tied versions lies across its lower edge and the version at its last rank ties with no other |
| `GlanceEndToEnd.TiesLeaveAChoice` | cloudprofilesync/ossync/source/glance/os_source.go:232-246 | one region with two tied versions, for which two different fetches are possible |
| `GlanceEndToEnd.ArrivalOrderLeavesNoTrace` | cloudprofilesync/ossync/provider/openstack/provider.go:65-101 | with a fixed clock and a decided window every arrival order ends in the same machine images and OpenStack configuration |
| `GlanceEndToEnd.ScheduleLeavesNoTrace` | cloudprofilesync/ossync/source/glance/os_source.go:172-263 | the same from any two schedules of the workers and any library sorts |
| `StatusConditions.ApplyCondition` | controllers/managedcloudprofile_controller.go:77-98 | one upsert of the condition of the type; other conditions are untouched |
| `StatusConditions.StatusStore.PatchStatusAndCondition` | controllers/managedcloudprofile_controller.go:62-75 | a patch is counted exactly when the status changes, and the stored status changes only if it is accepted |
| `StatusConditions.NoPatchExactly` | controllers/managedcloudprofile_controller.go:62-75 | exactly when a report issues no patch, by what is stored and what is reported |
| `StatusConditions.RepeatIssuesNoPatch` | controllers/managedcloudprofile_controller.go:62-98 | repeating an identical outcome at any time issues no patch |
| `StatusConditions.TypesEvolveAlone` | controllers/managedcloudprofile_controller.go:77-98 | each type occurs at most once and evolves by just the reports about it |
| `StatusConditions.StatusHistory` | controllers/managedcloudprofile_controller.go:62-75 | the stored status is that of the last accepted report |
| `StatusConditions.TransitionTime` | controllers/managedcloudprofile_controller.go:84-94 | the transition time is that of the first report in the current unbroken stretch of equal status |
| `StatusConditions.ConditionHistory` | controllers/managedcloudprofile_controller.go:62-98 | the same for the stored list of conditions over any sequence of reports, whatever is stored before and whichever patches are rejected |
| `LandscapeSource.MinorVersionDropsPatch` | cloudprofilesync/k8ssync/source/landscape/landscape_source.go:242-250 | everything from the second dot on is dropped and nothing else |
| `LandscapeSource.MinorVersionExactly` | cloudprofilesync/k8ssync/source/landscape/landscape_source.go:242-250 | every string has exactly one major.minor part, and it is the one computed |
| `LandscapeSource.MinorVersionsMatchExactly` | cloudprofilesync/k8ssync/source/landscape/landscape_source.go:235-250 | any two strings match exactly when they share a major.minor part |
| `LandscapeSource.GardenerVersionFromShoots` | controllers/cloud_profile_helpers.go:153-183 | a readable version some shoot reports of which none is older, and an error exactly when there is none |
| `LandscapeSource.ListSemverTags` | cloudprofilesync/k8ssync/source/landscape/landscape_source.go:174-206 | exactly the readable tags, none before a newer one, and an error exactly when there is none |
| `LandscapeSource.TagForGardenerVersion` | cloudprofilesync/k8ssync/source/landscape/landscape_source.go:221-240 | a tag whose descriptor is for the wanted major.minor, of which no other is newer by section 11 or has larger numbers, and an error exactly when there is none |
| `LandscapeSource.ResolveTag` | cloudprofilesync/k8ssync/source/landscape/landscape_source.go:129-144 | the same, or such a tag among all when no Gardener version is known |

## Left out

- Network and registry access: tag listings, manifests, image listings and component descriptors are
  arbitrary fixed results or errors per tag or region.
- The Kubernetes client, owner references, defaulting, server-side validation and time truncation: the
  store is a value and the API server's answer a parameter.
- JSON encoding of provider configurations: configurations are typed values, and all fields other than
  machine images are one opaque string.
- OpenStackTheorems.TouchCongruent: region mappings have no architecture field, which the code never sets but
  a configuration may hold, so nothing is said about the order of mappings that agree in name and id and
  differ in architecture.
- Semver string parsing: `Library` stands for it with the laws in `Lawful()`, shown consistent by
  `LawsAreConsistent`.
- Slice aliasing and the spare capacity of `append`: entries are values, so the shallow clone of the base
  images in `Apply` cannot be observed and nothing is claimed about the base afterwards.
- Splitting and trimming of feature-set annotations: `tokens` in `Oci` stands for it.
- Machine integer widths: offsets and counts are mathematical integers.
- Mixed provider kinds in one chain: each kind reads only its own configuration type here.
- Secrets, factories, flags, logging, generated copies, `copyStaticSpecFields` and message truncation.
- `KubernetesVersionUpdater.Apply` and the intersection of supported and classified Kubernetes versions:
  single loops.
