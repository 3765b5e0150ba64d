/** The OCI source: one result per tag, the collector, the image filter, and the independence of the
    fetched images from the schedule of the workers. */
module OciSource {
  import opened Prelude
  import opened Sorting
  import opened Images
  import opened Semver
  import opened ImageUpdater
  import opened GarbageCollection
  import opened WorkerProtocol

  /** `features` maps feature-set values to capability names; `required` is the image filter;
      `tokens` splits a feature-set annotation into its trimmed, non-empty parts. */
  datatype Oci = Oci(features: map<string, string>, required: Option<seq<string>>, tokens: string -> set<string>)

  const FEATURE_SET_ANNOTATION := "feature_set"
  const VERSION_ANNOTATION := "version"
  const USI_IMAGE_FEATURE := "_usi"

  datatype CollectedImage = CollectedImage(image: SourceImage, featureSetRaw: string)

  /** What a worker sends: an image, an error, or the cancellation of the context. */
  datatype TagResult = Collected(value: CollectedImage) | Skipped | Cancelled

  function Annotation(annotations: map<string, string>, key: string): string {
    if key in annotations then annotations[key] else ""
  }

  // ---------------------------------------------------------------- capabilities of one image

  function Flag(present: set<string>, feature: string): seq<string> {
    [if feature in present then "true" else "false"]
  }

  /** The capability map filled by walking the feature map in a given order. */
  function CapabilitiesInOrder(
      arch: string, features: map<string, string>, present: set<string>, order: seq<string>): Capabilities
    requires forall f :: f in order ==> f in features
  {
    if order == [] then map[ARCHITECTURE_CAPABILITY := [arch]]
    else
      var f := order[|order| - 1];
      CapabilitiesInOrder(arch, features, present, order[..|order| - 1])[features[f] := Flag(present, f)]
  }

  ghost predicate Enumerates(order: seq<string>, features: map<string, string>) {
    Distinct(order) && forall f :: f in order <==> f in features
  }

  ghost predicate SomeOrder(arch: string, features: map<string, string>, present: set<string>, caps: Capabilities) {
    exists order :: Enumerates(order, features) && caps == CapabilitiesInOrder(arch, features, present, order)
  }

  /** Features that share a capability name are all present or all absent. */
  ghost predicate Unambiguous(features: map<string, string>, present: set<string>) {
    forall f, g :: f in features && g in features && features[f] == features[g] ==> (f in present <==> g in present)
  }

  lemma OneMoreFeature(arch: string, features: map<string, string>, present: set<string>, order: seq<string>, f: string)
    requires f in features && f !in order && Distinct(order) && forall g :: g in order ==> g in features
    ensures Distinct(order + [f])
    ensures CapabilitiesInOrder(arch, features, present, order + [f]) ==
            CapabilitiesInOrder(arch, features, present, order)[features[f] := Flag(present, f)]
  {
    assert (order + [f])[..|order|] == order;
  }

  method BuildCapabilities(
      arch: string, features: map<string, string>, present: set<string>) returns (caps: Capabilities)
    ensures SomeOrder(arch, features, present, caps)
  {
    caps := map[ARCHITECTURE_CAPABILITY := [arch]];
    var rest := features.Keys;
    ghost var order: seq<string> := [];
    while rest != {}
      invariant rest <= features.Keys
      invariant forall f :: f in order <==> f in features && f !in rest
      invariant Distinct(order)
      invariant caps == CapabilitiesInOrder(arch, features, present, order)
      decreases rest
    {
      var f :| f in rest;
      OneMoreFeature(arch, features, present, order, f);
      if f in present {
        caps := caps[features[f] := ["true"]];
      } else {
        caps := caps[features[f] := ["false"]];
      }
      rest := rest - {f};
      order := order + [f];
    }
    assert Enumerates(order, features);
  }

  lemma {:induction false} InOrderLookup(
      arch: string, features: map<string, string>, present: set<string>, order: seq<string>)
    requires (forall f :: f in order ==> f in features) && Unambiguous(features, present)
    ensures var caps := CapabilitiesInOrder(arch, features, present, order);
            && (forall c :: c in caps <==> c == ARCHITECTURE_CAPABILITY || exists f :: f in order && features[f] == c)
            && (forall f :: f in order ==> features[f] in caps && caps[features[f]] == Flag(present, f))
            && ((forall f :: f in order ==> features[f] != ARCHITECTURE_CAPABILITY) ==>
                  caps[ARCHITECTURE_CAPABILITY] == [arch])
  {
    if order != [] {
      var init, f := order[..|order| - 1], order[|order| - 1];
      assert order == init + [f];
      InOrderLookup(arch, features, present, init);
    }
  }

  /** What any walk leaves in the map: the architecture, unless a feature has that capability name, and for the
      name of every feature "true" or "false" after the presence of a feature with this name; the feature's own
      when no other shares the name. */
  lemma CapabilitiesFilled(arch: string, features: map<string, string>, present: set<string>, caps: Capabilities)
    requires SomeOrder(arch, features, present, caps)
    ensures forall c :: c in caps <==> c == "architecture" || exists f :: f in features && features[f] == c
    ensures forall c :: c in caps ==>
              || (c == "architecture" && caps[c] == [arch])
              || exists f :: f in features && features[f] == c && caps[c] == [if f in present then "true" else "false"]
    ensures forall f :: f in features && (forall g :: g in features && features[g] == features[f] ==> g == f) ==>
              caps[features[f]] == [if f in present then "true" else "false"]
    ensures (forall f :: f in features ==> features[f] != "architecture") ==> caps["architecture"] == [arch]
  {
    var order :| Enumerates(order, features) && caps == CapabilitiesInOrder(arch, features, present, order);
    FilledInOrder(arch, features, present, order);
  }

  lemma {:induction false} FilledInOrder(
      arch: string, features: map<string, string>, present: set<string>, order: seq<string>)
    requires forall f :: f in order ==> f in features
    ensures var caps := CapabilitiesInOrder(arch, features, present, order);
            && (forall c :: c in caps <==> c == "architecture" || exists f :: f in order && features[f] == c)
            && (forall c :: c in caps && (c != "architecture" || exists f :: f in order && features[f] == c) ==>
                  exists f :: f in order && features[f] == c && caps[c] == [if f in present then "true" else "false"])
            && ((forall f :: f in order ==> features[f] != "architecture") ==> caps["architecture"] == [arch])
  {
    if order != [] {
      var init, f := order[..|order| - 1], order[|order| - 1];
      assert order == init + [f];
      FilledInOrder(arch, features, present, init);
    }
  }

  /** The capability map is the same for every walk of the feature map exactly when features that share
      a capability name agree. */
  lemma CapabilitiesIndependentOfOrder(arch: string, features: map<string, string>, present: set<string>)
    ensures Unambiguous(features, present) <==>
              forall x, y :: Enumerates(x, features) && Enumerates(y, features) ==>
                CapabilitiesInOrder(arch, features, present, x) == CapabilitiesInOrder(arch, features, present, y)
  {
    if Unambiguous(features, present) {
      forall x, y | Enumerates(x, features) && Enumerates(y, features)
        ensures CapabilitiesInOrder(arch, features, present, x) == CapabilitiesInOrder(arch, features, present, y) {
        SameCapabilities(arch, features, present, x, y);
      }
    } else {
      var f, g :| f in features && g in features && features[f] == features[g] && f in present && g !in present;
      var x := LastIn(features, f);
      var y := LastIn(features, g);
      assert CapabilitiesInOrder(arch, features, present, x)[features[f]] == ["true"];
      assert CapabilitiesInOrder(arch, features, present, y)[features[f]] == ["false"];
      assert ["true"][0] != ["false"][0];
    }
  }

  lemma SameCapabilities(
      arch: string, features: map<string, string>, present: set<string>, x: seq<string>, y: seq<string>)
    requires Unambiguous(features, present) && Enumerates(x, features) && Enumerates(y, features)
    ensures CapabilitiesInOrder(arch, features, present, x) == CapabilitiesInOrder(arch, features, present, y)
  {
    InOrderLookup(arch, features, present, x);
    InOrderLookup(arch, features, present, y);
    var a, b := CapabilitiesInOrder(arch, features, present, x), CapabilitiesInOrder(arch, features, present, y);
    forall c | c in a ensures c in b && a[c] == b[c] {
      if f :| f in x && features[f] == c {
        assert f in y;
      }
    }
    assert forall c :: c in b ==> c in a;
  }

  /** An enumeration with a given feature last. */
  lemma LastIn(features: map<string, string>, f: string) returns (order: seq<string>)
    requires f in features
    ensures Enumerates(order, features) && order[|order| - 1] == f
  {
    var rest := Enumeration(features.Keys - {f});
    order := rest + [f];
  }

  // ---------------------------------------------------------------- one tag

  /** What the worker of a tag may send for the manifest it gets (`None`: the fetch or the decoding
      fails). */
  ghost predicate TagYields(o: Oci, tag: string, manifest: Option<map<string, string>>, r: TagResult) {
    if manifest.None? || ARCHITECTURE_CAPABILITY !in manifest.value then r == Skipped
    else
      && r.Collected?
      && r.value.image.version == NormalizeTag(tag)
      && r.value.image.cleanVersion == Annotation(manifest.value, VERSION_ANNOTATION)
      && r.value.image.architectures == [manifest.value[ARCHITECTURE_CAPABILITY]]
      && r.value.image.supportInPlaceUpdate ==
           (USI_IMAGE_FEATURE in o.tokens(Annotation(manifest.value, FEATURE_SET_ANNOTATION)))
      && r.value.image.regions == [] && r.value.image.classification.None? && r.value.image.expirationDate.None?
      && r.value.featureSetRaw == Annotation(manifest.value, FEATURE_SET_ANNOTATION)
      && if o.features == map[] || r.value.image.cleanVersion == "" then r.value.image.capabilities.None?
         else r.value.image.capabilities.Some? && SomeOrder(
           manifest.value[ARCHITECTURE_CAPABILITY], o.features,
           o.tokens(Annotation(manifest.value, FEATURE_SET_ANNOTATION)), r.value.image.capabilities.value)
  }

  method FetchTag(o: Oci, tag: string, manifest: Option<map<string, string>>) returns (r: TagResult)
    requires o.tokens("") == {}
    ensures TagYields(o, tag, manifest, r)
  {
    if manifest.None? || ARCHITECTURE_CAPABILITY !in manifest.value {
      return Skipped;
    }
    var arch := manifest.value[ARCHITECTURE_CAPABILITY];
    var cleanVersion := Annotation(manifest.value, VERSION_ANNOTATION);
    var rawAnnotation := Annotation(manifest.value, FEATURE_SET_ANNOTATION);
    var rawFeatureSet := o.tokens(rawAnnotation);
    var capabilities: Option<Capabilities> := None;
    if |o.features| > 0 && cleanVersion != "" {
      var caps := BuildCapabilities(arch, o.features, rawFeatureSet);
      capabilities := Some(caps);
    }
    var inPlace :=
      FEATURE_SET_ANNOTATION in manifest.value && USI_IMAGE_FEATURE in o.tokens(manifest.value[FEATURE_SET_ANNOTATION]);
    r := Collected(CollectedImage(
      SourceImage(NormalizeTag(tag), cleanVersion, [arch], capabilities, inPlace, [], None, None), rawAnnotation));
  }

  /** What a worker sends, field by field, by the names of the annotations. */
  lemma TagFields(o: Oci, tag: string, m: map<string, string>, r: TagResult)
    requires TagYields(o, tag, Some(m), r) && "architecture" in m
    ensures r.Collected?
    ensures var img, raw := r.value.image, r.value.featureSetRaw;
            && |img.version| == |tag|
            && (forall i :: 0 <= i < |tag| ==> img.version[i] == if tag[i] == '_' then '+' else tag[i])
            && img.architectures == [m["architecture"]]
            && ("version" in m ==> img.cleanVersion == m["version"])
            && ("version" !in m ==> img.cleanVersion == "")
            && ("feature_set" in m ==> raw == m["feature_set"])
            && ("feature_set" !in m ==> raw == "")
            && (img.supportInPlaceUpdate <==> "_usi" in o.tokens(raw))
            && (img.capabilities.Some? <==> o.features != map[] && img.cleanVersion != "")
  {
  }

  /** If the worker builds a capability map from this manifest, features that share a capability name agree in
      it. */
  ghost predicate Determined(o: Oci, manifest: Option<map<string, string>>) {
    manifest.Some? && ARCHITECTURE_CAPABILITY in manifest.value &&
    Annotation(manifest.value, VERSION_ANNOTATION) != "" ==>
      Unambiguous(o.features, o.tokens(Annotation(manifest.value, FEATURE_SET_ANNOTATION)))
  }

  lemma TagResultUnique(o: Oci, tag: string, manifest: Option<map<string, string>>, r: TagResult, s: TagResult)
    requires Determined(o, manifest) && TagYields(o, tag, manifest, r) && TagYields(o, tag, manifest, s)
    ensures r == s
  {
    if r.Collected? && r.value.image.capabilities.Some? {
      CapabilitiesIndependentOfOrder(
        manifest.value[ARCHITECTURE_CAPABILITY], o.features, o.tokens(r.value.featureSetRaw));
    }
  }

  /** What a worker may send for a manifest when it walks the feature map in this order. */
  function ResultInOrder(o: Oci, tag: string, annotations: map<string, string>, order: seq<string>): TagResult
    requires ARCHITECTURE_CAPABILITY in annotations && forall f :: f in order ==> f in o.features
  {
    var arch, clean := annotations[ARCHITECTURE_CAPABILITY], Annotation(annotations, VERSION_ANNOTATION);
    var present := o.tokens(Annotation(annotations, FEATURE_SET_ANNOTATION));
    var caps := if o.features == map[] || clean == "" then None
                else Some(CapabilitiesInOrder(arch, o.features, present, order));
    Collected(CollectedImage(
      SourceImage(NormalizeTag(tag), clean, [arch], caps, USI_IMAGE_FEATURE in present, [], None, None),
      Annotation(annotations, FEATURE_SET_ANNOTATION)))
  }

  /** A manifest leaves the worker of a tag one result only exactly when it is determined. */
  lemma TagResultUniqueExactly(o: Oci, tag: string, manifest: Option<map<string, string>>)
    ensures Determined(o, manifest) <==>
              forall r, s :: TagYields(o, tag, manifest, r) && TagYields(o, tag, manifest, s) ==> r == s
  {
    if Determined(o, manifest) {
      forall r, s | TagYields(o, tag, manifest, r) && TagYields(o, tag, manifest, s) ensures r == s {
        TagResultUnique(o, tag, manifest, r, s);
      }
    } else {
      var present := o.tokens(Annotation(manifest.value, FEATURE_SET_ANNOTATION));
      var arch := manifest.value[ARCHITECTURE_CAPABILITY];
      CapabilitiesIndependentOfOrder(arch, o.features, present);
      var x, y :| Enumerates(x, o.features) && Enumerates(y, o.features) &&
        CapabilitiesInOrder(arch, o.features, present, x) != CapabilitiesInOrder(arch, o.features, present, y);
      assert TagYields(o, tag, manifest, ResultInOrder(o, tag, manifest.value, x));
      assert TagYields(o, tag, manifest, ResultInOrder(o, tag, manifest.value, y));
    }
  }

  // ---------------------------------------------------------------- the collector

  datatype Outcome = Failed | Versions(images: seq<SourceImage>)

  predicate PassesImageFilter(o: Oci, item: CollectedImage) {
    o.required.None? || forall req :: req in o.required.value ==> req in o.tokens(item.featureSetRaw)
  }

  /** What one received result adds to the images. */
  function Admitted(o: Oci, r: TagResult): Option<SourceImage> {
    if r.Collected? && PassesImageFilter(o, r.value) then Some(r.value.image) else None
  }

  function AdmittedImages(o: Oci, received: seq<TagResult>): seq<SourceImage> {
    FilterMap(received, r => Admitted(o, r))
  }

  /** Any cancellation fails the fetch, and so does a listing of which nothing but skipped tags came
      back. */
  function GetVersionsOutcome(o: Oci, received: seq<TagResult>): Outcome {
    if Cancelled in received || forall r :: r in received ==> r == Skipped then Failed
    else Versions(AdmittedImages(o, received))
  }

  function ValueOf(r: TagResult): Option<CollectedImage> {
    if r.Collected? then Some(r.value) else None
  }

  method Collect(o: Oci, received: seq<TagResult>) returns (outcome: Outcome, items: nat, skipped: nat, errs: nat)
    ensures outcome == GetVersionsOutcome(o, received)
    ensures outcome.Failed? <==> Cancelled in received || forall r :: r in received ==> r == Skipped
    ensures outcome.Versions? ==> KeepsRequired(o, FilterMap(received, ValueOf), outcome.images)
    ensures items + skipped + errs == |received|
    ensures items == |FilterMap(received, ValueOf)|
    ensures errs == multiset(received)[Cancelled] && skipped == multiset(received)[Skipped]
  {
    var collected: seq<CollectedImage> := [];
    skipped, errs := 0, 0;
    for i := 0 to |received|
      invariant |collected| + skipped + errs == i
      invariant collected + FilterMap(received[i..], ValueOf) == FilterMap(received, ValueOf)
      invariant errs == multiset(received[..i])[Cancelled] && skipped == multiset(received[..i])[Skipped]
    {
      var result := received[i];
      FilterMapStep(received, i, ValueOf, collected);
      assert received[..i + 1] == received[..i] + [result];
      if result.Cancelled? {
        errs := errs + 1;
      } else if result.Skipped? {
        skipped := skipped + 1;
      } else {
        collected := collected + [result.value];
      }
    }
    assert received[..|received|] == received;
    assert collected == FilterMap(received, ValueOf);
    var images := ApplyImageFilter(o, collected);
    FilterTwice(o, received);
    items := |collected|;
    assert errs == 0 <==> Cancelled !in multiset(received);
    SkippedCount(received);
    if skipped == |received| {
      NothingAdmitted(o, received);
    }
    assert Cancelled in multiset(received) <==> Cancelled in received;
    if errs > 0 || (|images| == 0 && skipped == |received|) {
      outcome := Failed;
    } else {
      outcome := Versions(images);
    }
  }

  lemma {:induction false} SkippedCount(received: seq<TagResult>)
    ensures multiset(received)[Skipped] <= |received|
    ensures multiset(received)[Skipped] == |received| <==> forall r :: r in received ==> r == Skipped
  {
    if received != [] {
      SkippedCount(received[1..]);
      assert received == [received[0]] + received[1..];
      assert multiset(received) == multiset{received[0]} + multiset(received[1..]);
      assert received[0] in received && forall r :: r in received[1..] ==> r in received;
    }
  }

  lemma {:induction false} NothingAdmitted(o: Oci, received: seq<TagResult>)
    requires forall r :: r in received ==> r == Skipped
    ensures AdmittedImages(o, received) == []
  {
    if received != [] {
      assert received[0] in received && forall r :: r in received[1..] ==> r in received;
      NothingAdmitted(o, received[1..]);
    }
  }

  function ImagesOf(items: seq<CollectedImage>): (images: seq<SourceImage>)
    ensures |images| == |items| && forall i :: 0 <= i < |items| ==> images[i] == items[i].image
  {
    seq(|items|, i requires 0 <= i < |items| => items[i].image)
  }

  /** `kept` is a subsequence of exactly the items whose tokens include every required value. */
  ghost predicate KeptItems(o: Oci, items: seq<CollectedImage>, kept: seq<CollectedImage>) {
    && Subsequence(kept, items)
    && forall item :: item in kept <==>
         && item in items
         && (o.required.None? || forall req :: req in o.required.value ==> req in o.tokens(item.featureSetRaw))
  }

  /** The images of such a subsequence: what the filter admits, without reference to how it decides. */
  ghost predicate KeepsRequired(o: Oci, items: seq<CollectedImage>, images: seq<SourceImage>) {
    exists kept :: KeptItems(o, items, kept) && images == ImagesOf(kept)
  }

  lemma {:induction false} FilteredBySelection(o: Oci, items: seq<CollectedImage>)
    ensures FilteredImages(o, items) == ImagesOf(Select(items, i => PassesImageFilter(o, i)))
  {
    if items != [] {
      FilteredBySelection(o, items[1..]);
      var passes := i => PassesImageFilter(o, i);
      var rest := Select(items[1..], passes);
      assert ImagesOf([items[0]] + rest) == [items[0].image] + ImagesOf(rest);
      assert Select(items, passes) == if passes(items[0]) then [items[0]] + rest else rest;
    }
  }

  lemma FilteredExactly(o: Oci, items: seq<CollectedImage>)
    ensures KeepsRequired(o, items, FilteredImages(o, items))
  {
    var passes := i => PassesImageFilter(o, i);
    FilteredBySelection(o, items);
    SelectIsSubsequence(items, passes);
    assert KeptItems(o, items, Select(items, passes));
  }

  function FilteredImages(o: Oci, items: seq<CollectedImage>): seq<SourceImage> {
    FilterMap(items, (i: CollectedImage) => if PassesImageFilter(o, i) then Some(i.image) else None)
  }

  method ApplyImageFilter(o: Oci, items: seq<CollectedImage>) returns (images: seq<SourceImage>)
    ensures images == FilteredImages(o, items)
    ensures KeepsRequired(o, items, images)
  {
    images := [];
    ghost var admit := (i: CollectedImage) => if PassesImageFilter(o, i) then Some(i.image) else None;
    for i := 0 to |items|
      invariant images + FilterMap(items[i..], admit) == FilterMap(items, admit)
    {
      FilterMapStep(items, i, admit, images);
      if o.required.Some? {
        var passes := true;
        var raw := o.tokens(items[i].featureSetRaw);
        for j := 0 to |o.required.value|
          invariant passes <==> forall req :: req in o.required.value[..j] ==> req in raw
        {
          assert o.required.value[..j + 1] == o.required.value[..j] + [o.required.value[j]];
          if o.required.value[j] !in raw {
            passes := false;
          }
        }
        assert o.required.value[..|o.required.value|] == o.required.value;
        if !passes {
          continue;
        }
      }
      images := images + [items[i].image];
    }
    FilteredExactly(o, items);
  }

  lemma {:induction false} FilterTwice(o: Oci, received: seq<TagResult>)
    ensures FilteredImages(o, FilterMap(received, ValueOf)) == AdmittedImages(o, received)
  {
    if received != [] {
      FilterTwice(o, received[1..]);
      var rest := FilterMap(received[1..], ValueOf);
      if received[0].Collected? {
        assert FilterMap(received, ValueOf) == [received[0].value] + rest;
        assert ([received[0].value] + rest)[1..] == rest;
      } else {
        assert FilterMap(received, ValueOf) == rest;
      }
    }
  }

  // ---------------------------------------------------------------- schedule independence

  function NormalForms(tags: seq<string>): (forms: seq<string>)
    ensures |forms| == |tags| && forall i :: 0 <= i < |tags| ==> forms[i] == NormalizeTag(tags[i])
  {
    seq(|tags|, i requires 0 <= i < |tags| => NormalizeTag(tags[i]))
  }

  /** Distinct tags without a plus sign, which registries do not allow in tags, have distinct normal forms. */
  lemma DistinctForms(tags: seq<string>)
    requires Distinct(tags) && forall t :: t in tags ==> '+' !in t
    ensures Distinct(NormalForms(tags))
  {
    forall i, j | 0 <= i < j < |tags| ensures NormalForms(tags)[i] != NormalForms(tags)[j] {
      assert tags[i] in tags && tags[j] in tags;
      NormalizeTagInjective(tags[i]);
    }
  }

  lemma {:induction false} ImageTags(o: Oci, tags: seq<string>, results: seq<TagResult>)
    requires |tags| == |results| && Distinct(NormalForms(tags))
    requires forall i :: 0 <= i < |tags| && results[i].Collected? ==>
               results[i].value.image.version == NormalizeTag(tags[i])
    ensures Distinct(Tags(AdmittedImages(o, results)))
    ensures forall img :: img in AdmittedImages(o, results) ==> img.version in NormalForms(tags)
  {
    if tags != [] {
      assert NormalForms(tags) == [NormalizeTag(tags[0])] + NormalForms(tags[1..]);
      DistinctTail(NormalForms(tags));
      ImageTags(o, tags[1..], results[1..]);
      var first, rest := Admitted(o, results[0]), AdmittedImages(o, results[1..]);
      if first.Some? {
        assert AdmittedImages(o, results) == [first.value] + rest;
        TagsCons(first.value, rest);
      } else {
        assert AdmittedImages(o, results) == rest;
      }
    }
  }

  lemma DistinctTail(s: seq<string>)
    requires s != [] && Distinct(s)
    ensures Distinct(s[1..]) && s[0] !in s[1..]
  {
  }

  lemma TagsCons(img: SourceImage, rest: seq<SourceImage>)
    requires Distinct(Tags(rest)) && forall x :: x in rest ==> x.version != img.version
    ensures Distinct(Tags([img] + rest))
  {
    var all := [img] + rest;
    forall i, j | 0 <= i < j < |all| ensures Tags(all)[i] != Tags(all)[j] {
      if i == 0 {
        assert all[j] == rest[j - 1] && rest[j - 1] in rest;
      } else {
        assert Tags(rest)[i - 1] != Tags(rest)[j - 1];
      }
    }
  }

  lemma OutcomeOfPermutation(o: Oci, a: seq<TagResult>, b: seq<TagResult>)
    requires multiset(a) == multiset(b)
    ensures GetVersionsOutcome(o, a).Failed? <==> GetVersionsOutcome(o, b).Failed?
    ensures multiset(AdmittedImages(o, a)) == multiset(AdmittedImages(o, b))
  {
    SameMembers(a, b);
    FilterMapPermutation(a, b, r => Admitted(o, r));
  }

  /** The workers of these tags, with the manifests they get. */
  ghost predicate Fetches(o: Oci, tags: seq<string>, manifests: seq<Option<map<string, string>>>, e: Env<TagResult>) {
    && |tags| == |manifests| == |e.results|
    && (forall i :: 0 <= i < |tags| ==> TagYields(o, tags[i], manifests[i], e.results[i]))
    && !e.mayCancel && e.capacity == 0 && !e.stopsOnCancel
  }

  ghost predicate Complete(e: Env<TagResult>, run: seq<State<TagResult>>) {
    WorkerProtocol.Run(e, run) && Finished(e, run[|run| - 1])
  }

  /** The outcome of a complete run. */
  ghost function OutcomeOf(o: Oci, e: Env<TagResult>, run: seq<State<TagResult>>): Outcome
    requires Complete(e, run)
  {
    SafeAlways(e, run, |run| - 1);
    GetVersionsOutcome(o, Received(run[|run| - 1]))
  }

  /** Every interleaving of the workers, the semaphore and the collector, with any number of tokens and
      any walk of the feature map, leads to the same fetched images, or fails like all the others. */
  lemma FetchIndependentOfSchedule(
    o: Oci, lib: Library, tags: seq<string>, manifests: seq<Option<map<string, string>>>,
    e: Env<TagResult>, a: seq<State<TagResult>>, f: Env<TagResult>, b: seq<State<TagResult>>, keep: SourceImage -> bool)
    requires Plain(o, tags, manifests)
    requires Fetches(o, tags, manifests, e) && Complete(e, a)
    requires Fetches(o, tags, manifests, f) && Complete(f, b)
    ensures var x, y := OutcomeOf(o, e, a), OutcomeOf(o, f, b);
            && (x.Failed? <==> y.Failed?)
            && (x.Versions? ==>
                  forall r, s :: FetchResult(lib, x.images, keep, r) && FetchResult(lib, y.images, keep, s) ==> r == s)
  {
    SameReports(o, tags, manifests, e, a, f, b);
    var x, y := OutcomeOf(o, e, a), OutcomeOf(o, f, b);
    if x.Versions? {
      forall r, s | FetchResult(lib, x.images, keep, r) && FetchResult(lib, y.images, keep, s) ensures r == s {
        FetchErasesOrder(lib, x.images, y.images, keep, r, s);
      }
    }
  }

  /** Tags with distinct normal forms, and manifests that leave each worker one result. */
  ghost predicate Plain(o: Oci, tags: seq<string>, manifests: seq<Option<map<string, string>>>) {
    Distinct(NormalForms(tags)) && forall i :: 0 <= i < |manifests| ==> Determined(o, manifests[i])
  }

  /** Two complete runs fail alike, or report the same images under distinct tags, in some order. */
  lemma SameReports(
    o: Oci, tags: seq<string>, manifests: seq<Option<map<string, string>>>,
    e: Env<TagResult>, a: seq<State<TagResult>>, f: Env<TagResult>, b: seq<State<TagResult>>)
    requires Plain(o, tags, manifests)
    requires Fetches(o, tags, manifests, e) && Complete(e, a)
    requires Fetches(o, tags, manifests, f) && Complete(f, b)
    ensures var x, y := OutcomeOf(o, e, a), OutcomeOf(o, f, b);
            && (x.Failed? <==> y.Failed?)
            && (x.Versions? ==> multiset(x.images) == multiset(y.images) && Distinct(Tags(x.images)))
            && (x.Versions? ==> multiset(x.images) == multiset(AdmittedImages(o, e.results)))
  {
    forall i | 0 <= i < |tags| ensures e.results[i] == f.results[i] {
      TagResultUnique(o, tags[i], manifests[i], e.results[i], f.results[i]);
    }
    assert e.results == f.results;
    ScheduleOnlyOrders(e, a);
    ScheduleOnlyOrders(f, b);
    var x, y := Received(a[|a| - 1]), Received(b[|b| - 1]);
    OutcomeOfPermutation(o, x, y);
    OutcomeOfPermutation(o, x, e.results);
    ImageTags(o, tags, e.results);
    TagsOfPermutation(AdmittedImages(o, x), AdmittedImages(o, e.results));
  }

  /** Items, skipped tags and errors add up to the tags, for every complete run, cancelled or not. */
  lemma CountsAddUp(o: Oci, e: Env<TagResult>, run: seq<State<TagResult>>)
    requires e.capacity == 0 && FinishedRun(e, run)
    ensures var s := run[|run| - 1];
            && s.received <= |s.sent|
            && |FilterMap(Received(s), ValueOf)| + multiset(Received(s))[Skipped] + multiset(Received(s))[Cancelled] ==
                 |e.results|
  {
    ExactlyOneMessageEach(e, run);
    KindsAddUp(Received(run[|run| - 1]));
  }

  lemma {:induction false} KindsAddUp(received: seq<TagResult>)
    ensures |FilterMap(received, ValueOf)| + multiset(received)[Skipped] + multiset(received)[Cancelled] == |received|
  {
    if received != [] {
      KindsAddUp(received[1..]);
      assert received == [received[0]] + received[1..];
      assert multiset(received) == multiset{received[0]} + multiset(received[1..]);
    }
  }
}
