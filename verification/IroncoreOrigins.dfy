/** Where the entries and flavors of the Ironcore configuration come from, read off the base and the sources. */
module IroncoreOrigins {
  import opened Prelude
  import opened Keyed
  import opened Images
  import opened IroncoreProvider
  import opened IroncoreTheorems

  // ---------------------------------------------------------------- where everything comes from

  /** Source `j` writes a flavor under clean version `k`: capabilities are enabled, it has some, and its clean
      version is set and is not its tag. */
  predicate Flavors(p: Ironcore, srcs: seq<SourceImage>, j: nat, k: string) {
    && j < |srcs| && p.enableCapabilities && srcs[j].capabilities.Some?
    && srcs[j].cleanVersion == k && k != "" && srcs[j].version != k
  }

  /** The flavor it writes. */
  function FlavorOf(p: Ironcore, src: SourceImage): (f: MetalFlavor)
    requires src.capabilities.Some?
    ensures f.image == p.registry + "/" + p.repository + ":" + src.version && f.capabilities == src.capabilities.value
  {
    MetalFlavor(p.Ref(src.version), src.capabilities.value)
  }

  /** Entry `e` is new for a source: the flat entry of its tag and one of its architectures, or the group of its
      clean version. */
  ghost predicate NewFor(p: Ironcore, srcs: seq<SourceImage>, j: nat, e: MetalEntry) {
    j < |srcs| && (NewFlat(p, srcs[j], e) ||
      (Flavors(p, srcs, j, e.key) && e.body.image == "" && e.body.architecture.None?))
  }

  predicate NewFlat(p: Ironcore, src: SourceImage, e: MetalEntry) {
    && e.key == src.version && e.body.image == p.registry + "/" + p.repository + ":" + src.version
    && e.body.architecture.Some? && e.body.architecture.value in src.architectures && e.body.capabilityFlavors == []
  }

  /** Flavor `f` under version `k` is the one source `j` writes. */
  ghost predicate WrittenBy(p: Ironcore, srcs: seq<SourceImage>, j: nat, k: string, f: MetalFlavor) {
    Flavors(p, srcs, j, k) && f == FlavorOf(p, srcs[j])
  }

  ghost predicate NewForSome(p: Ironcore, srcs: seq<SourceImage>, e: MetalEntry) {
    exists j: nat :: NewFor(p, srcs, j, e)
  }

  ghost predicate WrittenBySome(p: Ironcore, srcs: seq<SourceImage>, k: string, f: MetalFlavor) {
    exists j: nat :: WrittenBy(p, srcs, j, k, f)
  }

  /** Flavor `f` was in entry `i` already. */
  predicate Had(versions: seq<MetalEntry>, i: nat, f: MetalFlavor) {
    i < |versions| && f in versions[i].body.capabilityFlavors
  }

  lemma FlavorsSnoc(p: Ironcore, srcs: seq<SourceImage>, j: nat, k: string)
    requires srcs != []
    ensures j < |srcs| - 1 ==> (Flavors(p, srcs, j, k) <==> Flavors(p, srcs[..|srcs| - 1], j, k))
    ensures Flavors(p, srcs, |srcs| - 1, k) <==>
              p.WritesFlavor(srcs[|srcs| - 1]) && srcs[|srcs| - 1].cleanVersion == k
  {
  }

  lemma {:induction false} FlatOrigins(
      versions: seq<MetalEntry>, version: string, ref: string, archs: seq<string>, i: nat)
    requires |versions| <= i < |AddFlat(versions, version, ref, archs)|
    ensures var e := AddFlat(versions, version, ref, archs)[i];
            && e.key == version && e.body.image == ref && e.body.architecture.Some?
            && e.body.architecture.value in archs && e.body.capabilityFlavors == []
    decreases |archs|
  {
    var next := if Covered(versions, ref, archs[0]) then versions
                else versions + [Entry(version, MetalVersion(ref, Some(archs[0]), []))];
    assert archs == [archs[0]] + archs[1..];
    if i < |next| {
      AddFlatPrefix(next, version, ref, archs[1..]);
    } else {
      FlatOrigins(next, version, ref, archs[1..], i);
    }
  }

  /** One step: flavors come from the state or from this source. */
  lemma StepFlavors(p: Ironcore, st: State, src: SourceImage, i: nat, f: MetalFlavor)
    requires Pointing(st) && Had(Step(p, st, src).versions, i, f)
    ensures Had(st.versions, i, f) ||
              (p.WritesFlavor(src) && Step(p, st, src).versions[i].key == src.cleanVersion && f == FlavorOf(p, src))
  {
    AddFlatPrefix(st.versions, src.version, p.Ref(src.version), src.architectures);
    var flat := Flat(p, st, src);
    assert Had(flat.versions, i, f) ==> Had(st.versions, i, f);
  }

  lemma WrittenEarlier(p: Ironcore, srcs: seq<SourceImage>, k: string, f: MetalFlavor)
    requires srcs != [] && WrittenBySome(p, srcs[..|srcs| - 1], k, f)
    ensures WrittenBySome(p, srcs, k, f)
  {
    var j: nat :| WrittenBy(p, srcs[..|srcs| - 1], j, k, f);
    assert WrittenBy(p, srcs, j, k, f);
  }

  lemma StepOrigins(p: Ironcore, t: State, srcs: seq<SourceImage>, i: nat, f: MetalFlavor)
    requires srcs != [] && Pointing(t) && Had(Step(p, t, srcs[|srcs| - 1]).versions, i, f)
    ensures var k := Step(p, t, srcs[|srcs| - 1]).versions[i].key;
            (Had(t.versions, i, f) && t.versions[i].key == k) || WrittenBySome(p, srcs, k, f)
  {
    var n := |srcs| - 1;
    StepFlavors(p, t, srcs[n], i, f);
    if Had(t.versions, i, f) {
      StepExtends(p, t, srcs[n]);
    } else {
      assert WrittenBy(p, srcs, n, srcs[n].cleanVersion, f);
    }
  }

  /** Every flavor of the result was in the same entry before, or is the one some source writes there. */
  lemma {:induction false} FlavorOrigins(p: Ironcore, st: State, srcs: seq<SourceImage>, i: nat, f: MetalFlavor)
    requires Pointing(st) && Had(Run(p, st, srcs).versions, i, f)
    ensures Had(st.versions, i, f) || WrittenBySome(p, srcs, Run(p, st, srcs).versions[i].key, f)
    decreases |srcs|
  {
    if srcs != [] {
      var n := |srcs| - 1;
      var t := Run(p, st, srcs[..n]);
      StepOrigins(p, t, srcs, i, f);
      if Had(t.versions, i, f) && t.versions[i].key == Run(p, st, srcs).versions[i].key {
        FlavorOrigins(p, st, srcs[..n], i, f);
        if !Had(st.versions, i, f) {
          WrittenEarlier(p, srcs, t.versions[i].key, f);
        }
      }
    }
  }

  lemma StepEntries(p: Ironcore, st: State, src: SourceImage, i: nat)
    requires Pointing(st) && |st.versions| <= i < |Step(p, st, src).versions|
    ensures var e := Step(p, st, src).versions[i];
            || (e.key == src.version && e.body.image == p.Ref(src.version) && e.body.architecture.Some?
                && e.body.architecture.value in src.architectures && e.body.capabilityFlavors == [])
            || (p.WritesFlavor(src) && e.key == src.cleanVersion && e.body.image == "" && e.body.architecture.None?)
  {
    var flat := Flat(p, st, src);
    if i < |flat.versions| {
      FlatOrigins(st.versions, src.version, p.Ref(src.version), src.architectures, i);
    }
  }

  /** Flat entries appended by the run are never indexed, so they get no flavors. */
  ghost predicate FlatUnindexed(n: nat, st: State)
    requires Pointing(st)
  {
    forall k :: k in st.index && st.index[k] >= n ==> st.versions[st.index[k]].body.architecture.None?
  }

  lemma StepUnindexed(p: Ironcore, n: nat, st: State, src: SourceImage)
    requires Pointing(st) && FlatUnindexed(n, st) && n <= |st.versions|
    ensures FlatUnindexed(n, Step(p, st, src))
  {
    AddFlatPrefix(st.versions, src.version, p.Ref(src.version), src.architectures);
  }

  lemma StepKeepsFlat(p: Ironcore, n: nat, st: State, src: SourceImage, i: nat)
    requires Pointing(st) && FlatUnindexed(n, st) && n <= i < |st.versions|
    requires st.versions[i].body.architecture.Some?
    ensures i < |Step(p, st, src).versions| && Step(p, st, src).versions[i] == st.versions[i]
  {
    AddFlatPrefix(st.versions, src.version, p.Ref(src.version), src.architectures);
  }

  lemma {:induction false} EntryOrigins(p: Ironcore, st: State, srcs: seq<SourceImage>, i: nat)
    requires Pointing(st) && |st.versions| <= i < |Run(p, st, srcs).versions|
    ensures FlatUnindexed(|st.versions|, Run(p, st, srcs))
    ensures exists j: nat :: NewFor(p, srcs, j, Run(p, st, srcs).versions[i])
    decreases |srcs|
  {
    var n := |srcs| - 1;
    var t, r := Run(p, st, srcs[..n]), Run(p, st, srcs);
    RunExtends(p, st, srcs[..n]);
    UnindexedRun(p, st, srcs[..n]);
    StepUnindexed(p, |st.versions|, t, srcs[n]);
    if i < |t.versions| {
      EntryOrigins(p, st, srcs[..n], i);
      var j: nat :| NewFor(p, srcs[..n], j, t.versions[i]);
      StepExtends(p, t, srcs[n]);
      if t.versions[i].body.architecture.Some? {
        StepKeepsFlat(p, |st.versions|, t, srcs[n], i);
      }
      FlavorsSnoc(p, srcs, j, t.versions[i].key);
      assert NewFor(p, srcs, j, r.versions[i]);
    } else {
      StepEntries(p, t, srcs[n], i);
      FlavorsSnoc(p, srcs, n, r.versions[i].key);
      assert NewFor(p, srcs, n, r.versions[i]);
    }
  }

  lemma {:induction false} UnindexedRun(p: Ironcore, st: State, srcs: seq<SourceImage>)
    requires Pointing(st)
    ensures FlatUnindexed(|st.versions|, Run(p, st, srcs))
    decreases |srcs|
  {
    if srcs != [] {
      var n := |srcs| - 1;
      RunExtends(p, st, srcs[..n]);
      UnindexedRun(p, st, srcs[..n]);
      StepUnindexed(p, |st.versions|, Run(p, st, srcs[..n]), srcs[n]);
    }
  }

  // ---------------------------------------------------------------- the first flavor stays

  lemma {:induction false} LaterExtends(p: Ironcore, st: State, srcs: seq<SourceImage>, j: nat)
    requires Pointing(st) && j <= |srcs|
    ensures Extends(Run(p, st, srcs[..j]), Run(p, st, srcs))
    decreases |srcs|
  {
    if j == |srcs| {
      assert srcs[..j] == srcs;
    } else {
      var n := |srcs| - 1;
      LaterExtends(p, st, srcs[..n], j);
      assert srcs[..n][..j] == srcs[..j];
      StepExtends(p, Run(p, st, srcs[..n]), srcs[n]);
      ExtendsTwice(Run(p, st, srcs[..j]), Run(p, st, srcs[..n]), Run(p, st, srcs));
    }
  }

  lemma ExtendsTwice(a: State, b: State, c: State)
    requires Extends(a, b) && Extends(b, c)
    ensures Extends(a, c)
  {
  }

  /** The entry the index holds for version `k` has no flavor with this image. */
  ghost predicate Lacks(st: State, k: string, ref: string)
    requires Pointing(st)
  {
    k in st.index ==> !HasImage(st.versions[st.index[k]].body.capabilityFlavors, ref)
  }

  /** No source before `j` has its tag and clean version and writes a flavor. */
  ghost predicate FirstOfTag(p: Ironcore, srcs: seq<SourceImage>, j: nat, k: string) {
    Flavors(p, srcs, j, k) && forall i: nat :: i < j && Flavors(p, srcs, i, k) ==> srcs[i].version != srcs[j].version
  }

  /** Old entries are indexed only if they were at the start. */
  ghost predicate OldIndexed(st: State, t: State) {
    forall k :: k in t.index && t.index[k] < |st.versions| ==> k in st.index && st.index[k] == t.index[k]
  }

  lemma {:induction false} OldIndexedRun(p: Ironcore, st: State, srcs: seq<SourceImage>)
    requires Pointing(st)
    ensures OldIndexed(st, Run(p, st, srcs))
    decreases |srcs|
  {
    if srcs != [] {
      var n := |srcs| - 1;
      OldIndexedRun(p, st, srcs[..n]);
      RunExtends(p, st, srcs[..n]);
      AddFlatPrefix(Run(p, st, srcs[..n]).versions, srcs[n].version, p.Ref(srcs[n].version), srcs[n].architectures);
    }
  }

  /** What the picked entry lacks at the start it lacks until the first source of the tag. */
  lemma StillLacks(p: Ironcore, st: State, srcs: seq<SourceImage>, j: nat, k: string)
    requires Pointing(st) && FirstOfTag(p, srcs, j, k) && Lacks(st, k, p.Ref(srcs[j].version))
    ensures Lacks(Run(p, st, srcs[..j]), k, p.Ref(srcs[j].version))
  {
    var t, ref := Run(p, st, srcs[..j]), p.Ref(srcs[j].version);
    if k in t.index && HasImage(t.versions[t.index[k]].body.capabilityFlavors, ref) {
      var flavors := t.versions[t.index[k]].body.capabilityFlavors;
      var x :| 0 <= x < |flavors| && flavors[x].image == ref;
      OldIndexedRun(p, st, srcs[..j]);
      FlavorOrigins(p, st, srcs[..j], t.index[k], flavors[x]);
      if !Had(st.versions, t.index[k], flavors[x]) {
        var i: nat :| WrittenBy(p, srcs[..j], i, t.versions[t.index[k]].key, flavors[x]);
        assert Flavors(p, srcs, i, k);
        RefInjective(p, srcs[i].version, srcs[j].version);
      }
      assert false;
    }
  }

  lemma StepWrites(p: Ironcore, st: State, src: SourceImage)
    requires Pointing(st) && p.WritesFlavor(src) && Lacks(st, src.cleanVersion, p.Ref(src.version))
    ensures var t := Step(p, st, src);
            && src.cleanVersion in t.index
            && FlavorOf(p, src) in t.versions[t.index[src.cleanVersion]].body.capabilityFlavors
  {
    AddFlatPrefix(st.versions, src.version, p.Ref(src.version), src.architectures);
    var flat, t := Flat(p, st, src), Step(p, st, src);
    var flavors := t.versions[t.index[src.cleanVersion]].body.capabilityFlavors;
    assert flavors[|flavors| - 1] == FlavorOf(p, src);
  }

  /** The flavor of the first source of a tag ends in the picked entry, as that source has it. */
  lemma FirstStays(p: Ironcore, st: State, srcs: seq<SourceImage>, j: nat, k: string)
    requires Pointing(st) && FirstOfTag(p, srcs, j, k) && Lacks(st, k, p.Ref(srcs[j].version))
    ensures var r := Run(p, st, srcs);
            k in r.index && r.versions[r.index[k]].key == k && Had(r.versions, r.index[k], FlavorOf(p, srcs[j]))
  {
    assert srcs[..j + 1][..j] == srcs[..j];
    StillLacks(p, st, srcs, j, k);
    StepWrites(p, Run(p, st, srcs[..j]), srcs[j]);
    LaterExtends(p, st, srcs, j + 1);
    var t := Run(p, st, srcs[..j + 1]);
    HadLater(t, Run(p, st, srcs), t.index[k], FlavorOf(p, srcs[j]));
  }

  lemma HadLater(t: State, r: State, i: nat, f: MetalFlavor)
    requires Extends(t, r) && Had(t.versions, i, f)
    ensures Had(r.versions, i, f)
  {
    var before := t.versions[i].body.capabilityFlavors;
    var x :| 0 <= x < |before| && before[x] == f;
    assert r.versions[i].body.capabilityFlavors[x] == f;
  }

  // ---------------------------------------------------------------- the theorem

  /** Some entry has this reference and architecture. */
  predicate HasFlat(versions: seq<MetalEntry>, ref: string, arch: string) {
    exists e :: e in versions && e.body.image == ref && e.body.architecture == Some(arch)
  }

  /** Some source brings this reference and architecture. */
  predicate Brought(p: Ironcore, srcs: seq<SourceImage>, ref: string, arch: string) {
    exists s :: s in srcs && ref == p.registry + "/" + p.repository + ":" + s.version && arch in s.architectures
  }

  /** The last base entry of the version, if there is one, has no flavor with this reference. */
  predicate BaseLacks(base: seq<MetalEntry>, k: string, ref: string) {
    forall i :: 0 <= i < |base| && LastAt(base, k, i) ==>
      forall f :: f in base[i].body.capabilityFlavors ==> f.image != ref
  }

  predicate LastAt(base: seq<MetalEntry>, k: string, i: nat) {
    i < |base| && base[i].key == k && forall h :: i < h < |base| ==> base[h].key != k
  }

  lemma FlatExactly(p: Ironcore, base: seq<MetalEntry>, srcs: seq<SourceImage>, ref: string, a: string)
    ensures HasFlat(ConfiguredVersions(p, base, srcs), ref, a) <==> HasFlat(base, ref, a) || Brought(p, srcs, ref, a)
  {
    var r := ConfiguredVersions(p, base, srcs);
    Coverage(p, Start(base), srcs, ref, a);
    FlatIsCovered(r, ref, a);
    FlatIsCovered(base, ref, a);
  }

  lemma FlatIsCovered(versions: seq<MetalEntry>, ref: string, a: string)
    ensures HasFlat(versions, ref, a) <==> Covered(versions, ref, a)
  {
    if Covered(versions, ref, a) {
      var i :| 0 <= i < |versions| && versions[i].body.image == ref && versions[i].body.architecture == Some(a);
      assert versions[i] in versions;
    }
  }

  lemma StartLacks(p: Ironcore, base: seq<MetalEntry>, k: string, ref: string)
    requires BaseLacks(base, k, ref)
    ensures Lacks(Start(base), k, ref)
  {
    var st := Start(base);
    if k in st.index {
      assert LastAt(base, k, st.index[k]);
    }
  }

  lemma FirstEnds(p: Ironcore, base: seq<MetalEntry>, srcs: seq<SourceImage>, j: nat, k: string)
    requires FirstOfTag(p, srcs, j, k) && BaseLacks(base, k, FlavorOf(p, srcs[j]).image)
    ensures var r := ConfiguredVersions(p, base, srcs);
            exists i: nat :: Had(r, i, FlavorOf(p, srcs[j])) && r[i].key == k
  {
    StartLacks(p, base, k, FlavorOf(p, srcs[j]).image);
    FirstStays(p, Start(base), srcs, j, k);
    assert Had(ConfiguredVersions(p, base, srcs), Run(p, Start(base), srcs).index[k], FlavorOf(p, srcs[j]));
  }

  /** The configuration of the image, read off the base and the sources. A pair of reference and architecture has
      an entry exactly when it had one or a source brings it; every new entry is the flat entry of a source's
      tag or the group of its clean version; every new flavor is under the clean version of a source that
      writes one, with the reference and the capabilities of that source; and of the sources of one tag and
      clean version the first has its flavor there, unless the picked base entry had one with that reference
      already. */
  lemma ConfiguredFrom(p: Ironcore, base: seq<MetalEntry>, srcs: seq<SourceImage>)
    ensures var r := ConfiguredVersions(p, base, srcs);
            && (forall ref, a :: HasFlat(r, ref, a) <==> HasFlat(base, ref, a) || Brought(p, srcs, ref, a))
            && (forall i: nat :: |base| <= i < |r| ==> NewForSome(p, srcs, r[i]))
            && (forall i: nat, f :: Had(r, i, f) ==> Had(base, i, f) || WrittenBySome(p, srcs, r[i].key, f))
            && (forall j: nat, k :: FirstOfTag(p, srcs, j, k) && BaseLacks(base, k, FlavorOf(p, srcs[j]).image) ==>
                  exists i: nat :: Had(r, i, FlavorOf(p, srcs[j])) && r[i].key == k)
  {
    var r := ConfiguredVersions(p, base, srcs);
    forall ref, a ensures HasFlat(r, ref, a) <==> HasFlat(base, ref, a) || Brought(p, srcs, ref, a) {
      FlatExactly(p, base, srcs, ref, a);
    }
    forall i: nat | |base| <= i < |r| ensures NewForSome(p, srcs, r[i]) {
      EntryOrigins(p, Start(base), srcs, i);
    }
    forall i: nat, f | Had(r, i, f) ensures Had(base, i, f) || WrittenBySome(p, srcs, r[i].key, f) {
      FlavorOrigins(p, Start(base), srcs, i, f);
    }
    forall j: nat, k | FirstOfTag(p, srcs, j, k) && BaseLacks(base, k, FlavorOf(p, srcs[j]).image)
      ensures exists i: nat :: Had(r, i, FlavorOf(p, srcs[j])) && r[i].key == k {
      FirstEnds(p, base, srcs, j, k);
    }
  }
}
