/** What `Configure` of the Ironcore provider guarantees, and exactly when repeating it changes
    nothing. */
module IroncoreTheorems {
  import opened Prelude
  import opened Keyed
  import opened Images
  import opened IroncoreProvider

  lemma RefInjective(p: Ironcore, v: string, w: string)
    ensures p.Ref(v) == p.Ref(w) <==> v == w
  {
    var a := p.registry + "/" + p.repository + ":";
    assert p.Ref(v)[|a|..] == v && p.Ref(w)[|a|..] == w;
  }

  // ---------------------------------------------------------------- what a run keeps

  /** Entries keep their place, version, image and architecture, their flavors only grow, and the
      index keeps what it points at. */
  ghost predicate Extends(st: State, t: State) {
    && |st.versions| <= |t.versions|
    && (forall i :: 0 <= i < |st.versions| ==>
          && t.versions[i].key == st.versions[i].key
          && t.versions[i].body.image == st.versions[i].body.image
          && t.versions[i].body.architecture == st.versions[i].body.architecture
          && st.versions[i].body.capabilityFlavors <= t.versions[i].body.capabilityFlavors)
    && forall k :: k in st.index ==> k in t.index && t.index[k] == st.index[k]
  }

  lemma StepExtends(p: Ironcore, st: State, src: SourceImage)
    requires Pointing(st)
    ensures Extends(st, Step(p, st, src))
  {
    AddFlatPrefix(st.versions, src.version, p.Ref(src.version), src.architectures);
  }

  lemma {:induction false} RunExtends(p: Ironcore, st: State, srcs: seq<SourceImage>)
    requires Pointing(st)
    ensures Extends(st, Run(p, st, srcs))
    decreases |srcs|
  {
    if srcs != [] {
      RunExtends(p, st, srcs[..|srcs| - 1]);
      StepExtends(p, Run(p, st, srcs[..|srcs| - 1]), srcs[|srcs| - 1]);
    }
  }

  /** The index map is partial, but it always points at an entry of its version, and no entry a run
      leaves behind is renamed. */
  lemma IndexAlwaysPoints(p: Ironcore, base: seq<MetalEntry>, srcs: seq<SourceImage>)
    ensures Pointing(Run(p, Start(base), srcs))
    ensures var r := ConfiguredVersions(p, base, srcs);
            |base| <= |r| && forall i :: 0 <= i < |base| ==>
              && r[i].key == base[i].key
              && r[i].body.image == base[i].body.image
              && r[i].body.architecture == base[i].body.architecture
              && base[i].body.capabilityFlavors <= r[i].body.capabilityFlavors
  {
    RunExtends(p, Start(base), srcs);
  }

  // ---------------------------------------------------------------- coverage

  lemma {:induction false} FlatCovers(
      versions: seq<MetalEntry>, version: string, ref: string, archs: seq<string>, r: string, a: string)
    ensures Covered(AddFlat(versions, version, ref, archs), r, a) <==>
              Covered(versions, r, a) || (r == ref && a in archs)
    decreases |archs|
  {
    if archs != [] {
      var e := Entry(version, MetalVersion(ref, Some(archs[0]), []));
      var next := if Covered(versions, ref, archs[0]) then versions else versions + [e];
      FlatCovers(next, version, ref, archs[1..], r, a);
      assert archs == [archs[0]] + archs[1..];
      CoveredAppend(versions, e, r, a);
    }
  }

  lemma FlavorKeepsCoverage(st: State, clean: string, flavor: MetalFlavor, r: string, a: string)
    requires Pointing(st)
    ensures Covered(AddFlavor(st, clean, flavor).versions, r, a) <==> Covered(st.versions, r, a)
  {
    var t := AddFlavor(st, clean, flavor);
    if clean in st.index {
      assert forall i :: 0 <= i < |st.versions| ==> t.versions[i].body.image == st.versions[i].body.image;
      assert forall i :: 0 <= i < |st.versions| ==> t.versions[i].body.architecture == st.versions[i].body.architecture;
    } else {
      CoveredAppend(st.versions, Entry(clean, MetalVersion("", None, [flavor])), r, a);
    }
  }

  /** An image and architecture has an entry exactly when it had one or a source brings it. */
  lemma {:induction false} Coverage(p: Ironcore, st: State, srcs: seq<SourceImage>, r: string, a: string)
    requires Pointing(st)
    ensures Covered(Run(p, st, srcs).versions, r, a) <==>
              Covered(st.versions, r, a) || exists s :: s in srcs && p.Ref(s.version) == r && a in s.architectures
    decreases |srcs|
  {
    if srcs != [] {
      var rest, src := srcs[..|srcs| - 1], srcs[|srcs| - 1];
      var t := Run(p, st, rest);
      assert srcs == rest + [src];
      Coverage(p, st, rest, r, a);
      FlatCovers(t.versions, src.version, p.Ref(src.version), src.architectures, r, a);
      if p.WritesFlavor(src) {
        FlavorKeepsCoverage(Flat(p, t, src), src.cleanVersion, MetalFlavor(p.Ref(src.version), src.capabilities.value),
            r, a);
      }
    }
  }

  // ---------------------------------------------------------------- uniqueness

  predicate SameImage(a: MetalEntry, b: MetalEntry) {
    a.body.architecture.Some? && a.body.image == b.body.image
  }

  /** No two entries have the same image and architecture. */
  ghost predicate UniqueFlat(versions: seq<MetalEntry>) {
    forall i, j :: 0 <= i < j < |versions| && SameImage(versions[i], versions[j]) ==>
      versions[i].body.architecture != versions[j].body.architecture
  }

  /** No entry has two flavors with the same image. */
  ghost predicate UniqueFlavors(versions: seq<MetalEntry>) {
    forall i :: 0 <= i < |versions| ==> DistinctImages(versions[i].body.capabilityFlavors)
  }

  ghost predicate DistinctImages(flavors: seq<MetalFlavor>) {
    forall i, j :: 0 <= i < j < |flavors| ==> flavors[i].image != flavors[j].image
  }

  lemma {:induction false} FlatUnique(versions: seq<MetalEntry>, version: string, ref: string, archs: seq<string>)
    requires UniqueFlat(versions) && UniqueFlavors(versions)
    ensures UniqueFlat(AddFlat(versions, version, ref, archs)) && UniqueFlavors(AddFlat(versions, version, ref, archs))
    decreases |archs|
  {
    if archs != [] {
      FlatUnique(if Covered(versions, ref, archs[0]) then versions
                 else versions + [Entry(version, MetalVersion(ref, Some(archs[0]), []))], version, ref, archs[1..]);
    }
  }

  lemma FlavorUnique(st: State, clean: string, flavor: MetalFlavor)
    requires Pointing(st) && UniqueFlat(st.versions) && UniqueFlavors(st.versions)
    ensures UniqueFlat(AddFlavor(st, clean, flavor).versions) && UniqueFlavors(AddFlavor(st, clean, flavor).versions)
  {
  }

  lemma {:induction false} RunUnique(p: Ironcore, st: State, srcs: seq<SourceImage>)
    requires Pointing(st) && UniqueFlat(st.versions) && UniqueFlavors(st.versions)
    ensures UniqueFlat(Run(p, st, srcs).versions) && UniqueFlavors(Run(p, st, srcs).versions)
    decreases |srcs|
  {
    if srcs != [] {
      var t, src := Run(p, st, srcs[..|srcs| - 1]), srcs[|srcs| - 1];
      RunUnique(p, st, srcs[..|srcs| - 1]);
      FlatUnique(t.versions, src.version, p.Ref(src.version), src.architectures);
      if p.WritesFlavor(src) {
        FlavorUnique(Flat(p, t, src), src.cleanVersion, MetalFlavor(p.Ref(src.version), src.capabilities.value));
      }
    }
  }

  // ---------------------------------------------------------------- flavors and the index

  lemma {:induction false} IndexDomain(p: Ironcore, st: State, srcs: seq<SourceImage>, k: string)
    requires Pointing(st)
    ensures k in Run(p, st, srcs).index <==>
              k in st.index || exists s :: s in srcs && p.WritesFlavor(s) && s.cleanVersion == k
    decreases |srcs|
  {
    if srcs != [] {
      IndexDomain(p, st, srcs[..|srcs| - 1], k);
      assert srcs == srcs[..|srcs| - 1] + [srcs[|srcs| - 1]];
    }
  }

  /** Every source that writes a flavor has it under the entry the index holds for its clean version. */
  lemma {:induction false} FlavorThere(p: Ironcore, st: State, srcs: seq<SourceImage>, s: SourceImage)
    requires Pointing(st) && s in srcs && p.WritesFlavor(s)
    ensures var r := Run(p, st, srcs);
            s.cleanVersion in r.index && HasImage(r.versions[r.index[s.cleanVersion]].body.capabilityFlavors,
                p.Ref(s.version))
    decreases |srcs|
  {
    var rest, src := srcs[..|srcs| - 1], srcs[|srcs| - 1];
    var t, r := Run(p, st, rest), Run(p, st, srcs);
    assert srcs == rest + [src];
    if src == s {
      var f := Flat(p, t, s);
      var flavors := r.versions[r.index[s.cleanVersion]].body.capabilityFlavors;
      if s.cleanVersion in f.index && HasImage(f.versions[f.index[s.cleanVersion]].body.capabilityFlavors,
          p.Ref(s.version)) {
      } else {
        assert flavors[|flavors| - 1].image == p.Ref(s.version);
      }
    } else {
      FlavorThere(p, st, rest, s);
      StepExtends(p, t, src);
      var before := t.versions[t.index[s.cleanVersion]].body.capabilityFlavors;
      var i :| 0 <= i < |before| && before[i].image == p.Ref(s.version);
      assert r.versions[r.index[s.cleanVersion]].body.capabilityFlavors[i] == before[i];
    }
  }

  /** From `n` on, an entry has flavors only if the index points at it. */
  ghost predicate OnlyIndexed(n: nat, st: State) {
    forall j :: n <= j < |st.versions| && st.versions[j].body.capabilityFlavors != [] ==>
      st.versions[j].key in st.index && st.index[st.versions[j].key] == j
  }

  lemma FlavorKeepsOnlyIndexed(n: nat, st: State, clean: string, flavor: MetalFlavor)
    requires Pointing(st) && OnlyIndexed(n, st) && n <= |st.versions|
    ensures OnlyIndexed(n, AddFlavor(st, clean, flavor))
  {
    var t := AddFlavor(st, clean, flavor);
    if clean !in st.index {
      forall j | n <= j < |t.versions| && t.versions[j].body.capabilityFlavors != []
        ensures t.versions[j].key in t.index && t.index[t.versions[j].key] == j {
        assert j < |st.versions| ==> t.versions[j] == st.versions[j];
      }
    }
  }

  lemma {:induction false} OnlyIndexedGrow(p: Ironcore, base: seq<MetalEntry>, srcs: seq<SourceImage>)
    ensures OnlyIndexed(|base|, Run(p, Start(base), srcs))
    decreases |srcs|
  {
    if srcs != [] {
      var rest, src := srcs[..|srcs| - 1], srcs[|srcs| - 1];
      var t := Run(p, Start(base), rest);
      OnlyIndexedGrow(p, base, rest);
      AddFlatPrefix(t.versions, src.version, p.Ref(src.version), src.architectures);
      RunExtends(p, Start(base), rest);
      assert OnlyIndexed(|base|, Flat(p, t, src));
      if p.WritesFlavor(src) {
        FlavorKeepsOnlyIndexed(|base|, Flat(p, t, src), src.cleanVersion,
            MetalFlavor(p.Ref(src.version), src.capabilities.value));
      }
    }
  }

  /** Some entry of version `clean` has a flavor with this image. */
  predicate Grouped(versions: seq<MetalEntry>, clean: string, ref: string) {
    exists i :: 0 <= i < |versions| && versions[i].key == clean && HasImage(versions[i].body.capabilityFlavors, ref)
  }

  /** Every source is covered by a flat entry per architecture with its reference, and its flavor is
      under an entry of its clean version; pairs of image and architecture, and the images of the
      flavors of an entry, stay unique. */
  lemma ConfiguredMetal(p: Ironcore, base: seq<MetalEntry>, srcs: seq<SourceImage>)
    ensures var r := ConfiguredVersions(p, base, srcs);
            && (forall s, a :: s in srcs && a in s.architectures ==> Covered(r, p.Ref(s.version), a))
            && (forall s :: s in srcs && p.WritesFlavor(s) ==> Grouped(r, s.cleanVersion, p.Ref(s.version)))
            && (UniqueFlat(base) && UniqueFlavors(base) ==> UniqueFlat(r) && UniqueFlavors(r))
  {
    var st := Start(base);
    forall s, a | s in srcs && a in s.architectures
      ensures Covered(ConfiguredVersions(p, base, srcs), p.Ref(s.version), a) {
      Coverage(p, st, srcs, p.Ref(s.version), a);
    }
    forall s | s in srcs && p.WritesFlavor(s)
      ensures Grouped(ConfiguredVersions(p, base, srcs), s.cleanVersion, p.Ref(s.version)) {
      FlavorThere(p, st, srcs, s);
      var r := Run(p, st, srcs);
      assert r.versions[r.index[s.cleanVersion]].key == s.cleanVersion;
    }
    if UniqueFlat(base) && UniqueFlavors(base) {
      RunUnique(p, st, srcs);
    }
  }

  // ---------------------------------------------------------------- configuring again

  /** Nothing is left to do for this source. */
  ghost predicate Settled(p: Ironcore, st: State, s: SourceImage)
    requires Pointing(st)
  {
    && (forall a :: a in s.architectures ==> Covered(st.versions, p.Ref(s.version), a))
    && (p.WritesFlavor(s) ==>
          && s.cleanVersion in st.index
          && HasImage(st.versions[st.index[s.cleanVersion]].body.capabilityFlavors, p.Ref(s.version)))
  }

  lemma {:induction false} FlatNothing(versions: seq<MetalEntry>, version: string, ref: string, archs: seq<string>)
    ensures AddFlat(versions, version, ref, archs) == versions <==> forall a :: a in archs ==> Covered(versions, ref, a)
    decreases |archs|
  {
    if archs != [] {
      assert archs == [archs[0]] + archs[1..];
      if Covered(versions, ref, archs[0]) {
        FlatNothing(versions, version, ref, archs[1..]);
      } else {
        AddFlatPrefix(versions + [Entry(version, MetalVersion(ref, Some(archs[0]), []))], version, ref, archs[1..]);
      }
    }
  }

  lemma {:induction false} RunNothing(p: Ironcore, st: State, srcs: seq<SourceImage>)
    requires Pointing(st) && forall s :: s in srcs ==> Settled(p, st, s)
    ensures Run(p, st, srcs) == st
    decreases |srcs|
  {
    if srcs != [] {
      var rest, src := srcs[..|srcs| - 1], srcs[|srcs| - 1];
      assert srcs == rest + [src];
      RunNothing(p, st, rest);
      assert src in srcs;
      FlatNothing(st.versions, src.version, p.Ref(src.version), src.architectures);
    }
  }

  /** After the run the index points at the last entry of every clean version it wrote flavors to. */
  ghost predicate IndexCurrent(p: Ironcore, r: State, srcs: seq<SourceImage>) {
    forall s :: s in srcs && p.WritesFlavor(s) && s.cleanVersion in r.index ==>
      r.index[s.cleanVersion] == Locate(r.versions, s.cleanVersion, Last)
  }

  lemma IdempotentIffIndexCurrent(p: Ironcore, base: seq<MetalEntry>, srcs: seq<SourceImage>)
    ensures ConfiguredVersions(p, ConfiguredVersions(p, base, srcs), srcs) == ConfiguredVersions(p, base, srcs) <==>
              IndexCurrent(p, Run(p, Start(base), srcs), srcs)
  {
    var r := Run(p, Start(base), srcs);
    var again := Start(r.versions);
    if IndexCurrent(p, r, srcs) {
      forall s | s in srcs ensures Settled(p, again, s) {
        forall a | a in s.architectures ensures Covered(r.versions, p.Ref(s.version), a) {
          Coverage(p, Start(base), srcs, p.Ref(s.version), a);
        }
        if p.WritesFlavor(s) {
          FlavorThere(p, Start(base), srcs, s);
        }
      }
      RunNothing(p, again, srcs);
    } else {
      var s :|
        && s in srcs && p.WritesFlavor(s) && s.cleanVersion in r.index
        && r.index[s.cleanVersion] != Locate(r.versions, s.cleanVersion, Last);
      var q := StaleEntryIsPlain(p, base, srcs, s.cleanVersion);
      var t := Run(p, again, srcs);
      FlavorThere(p, again, srcs, s);
      RunExtends(p, again, srcs);
      assert t.index[s.cleanVersion] == q;
      assert t.versions[q].body.capabilityFlavors != [];
    }
  }

  /** A later entry that the index does not know has no flavors. */
  lemma StaleEntryIsPlain(p: Ironcore, base: seq<MetalEntry>, srcs: seq<SourceImage>, c: string) returns (q: nat)
    requires c in Run(p, Start(base), srcs).index
    requires Run(p, Start(base), srcs).index[c] != Locate(Run(p, Start(base), srcs).versions, c, Last)
    ensures var r := Run(p, Start(base), srcs);
            q < |r.versions| && q == Locate(r.versions, c, Last) && r.versions[q].body.capabilityFlavors == []
  {
    var r := Run(p, Start(base), srcs);
    q := Locate(r.versions, c, Last);
    RunExtends(p, Start(base), srcs);
    OnlyIndexedGrow(p, base, srcs);
    assert r.index[c] < q;
    assert |base| <= q by {
      var b := Locate(base, c, Last);
      if q < |base| {
        assert false;
      }
    }
  }

  // ---------------------------------------------------------------- the same condition on the inputs

  /** Source `j` brings an image and architecture that neither the base nor an earlier source has. */
  predicate Fresh(p: Ironcore, base: seq<MetalEntry>, srcs: seq<SourceImage>, j: nat)
    requires j < |srcs|
  {
    exists a :: a in srcs[j].architectures && !Covered(base, p.Ref(srcs[j].version), a)
      && forall i :: 0 <= i < j && srcs[i].version == srcs[j].version ==> a !in srcs[i].architectures
  }

  /** Version `c` has an entry in the base, or an earlier source writes a flavor for it. */
  predicate Registered(p: Ironcore, base: seq<MetalEntry>, srcs: seq<SourceImage>, j: nat, c: string)
    requires j <= |srcs|
  {
    c in Keys(base) || exists i :: 0 <= i < j && p.WritesFlavor(srcs[i]) && srcs[i].cleanVersion == c
  }

  /** A tag equal to `c` brings a new flat entry when `c` is registered already: the flat entry then
      hides the flavor group from the next run. */
  predicate Shadows(p: Ironcore, base: seq<MetalEntry>, srcs: seq<SourceImage>, c: string) {
    exists j :: 0 <= j < |srcs| && ShadowsAt(p, base, srcs, j, c)
  }

  predicate ShadowsAt(p: Ironcore, base: seq<MetalEntry>, srcs: seq<SourceImage>, j: nat, c: string)
    requires j < |srcs|
  {
    srcs[j].version == c && Fresh(p, base, srcs, j) && Registered(p, base, srcs, j, c)
  }

  lemma RegisteredIsIndexed(p: Ironcore, base: seq<MetalEntry>, srcs: seq<SourceImage>, j: nat, c: string)
    requires j <= |srcs|
    ensures Registered(p, base, srcs, j, c) <==> c in Run(p, Start(base), srcs[..j]).index
  {
    IndexDomain(p, Start(base), srcs[..j], c);
    FindPresence(base, c, Last);
    assert forall i :: 0 <= i < j ==> srcs[..j][i] == srcs[i];
    if s :| s in srcs[..j] && p.WritesFlavor(s) && s.cleanVersion == c {
      var i :| 0 <= i < j && srcs[..j][i] == s;
      assert p.WritesFlavor(srcs[i]) && srcs[i].cleanVersion == c;
    }
    if i :| 0 <= i < j && p.WritesFlavor(srcs[i]) && srcs[i].cleanVersion == c {
      assert srcs[..j][i] in srcs[..j];
    }
  }

  lemma FreshAppends(p: Ironcore, base: seq<MetalEntry>, srcs: seq<SourceImage>, j: nat)
    requires j < |srcs|
    ensures var t := Run(p, Start(base), srcs[..j]);
            Fresh(p, base, srcs, j) <==> Flat(p, t, srcs[j]).versions != t.versions
  {
    var t, src, ref := Run(p, Start(base), srcs[..j]), srcs[j], p.Ref(srcs[j].version);
    FlatNothing(t.versions, src.version, ref, src.architectures);
    forall a | a in src.architectures
      ensures Covered(t.versions, ref, a) <==>
                || Covered(base, ref, a)
                || exists i :: 0 <= i < j && srcs[i].version == src.version && a in srcs[i].architectures {
      Coverage(p, Start(base), srcs[..j], ref, a);
      if s :| s in srcs[..j] && p.Ref(s.version) == ref && a in s.architectures {
        var i :| 0 <= i < j && srcs[..j][i] == s;
        RefInjective(p, s.version, src.version);
        assert srcs[i].version == src.version && a in srcs[i].architectures;
      }
      if i :| 0 <= i < j && srcs[i].version == src.version && a in srcs[i].architectures {
        assert srcs[..j][i] in srcs[..j];
      }
    }
  }

  /** Where the last entry of `c` is after `t.versions` has been extended without moving an entry. */
  lemma ExtendedLocate(t: State, r: State, c: string)
    requires Pointing(t) && Extends(t, r) && c in t.index
    ensures (exists i :: |t.versions| <= i < |r.versions| && r.versions[i].key == c) ==>
              Locate(r.versions, c, Last) >= |t.versions|
    ensures !(exists i :: |t.versions| <= i < |r.versions| && r.versions[i].key == c) ==>
              Locate(r.versions, c, Last) == Locate(t.versions, c, Last)
  {
    var i, k := Locate(t.versions, c, Last), Locate(r.versions, c, Last);
    assert t.versions[t.index[c]].key == c;
    assert r.versions[i].key == c;
  }

  /** One more source: how the last entry of `c` and the index move. */
  lemma StepLocate(p: Ironcore, t: State, src: SourceImage, c: string)
    requires Pointing(t) && c in t.index
    ensures var f, r := Flat(p, t, src), Step(p, t, src);
            && r.index[c] == t.index[c]
            && (src.version == c && f.versions != t.versions ==> Locate(r.versions, c, Last) >= |t.versions|)
            && (!(src.version == c && f.versions != t.versions) ==>
                  Locate(r.versions, c, Last) == Locate(t.versions, c, Last))
  {
    var f, r := Flat(p, t, src), Step(p, t, src);
    AddFlatPrefix(t.versions, src.version, p.Ref(src.version), src.architectures);
    StepExtends(p, t, src);
    ExtendedLocate(t, r, c);
    if src.version == c && f.versions != t.versions {
      assert r.versions[|t.versions|].key == c;
    } else {
      NewKeys(p, t, src, c);
    }
  }

  /** The entries a source adds carry its tag, or a clean version the index did not know. */
  lemma NewKeys(p: Ironcore, t: State, src: SourceImage, c: string)
    requires Pointing(t) && c in t.index && !(src.version == c && Flat(p, t, src).versions != t.versions)
    ensures forall i :: |t.versions| <= i < |Step(p, t, src).versions| ==> Step(p, t, src).versions[i].key != c
  {
    AddFlatPrefix(t.versions, src.version, p.Ref(src.version), src.architectures);
  }

  lemma RegisteredGrows(p: Ironcore, base: seq<MetalEntry>, srcs: seq<SourceImage>, j: nat, n: nat, c: string)
    requires j <= n <= |srcs|
    ensures Registered(p, base, srcs, j, c) ==> Registered(p, base, srcs, n, c)
  {
  }

  predicate Current(st: State, c: string) {
    c in st.index && st.index[c] == Locate(st.versions, c, Last)
  }

  /** The state after the first `n` sources. */
  function At(p: Ironcore, base: seq<MetalEntry>, srcs: seq<SourceImage>, n: nat): (st: State)
    requires n <= |srcs|
    ensures Pointing(st)
  {
    if n == 0 then Start(base) else Step(p, At(p, base, srcs, n - 1), srcs[n - 1])
  }

  lemma {:induction false} AtIsRun(p: Ironcore, base: seq<MetalEntry>, srcs: seq<SourceImage>, n: nat)
    requires n <= |srcs|
    ensures At(p, base, srcs, n) == Run(p, Start(base), srcs[..n])
  {
    if n > 0 {
      AtIsRun(p, base, srcs, n - 1);
      assert srcs[..n][..n - 1] == srcs[..n - 1];
    }
  }

  lemma CurrentStep(p: Ironcore, base: seq<MetalEntry>, srcs: seq<SourceImage>, n: nat, c: string)
    requires n < |srcs| && c in At(p, base, srcs, n).index
    ensures Current(At(p, base, srcs, n + 1), c) <==>
              Current(At(p, base, srcs, n), c) && !ShadowsAt(p, base, srcs, n, c)
  {
    AtIsRun(p, base, srcs, n);
    RegisteredIsIndexed(p, base, srcs, n, c);
    FreshAppends(p, base, srcs, n);
    StepLocate(p, At(p, base, srcs, n), srcs[n], c);
  }

  lemma NothingShadowedYet(p: Ironcore, base: seq<MetalEntry>, srcs: seq<SourceImage>, n: nat, c: string)
    requires n < |srcs| && c !in At(p, base, srcs, n).index
    ensures forall j :: 0 <= j <= n ==> !ShadowsAt(p, base, srcs, j, c)
  {
    AtIsRun(p, base, srcs, n);
    RegisteredIsIndexed(p, base, srcs, n, c);
    forall j | 0 <= j <= n ensures !ShadowsAt(p, base, srcs, j, c) {
      RegisteredGrows(p, base, srcs, j, n, c);
    }
  }

  lemma StaysIndexed(p: Ironcore, base: seq<MetalEntry>, srcs: seq<SourceImage>, n: nat, c: string)
    requires n < |srcs| && c in At(p, base, srcs, n).index
    ensures c in At(p, base, srcs, n + 1).index
  {
    StepExtends(p, At(p, base, srcs, n), srcs[n]);
  }

  lemma JustRegistered(p: Ironcore, base: seq<MetalEntry>, srcs: seq<SourceImage>, n: nat, c: string)
    requires n < |srcs| && c !in At(p, base, srcs, n).index && c in At(p, base, srcs, n + 1).index
    ensures Current(At(p, base, srcs, n + 1), c)
  {
    var t := At(p, base, srcs, n);
    var f, r := Flat(p, t, srcs[n]), Step(p, t, srcs[n]);
    assert r.index[c] == |f.versions| == |r.versions| - 1;
  }

  predicate IndexedAt(p: Ironcore, base: seq<MetalEntry>, srcs: seq<SourceImage>, c: string, n: nat) {
    n <= |srcs| && c in At(p, base, srcs, n).index
  }

  predicate CurrentAt(p: Ironcore, base: seq<MetalEntry>, srcs: seq<SourceImage>, c: string, n: nat) {
    n <= |srcs| && Current(At(p, base, srcs, n), c)
  }

  predicate ShadowedAt(p: Ironcore, base: seq<MetalEntry>, srcs: seq<SourceImage>, c: string, n: nat) {
    n < |srcs| && ShadowsAt(p, base, srcs, n, c)
  }

  lemma IndexedStep(p: Ironcore, base: seq<MetalEntry>, srcs: seq<SourceImage>, c: string, m: nat, k: nat)
    requires k == m + 1 <= |srcs| && IndexedAt(p, base, srcs, c, m)
    ensures IndexedAt(p, base, srcs, c, k)
    ensures CurrentAt(p, base, srcs, c, k) <==> CurrentAt(p, base, srcs, c, m) && !ShadowedAt(p, base, srcs, c, m)
  {
    StaysIndexed(p, base, srcs, m, c);
    CurrentStep(p, base, srcs, m, c);
  }

  predicate NoneShadowed(p: Ironcore, base: seq<MetalEntry>, srcs: seq<SourceImage>, c: string, n: nat) {
    n == 0 || (NoneShadowed(p, base, srcs, c, n - 1) && !ShadowedAt(p, base, srcs, c, n - 1))
  }

  lemma {:induction false} NoneShadowedExactly(
      p: Ironcore, base: seq<MetalEntry>, srcs: seq<SourceImage>, c: string, n: nat)
    ensures NoneShadowed(p, base, srcs, c, n) <==> forall j: nat :: j < n ==> !ShadowedAt(p, base, srcs, c, j)
  {
    if n > 0 {
      NoneShadowedExactly(p, base, srcs, c, n - 1);
    }
  }

  lemma FirstIndexed(p: Ironcore, base: seq<MetalEntry>, srcs: seq<SourceImage>, c: string, m: nat, k: nat)
    requires k == m + 1 <= |srcs| && !IndexedAt(p, base, srcs, c, m) && IndexedAt(p, base, srcs, c, k)
    ensures CurrentAt(p, base, srcs, c, k) && NoneShadowed(p, base, srcs, c, k)
  {
    NothingShadowedYet(p, base, srcs, m, c);
    NoneShadowedExactly(p, base, srcs, c, k);
    JustRegistered(p, base, srcs, m, c);
  }

  lemma IndexedFirst(p: Ironcore, base: seq<MetalEntry>, srcs: seq<SourceImage>, c: string)
    ensures !IndexedAt(p, base, srcs, c, 0) || CurrentAt(p, base, srcs, c, 0)
  {
  }

  lemma RightStep(p: Ironcore, base: seq<MetalEntry>, srcs: seq<SourceImage>, c: string, m: nat, k: nat)
    requires k == m + 1 <= |srcs| && IndexedAt(p, base, srcs, c, k)
    requires IndexedAt(p, base, srcs, c, m) ==> (CurrentAt(p, base, srcs, c, m) <==> NoneShadowed(p, base, srcs, c, m))
    ensures CurrentAt(p, base, srcs, c, k) <==> NoneShadowed(p, base, srcs, c, k)
  {
    if IndexedAt(p, base, srcs, c, m) {
      IndexedStep(p, base, srcs, c, m, k);
    } else {
      FirstIndexed(p, base, srcs, c, m, k);
    }
  }

  lemma {:induction false} RightUnlessShadowed(
      p: Ironcore, base: seq<MetalEntry>, srcs: seq<SourceImage>, c: string, n: nat)
    requires IndexedAt(p, base, srcs, c, n)
    ensures CurrentAt(p, base, srcs, c, n) <==> NoneShadowed(p, base, srcs, c, n)
  {
    if n == 0 {
      IndexedFirst(p, base, srcs, c);
    } else {
      if IndexedAt(p, base, srcs, c, n - 1) {
        RightUnlessShadowed(p, base, srcs, c, n - 1);
      }
      RightStep(p, base, srcs, c, n - 1, n);
    }
  }

  lemma CurrentUnlessShadowed(p: Ironcore, base: seq<MetalEntry>, srcs: seq<SourceImage>, c: string)
    requires c in At(p, base, srcs, |srcs|).index
    ensures Current(At(p, base, srcs, |srcs|), c) <==> !Shadows(p, base, srcs, c)
  {
    RightUnlessShadowed(p, base, srcs, c, |srcs|);
    NoneShadowedExactly(p, base, srcs, c, |srcs|);
    if j :| 0 <= j < |srcs| && ShadowsAt(p, base, srcs, j, c) {
      assert ShadowedAt(p, base, srcs, c, j);
    }
  }

  /** Configuring the same sources again changes nothing exactly when no tag that equals the clean
      version of a flavor-writing source brings a new flat entry after that clean version was
      registered. */
  lemma ConfigureIdempotentExactly(p: Ironcore, base: seq<MetalEntry>, srcs: seq<SourceImage>)
    ensures ConfiguredVersions(p, ConfiguredVersions(p, base, srcs), srcs) == ConfiguredVersions(p, base, srcs) <==>
              !exists s :: s in srcs && p.WritesFlavor(s) && Shadows(p, base, srcs, s.cleanVersion)
  {
    IdempotentIffIndexCurrent(p, base, srcs);
    AtIsRun(p, base, srcs, |srcs|);
    assert srcs[..|srcs|] == srcs;
    forall s | s in srcs && p.WritesFlavor(s)
      ensures var r := Run(p, Start(base), srcs);
              s.cleanVersion in r.index && (r.index[s.cleanVersion] == Locate(r.versions, s.cleanVersion, Last) <==>
                  !Shadows(p, base, srcs, s.cleanVersion)) {
      IndexDomain(p, Start(base), srcs, s.cleanVersion);
      CurrentUnlessShadowed(p, base, srcs, s.cleanVersion);
    }
  }

  /** In particular it is idempotent when no tag equals the clean version of another source. */
  lemma ConfigureIdempotentWithoutClash(p: Ironcore, base: seq<MetalEntry>, srcs: seq<SourceImage>)
    requires forall s, t :: s in srcs && t in srcs && p.WritesFlavor(s) ==> t.version != s.cleanVersion
    ensures ConfiguredVersions(p, ConfiguredVersions(p, base, srcs), srcs) == ConfiguredVersions(p, base, srcs)
  {
    ConfigureIdempotentExactly(p, base, srcs);
    forall s | s in srcs && p.WritesFlavor(s) ensures !Shadows(p, base, srcs, s.cleanVersion) {
      forall j | 0 <= j < |srcs| ensures !ShadowsAt(p, base, srcs, j, s.cleanVersion) {
        assert srcs[j] in srcs;
      }
    }
  }

  /** The clash in its smallest form: one tag registers the clean version, a second tag equal to it
      then adds a flat entry that hides the flavor group. */
  lemma ClashBreaksIdempotence(p: Ironcore, tagged: SourceImage, plain: SourceImage)
    requires p.WritesFlavor(tagged) && plain.version == tagged.cleanVersion && plain.architectures != []
    ensures var once := ConfiguredVersions(p, [], [tagged, plain]);
            ConfiguredVersions(p, once, [tagged, plain]) != once
  {
    var srcs := [tagged, plain];
    ConfigureIdempotentExactly(p, [], srcs);
    assert srcs[1].architectures[0] in srcs[1].architectures && srcs[0] in srcs;
    assert ShadowsAt(p, [], srcs, 1, tagged.cleanVersion) by {
      assert p.WritesFlavor(srcs[0]);
      assert Fresh(p, [], srcs, 1);
    }
  }
}
