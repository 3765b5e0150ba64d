/** The fields of a merged version, read off the sources alone: which source decides what. */
module MergedFields {
  import opened Prelude
  import opened Keyed
  import opened Images
  import opened Semver
  import opened ImageMerge
  import opened MergeTheorems

  /** Source `i` writes to version `k`: under its tag, or, with capabilities, under its clean version. */
  predicate TouchedBy(u: Updater, srcs: seq<SourceImage>, k: string, i: nat) {
    && i < |srcs|
    && (srcs[i].version == k || (u.enableCapabilities && srcs[i].cleanVersion == k && k != ""))
  }

  /** Source `i` is the first that touches the version with a date. */
  ghost predicate FirstDated(u: Updater, srcs: seq<SourceImage>, k: string, i: nat) {
    && TouchedBy(u, srcs, k, i) && srcs[i].expirationDate.Some?
    && forall j: nat :: j < i && TouchedBy(u, srcs, k, j) ==> srcs[j].expirationDate.None?
  }

  /** Source `i` has the architecture, and no later source has the version as its tag, which would overwrite
      the architectures. */
  predicate Leaves(u: Updater, srcs: seq<SourceImage>, k: string, i: nat, arch: string) {
    TouchedBy(u, srcs, k, i) && arch in srcs[i].architectures && forall j :: i < j < |srcs| ==> srcs[j].version != k
  }

  predicate Tagged(srcs: seq<SourceImage>, k: string) {
    exists i :: 0 <= i < |srcs| && srcs[i].version == k
  }

  // ---------------------------------------------------------------- hits by source

  function HitsOf(u: Updater, src: SourceImage, k: string): seq<Hit> {
    LegacyHits(src, k) + CleanHits(u, src, k)
  }

  lemma {:induction false} HitsSnoc(u: Updater, srcs: seq<SourceImage>, src: SourceImage, k: string)
    ensures Hits(u, srcs + [src], k) == Hits(u, srcs, k) + HitsOf(u, src, k)
  {
    if srcs == [] {
      assert srcs + [src] == [src] && [src][1..] == [];
    } else {
      assert (srcs + [src])[1..] == srcs[1..] + [src];
      HitsSnoc(u, srcs[1..], src, k);
    }
  }

  lemma TouchedSnoc(u: Updater, srcs: seq<SourceImage>, k: string)
    requires srcs != []
    ensures var n := |srcs| - 1;
            && (TouchedBy(u, srcs, k, n) <==> HitsOf(u, srcs[n], k) != [])
            && (forall h :: h in HitsOf(u, srcs[n], k) ==> h.src == srcs[n])
            && forall i: nat :: i < n ==> (TouchedBy(u, srcs, k, i) <==> TouchedBy(u, srcs[..n], k, i))
  {
  }

  lemma {:induction false} LastHit(u: Updater, srcs: seq<SourceImage>, k: string, i: nat)
    requires TouchedBy(u, srcs, k, i) && forall j: nat :: i < j ==> !TouchedBy(u, srcs, k, j)
    ensures var hits := Hits(u, srcs, k); hits != [] && hits[|hits| - 1].src == srcs[i]
    decreases |srcs|
  {
    var n := |srcs| - 1;
    assert srcs == srcs[..n] + [srcs[n]];
    HitsSnoc(u, srcs[..n], srcs[n], k);
    TouchedSnoc(u, srcs, k);
    var own := HitsOf(u, srcs[n], k);
    if i == n {
      assert own[|own| - 1] in own;
    } else {
      assert !TouchedBy(u, srcs, k, n);
      forall j: nat | i < j ensures !TouchedBy(u, srcs[..n], k, j) {
        assert !TouchedBy(u, srcs, k, j);
      }
      LastHit(u, srcs[..n], k, i);
    }
  }

  lemma {:induction false} NoHits(u: Updater, srcs: seq<SourceImage>, k: string)
    requires forall i: nat :: !TouchedBy(u, srcs, k, i)
    ensures Hits(u, srcs, k) == []
    decreases |srcs|
  {
    if srcs != [] {
      var n := |srcs| - 1;
      assert srcs == srcs[..n] + [srcs[n]];
      HitsSnoc(u, srcs[..n], srcs[n], k);
      TouchedSnoc(u, srcs, k);
      forall i: nat ensures !TouchedBy(u, srcs[..n], k, i) {
        assert !TouchedBy(u, srcs, k, i);
      }
      NoHits(u, srcs[..n], k);
    }
  }

  // ---------------------------------------------------------------- the date

  lemma OwnDate(u: Updater, src: SourceImage, k: string, before: seq<Hit>)
    ensures FirstDate(before + HitsOf(u, src, k)) ==
              if FirstDate(before).Some? then FirstDate(before)
              else if HitsOf(u, src, k) != [] then src.expirationDate else None
  {
    var legacy, clean := LegacyHits(src, k), CleanHits(u, src, k);
    assert before + HitsOf(u, src, k) == (before + legacy) + clean;
    if legacy == [] {
      assert before + legacy == before;
    } else {
      FirstDateSnoc(before, legacy[0]);
    }
    if clean == [] {
      assert (before + legacy) + clean == before + legacy;
    } else {
      FirstDateSnoc(before + legacy, clean[0]);
    }
  }

  lemma {:induction false} DateOfHits(u: Updater, srcs: seq<SourceImage>, k: string)
    ensures forall i: nat :: FirstDated(u, srcs, k, i) ==> FirstDate(Hits(u, srcs, k)) == srcs[i].expirationDate
    ensures FirstDate(Hits(u, srcs, k)).Some? ==> exists i: nat :: FirstDated(u, srcs, k, i)
    decreases |srcs|
  {
    if srcs != [] {
      var n := |srcs| - 1;
      assert srcs == srcs[..n] + [srcs[n]];
      HitsSnoc(u, srcs[..n], srcs[n], k);
      TouchedSnoc(u, srcs, k);
      DateOfHits(u, srcs[..n], k);
      OwnDate(u, srcs[n], k, Hits(u, srcs[..n], k));
      forall i: nat | i < n ensures FirstDated(u, srcs, k, i) <==> FirstDated(u, srcs[..n], k, i) {
        EarlierDated(u, srcs, k, i);
      }
      if FirstDate(Hits(u, srcs[..n], k)).Some? {
        var i: nat :| FirstDated(u, srcs[..n], k, i);
        assert FirstDated(u, srcs, k, i);
      } else {
        LastDatedHit(u, srcs, k);
      }
    }
  }

  lemma EarlierDated(u: Updater, srcs: seq<SourceImage>, k: string, i: nat)
    requires srcs != [] && i < |srcs| - 1
    ensures FirstDated(u, srcs, k, i) <==> FirstDated(u, srcs[..|srcs| - 1], k, i)
  {
    TouchedSnoc(u, srcs, k);
  }

  /** When no earlier source brings a date, the last one decides. */
  lemma LastDatedHit(u: Updater, srcs: seq<SourceImage>, k: string)
    requires srcs != [] && FirstDate(Hits(u, srcs[..|srcs| - 1], k)).None?
    requires forall i: nat :: FirstDated(u, srcs[..|srcs| - 1], k, i) ==>
               FirstDate(Hits(u, srcs[..|srcs| - 1], k)) == srcs[i].expirationDate
    ensures var n := |srcs| - 1;
            FirstDated(u, srcs, k, n) <==> TouchedBy(u, srcs, k, n) && srcs[n].expirationDate.Some?
  {
    var n := |srcs| - 1;
    if TouchedBy(u, srcs, k, n) && srcs[n].expirationDate.Some? {
      forall j: nat | j < n && TouchedBy(u, srcs, k, j) ensures srcs[j].expirationDate.None? {
        NoneDated(u, srcs, srcs[..n], k, j);
      }
    }
  }

  lemma {:induction false} NoneDated(
      u: Updater, srcs: seq<SourceImage>, init: seq<SourceImage>, k: string, j: nat)
    requires srcs != [] && init == srcs[..|srcs| - 1] && j < |init| && TouchedBy(u, srcs, k, j)
    requires forall i: nat :: !FirstDated(u, init, k, i)
    ensures srcs[j].expirationDate.None?
  {
    assert TouchedBy(u, init, k, j);
    if srcs[j].expirationDate.Some? {
      forall i: nat | i < j && TouchedBy(u, init, k, i) ensures init[i].expirationDate.None? {
        NoneDated(u, srcs, init, k, i);
      }
      assert FirstDated(u, init, k, j);
    }
  }

  // ---------------------------------------------------------------- the architectures

  lemma ContributedSnoc(before: seq<Hit>, h: Hit)
    ensures Contributed(before + [h]) ==
              (set a | a in h.src.architectures) + if h.LegacyHit? then {} else Contributed(before)
  {
    assert (before + [h])[..|before|] == before;
  }

  lemma OwnArchitectures(u: Updater, src: SourceImage, k: string, before: seq<Hit>)
    ensures forall a :: a in Contributed(before + HitsOf(u, src, k)) <==>
              (HitsOf(u, src, k) != [] && a in src.architectures) || (src.version != k && a in Contributed(before))
    ensures HasLegacy(before + HitsOf(u, src, k)) <==> src.version == k || HasLegacy(before)
  {
    var legacy, clean := LegacyHits(src, k), CleanHits(u, src, k);
    assert before + HitsOf(u, src, k) == (before + legacy) + clean;
    if legacy == [] {
      assert before + legacy == before;
    } else {
      ContributedSnoc(before, legacy[0]);
      LegacySnoc(before, legacy[0]);
    }
    if clean == [] {
      assert (before + legacy) + clean == before + legacy;
    } else {
      ContributedSnoc(before + legacy, clean[0]);
      LegacySnoc(before + legacy, clean[0]);
    }
  }

  lemma LeavesEarlier(u: Updater, srcs: seq<SourceImage>, k: string, i: nat, arch: string)
    requires srcs != [] && i < |srcs| - 1
    ensures Leaves(u, srcs, k, i, arch) <==>
              srcs[|srcs| - 1].version != k && Leaves(u, srcs[..|srcs| - 1], k, i, arch)
  {
    var init := srcs[..|srcs| - 1];
    assert TouchedBy(u, init, k, i) == TouchedBy(u, srcs, k, i);
    assert forall j :: i < j < |init| ==> init[j] == srcs[j];
  }

  lemma LeavesSnoc(u: Updater, srcs: seq<SourceImage>, k: string, arch: string)
    requires srcs != []
    ensures var n := |srcs| - 1;
            (exists i: nat :: Leaves(u, srcs, k, i, arch)) <==>
              || (TouchedBy(u, srcs, k, n) && arch in srcs[n].architectures)
              || (srcs[n].version != k && exists i: nat :: Leaves(u, srcs[..n], k, i, arch))
  {
    var n := |srcs| - 1;
    assert Leaves(u, srcs, k, n, arch) <==> TouchedBy(u, srcs, k, n) && arch in srcs[n].architectures;
    forall i: nat | i < n
      ensures Leaves(u, srcs, k, i, arch) <==> srcs[n].version != k && Leaves(u, srcs[..n], k, i, arch) {
      LeavesEarlier(u, srcs, k, i, arch);
    }
    assert forall i: nat :: Leaves(u, srcs, k, i, arch) ==> i <= n;
    assert forall i: nat :: Leaves(u, srcs[..n], k, i, arch) ==> i < n;
  }

  lemma {:induction false} ArchitecturesOfHits(u: Updater, srcs: seq<SourceImage>, k: string, arch: string)
    ensures arch in Contributed(Hits(u, srcs, k)) <==> exists i: nat :: Leaves(u, srcs, k, i, arch)
    ensures HasLegacy(Hits(u, srcs, k)) <==> Tagged(srcs, k)
    decreases |srcs|
  {
    if srcs != [] {
      var n := |srcs| - 1;
      assert srcs == srcs[..n] + [srcs[n]];
      HitsSnoc(u, srcs[..n], srcs[n], k);
      TouchedSnoc(u, srcs, k);
      ArchitecturesOfHits(u, srcs[..n], k, arch);
      OwnArchitectures(u, srcs[n], k, Hits(u, srcs[..n], k));
      LeavesSnoc(u, srcs, k, arch);
      assert Tagged(srcs, k) <==> srcs[n].version == k || Tagged(srcs[..n], k);
    }
  }

  // ---------------------------------------------------------------- the entry

  /** Source `i` is the last that touches the version. */
  ghost predicate LastTouching(u: Updater, srcs: seq<SourceImage>, k: string, i: nat) {
    TouchedBy(u, srcs, k, i) && forall j: nat :: i < j ==> !TouchedBy(u, srcs, k, j)
  }

  /** The date in the base, or else that of the first source with one. */
  ghost predicate DecidedDate(
      u: Updater, c: Option<VersionFields>, srcs: seq<SourceImage>, k: string, date: Option<Time>) {
    if c.Some? && c.value.expirationDate.Some? then date == c.value.expirationDate
    else
      && (forall i: nat :: FirstDated(u, srcs, k, i) ==> date == srcs[i].expirationDate)
      && (date.Some? ==> exists i: nat :: FirstDated(u, srcs, k, i))
  }

  /** Those some source leaves, and those of the base when no tag overwrites them. */
  ghost predicate DecidedArchitectures(
      u: Updater, c: Option<VersionFields>, srcs: seq<SourceImage>, k: string, architectures: seq<string>) {
    forall a :: a in architectures <==>
      || (exists i: nat :: Leaves(u, srcs, k, i, a))
      || (!Tagged(srcs, k) && c.Some? && a in c.value.architectures)
  }

  lemma DateDecided(
      u: Updater, c: Option<VersionFields>, srcs: seq<SourceImage>, k: string, r: VersionFields)
    requires Hits(u, srcs, k) != [] && FieldsAfter(u, if c.Some? then c.value else BLANK, Hits(u, srcs, k), r)
    ensures DecidedDate(u, c, srcs, k, r.expirationDate)
  {
    DateOfHits(u, srcs, k);
  }

  lemma ArchitecturesDecided(
      u: Updater, c: Option<VersionFields>, srcs: seq<SourceImage>, k: string, r: VersionFields)
    requires Hits(u, srcs, k) != [] && FieldsAfter(u, if c.Some? then c.value else BLANK, Hits(u, srcs, k), r)
    ensures DecidedArchitectures(u, c, srcs, k, r.architectures)
  {
    forall a ensures a in r.architectures <==>
        || (exists i: nat :: Leaves(u, srcs, k, i, a))
        || (!Tagged(srcs, k) && c.Some? && a in c.value.architectures) {
      ArchitecturesOfHits(u, srcs, k, a);
    }
  }

  /** Which source decides what, for a version that is valid or in the base. The classification and the in-place
      support are those of the last source that touches it; the date is the one in the base or else that of the
      first source that touches it with a date; an architecture is there exactly when a source that no later
      tag overwrites has it, or no source has the version as its tag and the base has it. */
  lemma SourcesDecide(
      lib: Library, u: Updater, base: seq<ImageVersion>, srcs: seq<SourceImage>, k: string, i: nat)
    requires (lib.Valid(k) || Find(base, k, Last).Some?) && LastTouching(u, srcs, k, i)
    ensures var c, r := Find(base, k, Last), Find(Merged(lib, u, base, srcs), k, Last);
            && r.Some?
            && r.value.classification == srcs[i].classification
            && r.value.inPlaceUpdates ==
                 (if srcs[i].supportInPlaceUpdate then Some(InPlaceUpdates(true, u.minVersionForUpdate)) else None)
            && DecidedDate(u, c, srcs, k, r.value.expirationDate)
            && DecidedArchitectures(u, c, srcs, k, r.value.architectures)
  {
    var c, r := Find(base, k, Last), Find(Merged(lib, u, base, srcs), k, Last);
    LastHit(u, srcs, k, i);
    MergedEntryFields(lib, u, base, srcs, k);
    DateDecided(u, c, srcs, k, r.value);
    ArchitecturesDecided(u, c, srcs, k, r.value);
  }

  /** An entry that no source touches stays as it is, and none appears. */
  lemma UntouchedStays(lib: Library, u: Updater, base: seq<ImageVersion>, srcs: seq<SourceImage>, k: string)
    requires forall i: nat :: !TouchedBy(u, srcs, k, i)
    ensures Find(Merged(lib, u, base, srcs), k, Last) == Find(base, k, Last)
  {
    NoHits(u, srcs, k);
    EntryIsFoldOfItsWrites(lib, u, base, srcs, k);
  }
}
