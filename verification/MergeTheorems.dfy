/** What the merge guarantees: each entry is the fold of the writes aimed at it, the version set is
    known exactly, and merging the same sources again changes nothing. */
module MergeTheorems {
  import opened Prelude
  import opened Sorting
  import opened Keyed
  import opened Images
  import opened Semver
  import opened CapabilitySets
  import opened ImageUpdater
  import opened ImageMerge

  // ---------------------------------------------------------------- one entry at a time

  /** A write seen from the entry it hits. */
  datatype Hit = LegacyHit(src: SourceImage) | CleanHit(src: SourceImage)

  /** The hits on version `k`, in source order, a source's legacy write before its clean one. */
  function Hits(u: Updater, srcs: seq<SourceImage>, k: string): (hits: seq<Hit>)
    ensures forall h :: h in hits ==> h.src in srcs && k == if h.LegacyHit? then h.src.version else h.src.cleanVersion
    ensures forall h :: h in hits && h.CleanHit? ==> u.enableCapabilities && h.src.cleanVersion != ""
  {
    if srcs == [] then []
    else
      (if srcs[0].version == k then [LegacyHit(srcs[0])] else [])
      + (if WritesClean(u, srcs[0]) && srcs[0].cleanVersion == k then [CleanHit(srcs[0])] else [])
      + Hits(u, srcs[1..], k)
  }

  function After(u: Updater, b: VersionFields, h: Hit): VersionFields {
    match h case LegacyHit(src) => Legacy(u, src, b) case CleanHit(src) => Clean(u, src, b)
  }

  function Run(u: Updater, b: VersionFields, hits: seq<Hit>): VersionFields
    decreases |hits|
  {
    if hits == [] then b else Run(u, After(u, b, hits[0]), hits[1..])
  }

  function Created(u: Updater, h: Hit): VersionFields {
    match h case LegacyHit(src) => Legacy(u, src, BLANK) case CleanHit(src) => NewClean(u, src)
  }

  /** One entry, from nothing or from its old fields. A legacy hit on a version that is neither
      there nor valid is skipped. */
  function Outcome(
      lib: Library, u: Updater, c: Option<VersionFields>, hits: seq<Hit>, k: string): Option<VersionFields> {
    if hits == [] then c
    else if c.Some? then Some(Run(u, c.value, hits))
    else if hits[0].LegacyHit? && !lib.Valid(k) then Outcome(lib, u, None, hits[1..], k)
    else Some(Run(u, Created(u, hits[0]), hits[1..]))
  }

  lemma OutcomeStep(lib: Library, u: Updater, c: Option<VersionFields>, h: Hit, rest: seq<Hit>, k: string)
    ensures Outcome(lib, u, c, [h] + rest, k) ==
            Outcome(lib, u, if c.Some? then Some(After(u, c.value, h))
                            else if h.LegacyHit? && !lib.Valid(k) then None else Some(Created(u, h)), rest, k)
  {
    var hits := [h] + rest;
    assert hits[0] == h && hits[1..] == rest;
    if c.Some? {
      assert Run(u, c.value, hits) == Run(u, After(u, c.value, h), rest);
    } else if !(h.LegacyHit? && !lib.Valid(k)) {
      assert Outcome(lib, u, c, hits, k) == Some(Run(u, Created(u, h), rest));
    }
  }

  /** The two writes of one source, seen from version `k`. */
  function AfterSource(
      lib: Library, u: Updater, c: Option<VersionFields>, src: SourceImage, k: string): Option<VersionFields> {
    var d := if src.version == k then Written(c, LegacyWrite(lib, u, src)) else c;
    if WritesClean(u, src) && src.cleanVersion == k then Written(d, CleanWrite(u, src)) else d
  }

  lemma FoldSource(
      lib: Library, u: Updater, c: Option<VersionFields>, src: SourceImage, rest: seq<VersionWrite>, k: string)
    ensures FoldKey(c, WritesOf(lib, u, src) + rest, k) == FoldKey(AfterSource(lib, u, c, src, k), rest, k)
  {
    var ws := WritesOf(lib, u, src) + rest;
    var d := if src.version == k then Written(c, LegacyWrite(lib, u, src)) else c;
    assert ws[0] == LegacyWrite(lib, u, src);
    assert FoldKey(c, ws, k) == FoldKey(d, ws[1..], k);
    if WritesClean(u, src) {
      assert ws[1..] == [CleanWrite(u, src)] + rest;
      assert ws[1..][1..] == rest;
    } else {
      assert ws[1..] == rest;
    }
  }

  lemma LegacyStep(lib: Library, u: Updater, c: Option<VersionFields>, src: SourceImage, rest: seq<Hit>, k: string)
    requires src.version == k
    ensures Outcome(lib, u, c, [LegacyHit(src)] + rest, k) ==
              Outcome(lib, u, Written(c, LegacyWrite(lib, u, src)), rest, k)
  {
    OutcomeStep(lib, u, c, LegacyHit(src), rest, k);
  }

  lemma CleanStep(lib: Library, u: Updater, c: Option<VersionFields>, src: SourceImage, rest: seq<Hit>, k: string)
    ensures Outcome(lib, u, c, [CleanHit(src)] + rest, k) == Outcome(lib, u, Written(c, CleanWrite(u, src)), rest, k)
  {
    OutcomeStep(lib, u, c, CleanHit(src), rest, k);
  }

  function LegacyHits(src: SourceImage, k: string): seq<Hit> {
    if src.version == k then [LegacyHit(src)] else []
  }

  function CleanHits(u: Updater, src: SourceImage, k: string): seq<Hit> {
    if WritesClean(u, src) && src.cleanVersion == k then [CleanHit(src)] else []
  }

  lemma LegacyPart(lib: Library, u: Updater, c: Option<VersionFields>, src: SourceImage, rest: seq<Hit>, k: string)
    ensures var d := if src.version == k then Written(c, LegacyWrite(lib, u, src)) else c;
            Outcome(lib, u, c, LegacyHits(src, k) + rest, k) == Outcome(lib, u, d, rest, k)
  {
    if src.version == k {
      LegacyStep(lib, u, c, src, rest, k);
    } else {
      assert [] + rest == rest;
    }
  }

  lemma CleanPart(lib: Library, u: Updater, c: Option<VersionFields>, src: SourceImage, rest: seq<Hit>, k: string)
    ensures var d := if WritesClean(u, src) && src.cleanVersion == k then Written(c, CleanWrite(u, src)) else c;
            Outcome(lib, u, c, CleanHits(u, src, k) + rest, k) == Outcome(lib, u, d, rest, k)
  {
    if WritesClean(u, src) && src.cleanVersion == k {
      CleanStep(lib, u, c, src, rest, k);
    } else {
      assert [] + rest == rest;
    }
  }

  lemma OutcomeSource(lib: Library, u: Updater, c: Option<VersionFields>, srcs: seq<SourceImage>, k: string)
    requires srcs != []
    ensures Outcome(lib, u, c, Hits(u, srcs, k), k) ==
            Outcome(lib, u, AfterSource(lib, u, c, srcs[0], k), Hits(u, srcs[1..], k), k)
  {
    var src, tail := srcs[0], Hits(u, srcs[1..], k);
    var d := if src.version == k then Written(c, LegacyWrite(lib, u, src)) else c;
    assert Hits(u, srcs, k) == LegacyHits(src, k) + (CleanHits(u, src, k) + tail);
    LegacyPart(lib, u, c, src, CleanHits(u, src, k) + tail, k);
    CleanPart(lib, u, d, src, tail, k);
  }

  lemma {:induction false} FoldIsOutcome(
      lib: Library, u: Updater, c: Option<VersionFields>, srcs: seq<SourceImage>, k: string)
    ensures FoldKey(c, Writes(lib, u, srcs), k) == Outcome(lib, u, c, Hits(u, srcs, k), k)
    decreases |srcs|
  {
    if srcs != [] {
      FoldSource(lib, u, c, srcs[0], Writes(lib, u, srcs[1..]), k);
      OutcomeSource(lib, u, c, srcs, k);
      FoldIsOutcome(lib, u, AfterSource(lib, u, c, srcs[0], k), srcs[1..], k);
    }
  }

  /** The index-map loop refines a fold without indices: the entry of every version string is the
      fold, in source order, of just the writes aimed at it. */
  lemma EntryIsFoldOfItsWrites(lib: Library, u: Updater, base: seq<ImageVersion>, srcs: seq<SourceImage>, k: string)
    ensures Find(Merged(lib, u, base, srcs), k, Last) == Outcome(lib, u, Find(base, k, Last), Hits(u, srcs, k), k)
  {
    PutAllFind(base, Writes(lib, u, srcs), Last, k);
    FoldIsOutcome(lib, u, Find(base, k, Last), srcs, k);
  }

  /** `src` creates an entry for version `k` when there is none. */
  predicate Introduces(lib: Library, u: Updater, src: SourceImage, k: string) {
    (src.version == k && lib.Valid(k)) || (u.enableCapabilities && src.cleanVersion == k && k != "")
  }

  lemma {:induction false} WritesCreate(lib: Library, u: Updater, srcs: seq<SourceImage>, k: string)
    ensures Creates(Writes(lib, u, srcs), k) <==> exists src :: src in srcs && Introduces(lib, u, src, k)
    decreases |srcs|
  {
    if srcs != [] {
      WritesCreate(lib, u, srcs[1..], k);
      assert srcs == [srcs[0]] + srcs[1..];
      CreatesConcat(WritesOf(lib, u, srcs[0]), Writes(lib, u, srcs[1..]), k);
      var ws := WritesOf(lib, u, srcs[0]);
      assert Creates(ws, k) <==> Introduces(lib, u, srcs[0], k) by {
        assert ws[0] == LegacyWrite(lib, u, srcs[0]);
        assert WritesClean(u, srcs[0]) ==> ws[1] == CleanWrite(u, srcs[0]);
      }
    }
  }

  lemma CreatesConcat<K, B>(v: seq<Write<K, B>>, w: seq<Write<K, B>>, k: K)
    ensures Creates(v + w, k) <==> Creates(v, k) || Creates(w, k)
  {
    if Creates(v, k) {
      var i :| 0 <= i < |v| && v[i].key == k && v[i].initial.Some?;
      assert (v + w)[i] == v[i];
    }
    if Creates(w, k) {
      var i :| 0 <= i < |w| && w[i].key == k && w[i].initial.Some?;
      assert (v + w)[|v| + i] == w[i];
    }
  }

  /** Base versions stay as a prefix, distinct versions stay distinct, and the version set is
      exactly: base, valid tags, and clean versions when capabilities are enabled; without capabilities it is
      base and valid tags alone. */
  lemma MergedVersionSet(lib: Library, u: Updater, base: seq<ImageVersion>, srcs: seq<SourceImage>)
    ensures var r := Merged(lib, u, base, srcs);
            && Keys(base) <= Keys(r)
            && (Distinct(Keys(base)) ==> Distinct(Keys(r)))
            && (forall k :: k in Keys(r) <==>
                  || k in Keys(base)
                  || (exists src :: src in srcs && src.version == k && lib.Valid(k))
                  || (u.enableCapabilities && k != "" && exists src :: src in srcs && src.cleanVersion == k))
            && (!u.enableCapabilities ==>
                  forall k :: k in Keys(r) <==>
                    k in Keys(base) || (lib.Valid(k) && exists src :: src in srcs && src.version == k))
  {
    var ws := Writes(lib, u, srcs);
    var r := Merged(lib, u, base, srcs);
    PutAllGrows(base, ws, Last);
    forall i | 0 <= i < |base| ensures Keys(r)[i] == Keys(base)[i] {
      PutAllPrefix(base, ws, Last, i);
    }
    if Distinct(Keys(base)) {
      PutAllDistinct(base, ws, Last);
    }
    forall k ensures k in Keys(r) <==> k in Keys(base) || exists src :: src in srcs && Introduces(lib, u, src, k) {
      KeysIntroduced(lib, u, base, srcs, k);
    }
  }

  lemma KeysIntroduced(lib: Library, u: Updater, base: seq<ImageVersion>, srcs: seq<SourceImage>, k: string)
    ensures k in Keys(Merged(lib, u, base, srcs)) <==>
              k in Keys(base) || exists src :: src in srcs && Introduces(lib, u, src, k)
  {
    PutAllKeys(base, Writes(lib, u, srcs), Last, k);
    WritesCreate(lib, u, srcs, k);
  }

  // ---------------------------------------------------------------- the fields of one entry

  predicate HasLegacy(hits: seq<Hit>) {
    exists i :: 0 <= i < |hits| && hits[i].LegacyHit?
  }

  /** The architectures the hits contribute: those of the last legacy hit and of every clean hit
      after it. */
  function Contributed(hits: seq<Hit>): set<string> {
    if hits == [] then {}
    else
      var h := hits[|hits| - 1];
      (set a | a in h.src.architectures) + if h.LegacyHit? then {} else Contributed(hits[..|hits| - 1])
  }

  /** The first date any hit brings. */
  function FirstDate(hits: seq<Hit>): Option<Time> {
    if hits == [] then None
    else if hits[0].src.expirationDate.Some? then hits[0].src.expirationDate
    else FirstDate(hits[1..])
  }

  lemma {:induction false} RunSnoc(u: Updater, b: VersionFields, hits: seq<Hit>, h: Hit)
    ensures Run(u, b, hits + [h]) == After(u, Run(u, b, hits), h)
    decreases |hits|
  {
    if hits == [] {
      assert hits + [h] == [h];
    } else {
      assert (hits + [h])[1..] == hits[1..] + [h];
      RunSnoc(u, After(u, b, hits[0]), hits[1..], h);
    }
  }

  /** The fields some hits leave in an entry that had the fields `b`: the classification and in-place support
      are those of the last hit, the date is the old one or else the first one reported, the architectures
      are those of the last legacy hit extended by later clean hits (or the old ones extended, without a
      legacy hit), the rest is untouched. */
  ghost predicate FieldsAfter(u: Updater, b: VersionFields, hits: seq<Hit>, r: VersionFields)
    requires hits != []
  {
    var last := hits[|hits| - 1].src;
    && r.classification == last.classification
    && r.inPlaceUpdates ==
         (if last.supportInPlaceUpdate then Some(InPlaceUpdates(true, u.minVersionForUpdate)) else None)
    && r.expirationDate == (if b.expirationDate.Some? then b.expirationDate else FirstDate(hits))
    && (forall a :: a in r.architectures <==> a in Contributed(hits) || (!HasLegacy(hits) && a in b.architectures))
    && r.cri == b.cri && r.kubeletVersionConstraint == b.kubeletVersionConstraint
  }

  lemma FieldsSnoc(u: Updater, b: VersionFields, init: seq<Hit>, r: VersionFields, h: Hit)
    requires if init == [] then r == b else FieldsAfter(u, b, init, r)
    ensures FieldsAfter(u, b, init + [h], After(u, r, h))
  {
    var hits := init + [h];
    assert hits[..|hits| - 1] == init;
    FirstDateSnoc(init, h);
    LegacySnoc(init, h);
  }

  lemma LegacySnoc(init: seq<Hit>, h: Hit)
    ensures HasLegacy(init + [h]) <==> h.LegacyHit? || HasLegacy(init)
  {
    var hits := init + [h];
    assert forall i :: 0 <= i < |init| ==> hits[i] == init[i];
    assert hits[|init|] == h;
  }

  /** Reading the fold field by field. */
  lemma {:induction false} RunFields(u: Updater, b: VersionFields, hits: seq<Hit>)
    requires hits != []
    ensures FieldsAfter(u, b, hits, Run(u, b, hits))
    decreases |hits|
  {
    var init, h := hits[..|hits| - 1], hits[|hits| - 1];
    assert hits == init + [h];
    RunSnoc(u, b, init, h);
    if init != [] {
      RunFields(u, b, init);
    }
    FieldsSnoc(u, b, init, Run(u, b, init), h);
  }

  lemma {:induction false} FirstDateSnoc(hits: seq<Hit>, h: Hit)
    ensures FirstDate(hits + [h]) == if FirstDate(hits).Some? then FirstDate(hits) else h.src.expirationDate
  {
    if hits == [] {
      assert hits + [h] == [h];
      assert FirstDate([h][1..]).None?;
    } else {
      assert (hits + [h])[1..] == hits[1..] + [h];
      FirstDateSnoc(hits[1..], h);
    }
  }

  ghost predicate SameButOrder(x: VersionFields, y: VersionFields) {
    x == y.(architectures := x.architectures) && forall a :: a in x.architectures <==> a in y.architectures
  }

  lemma {:induction false} RunSameButOrder(u: Updater, x: VersionFields, y: VersionFields, hits: seq<Hit>)
    requires SameButOrder(x, y)
    ensures SameButOrder(Run(u, x, hits), Run(u, y, hits))
    decreases |hits|
  {
    if hits != [] {
      RunSameButOrder(u, After(u, x, hits[0]), After(u, y, hits[0]), hits[1..]);
    }
  }

  /** The hits that reach an entry: a version that is neither there nor valid skips its legacy hits until a
      clean hit creates it. */
  function Effective(lib: Library, c: Option<VersionFields>, hits: seq<Hit>, k: string): (r: seq<Hit>)
    ensures c.Some? || lib.Valid(k) ==> r == hits
    ensures (forall h :: h in hits ==> h.LegacyHit?) && c.None? && !lib.Valid(k) ==> r == []
  {
    if c.Some? || lib.Valid(k) || hits == [] then hits
    else if hits[0].CleanHit? then
      assert hits[0] in hits;
      hits
    else
      assert forall h :: h in hits[1..] ==> h in hits;
      Effective(lib, c, hits[1..], k)
  }

  lemma {:induction false} OutcomeOfEffective(
      lib: Library, u: Updater, c: Option<VersionFields>, hits: seq<Hit>, k: string)
    ensures var eff := Effective(lib, c, hits, k);
            Outcome(lib, u, c, hits, k) ==
            if eff == [] then c
            else if c.Some? then Some(Run(u, c.value, eff))
            else Some(Run(u, Created(u, eff[0]), eff[1..]))
  {
    if c.None? && !lib.Valid(k) && hits != [] && hits[0].LegacyHit? {
      OutcomeOfEffective(lib, u, c, hits[1..], k);
    }
  }

  /** The entry of every version after a merge, from its old fields or from a blank entry. */
  lemma MergedEntryFields(lib: Library, u: Updater, base: seq<ImageVersion>, srcs: seq<SourceImage>, k: string)
    ensures var c, r := Find(base, k, Last), Find(Merged(lib, u, base, srcs), k, Last);
            var hits := Effective(lib, c, Hits(u, srcs, k), k);
            if hits == [] then r == c
            else r.Some? && FieldsAfter(u, if c.Some? then c.value else BLANK, hits, r.value)
  {
    var c := Find(base, k, Last);
    var hits := Effective(lib, c, Hits(u, srcs, k), k);
    EntryIsFoldOfItsWrites(lib, u, base, srcs, k);
    OutcomeOfEffective(lib, u, c, Hits(u, srcs, k), k);
    if hits != [] {
      if c.Some? {
        RunFields(u, c.value, hits);
      } else {
        CreatedFields(u, hits);
      }
    }
  }

  lemma CreatedFields(u: Updater, hits: seq<Hit>)
    requires hits != []
    ensures FieldsAfter(u, BLANK, hits, Run(u, Created(u, hits[0]), hits[1..]))
  {
    RunFields(u, BLANK, hits);
    RunSameButOrder(u, Created(u, hits[0]), After(u, BLANK, hits[0]), hits[1..]);
    FieldsSameButOrder(u, BLANK, hits, Run(u, BLANK, hits), Run(u, Created(u, hits[0]), hits[1..]));
  }

  lemma FieldsSameButOrder(u: Updater, b: VersionFields, hits: seq<Hit>, r: VersionFields, s: VersionFields)
    requires hits != [] && FieldsAfter(u, b, hits, r) && SameButOrder(s, r)
    ensures FieldsAfter(u, b, hits, s)
  {
  }

  /** A clean write changes nothing but the flavors exactly when the entry has the architectures, the
      classification and the in-place support of the source, and a date unless the source has none. Right
      after the legacy write of the same source to the same entry that is so. */
  lemma CleanWriteOnlyFlavorsExactly(u: Updater, src: SourceImage, b: VersionFields)
    ensures Clean(u, src, b) == b.(capabilityFlavors := MergedFlavors(b.capabilityFlavors, src.capabilities)) <==>
              && (forall a :: a in src.architectures ==> a in b.architectures)
              && b.classification == src.classification
              && (b.expirationDate.Some? || src.expirationDate.None?)
              && b.inPlaceUpdates == BuildInPlaceUpdates(src.supportInPlaceUpdate, u.minVersionForUpdate)
    ensures var legacy := Legacy(u, src, b);
            Clean(u, src, legacy) ==
                legacy.(capabilityFlavors := MergedFlavors(legacy.capabilityFlavors, src.capabilities))
  {
    var c := Clean(u, src, b);
    assert c.architectures == Union(b.architectures, src.architectures);
    if exists a :: a in src.architectures && a !in b.architectures {
      var a :| a in src.architectures && a !in b.architectures;
      assert a in c.architectures;
    }
  }

  /** The smallest entry of which it changes more: a supported version of one architecture, hit by the clean
      write of a deprecated image of another. */
  lemma CleanWriteChangesMore(u: Updater, src: SourceImage, date: Time)
    requires src.architectures == ["arm64"] && src.classification == Some(DEPRECATED)
    requires src.expirationDate == Some(date)
    ensures var b := BLANK.(architectures := ["amd64"], classification := Some(SUPPORTED));
            var c := Clean(u, src, b);
            && c.architectures == ["amd64", "arm64"]
            && c.classification == Some(DEPRECATED) && c.expirationDate == Some(date)
  {
    assert ["amd64"][0] != "arm64" by {
      assert "amd64"[1] != "arm64"[1];
    }
    assert "arm64" !in ["amd64"];
    assert Union(["amd64"], ["arm64"]) == Union(["amd64"] + ["arm64"], ["arm64"][1..]);
    assert ["arm64"][1..] == [];
  }

  // ---------------------------------------------------------------- merging again

  /** Flavors are only added, stay pairwise distinct, and include those of every clean hit. */
  lemma {:induction false} RunFlavors(u: Updater, b: VersionFields, hits: seq<Hit>)
    ensures b.capabilityFlavors <= Run(u, b, hits).capabilityFlavors
    ensures Distinct(b.capabilityFlavors) ==> Distinct(Run(u, b, hits).capabilityFlavors)
    ensures forall h :: h in hits && h.CleanHit? && h.src.capabilities.Some? && h.src.capabilities.value != map[] ==>
              h.src.capabilities.value in Run(u, b, hits).capabilityFlavors
    decreases |hits|
  {
    if hits != [] {
      var c := After(u, b, hits[0]);
      RunFlavors(u, c, hits[1..]);
      forall h | h in hits ensures h == hits[0] || h in hits[1..] {}
    }
  }

  lemma {:induction false} RunGrows(u: Updater, b: VersionFields, hits: seq<Hit>)
    ensures b.expirationDate.Some? ==> Run(u, b, hits).expirationDate == b.expirationDate
    ensures !HasLegacy(hits) ==> b.architectures <= Run(u, b, hits).architectures
    decreases |hits|
  {
    if hits != [] {
      RunGrows(u, After(u, b, hits[0]), hits[1..]);
      if HasLegacy(hits[1..]) {
        var i :| 0 <= i < |hits[1..]| && hits[1..][i].LegacyHit?;
        assert hits[i + 1].LegacyHit?;
      }
    }
  }

  /** Two runs of the same hits end the same when the second starts with the flavors and the date
      the first ends with, and with architectures that the hits overwrite or no longer extend. */
  lemma {:induction false} Absorb(u: Updater, x: VersionFields, y: VersionFields, hits: seq<Hit>)
    requires y.capabilityFlavors == Run(u, x, hits).capabilityFlavors
    requires y.expirationDate == Run(u, x, hits).expirationDate
    requires y.cri == x.cri && y.kubeletVersionConstraint == x.kubeletVersionConstraint
    requires HasLegacy(hits) || y.architectures == x.architectures || y.architectures == Run(u, x, hits).architectures
    requires hits != [] || (y.classification == x.classification && y.inPlaceUpdates == x.inPlaceUpdates)
    ensures Run(u, y, hits) == Run(u, x, hits)
    decreases |hits|
  {
    if hits != [] {
      var h, t := hits[0], hits[1..];
      var p, q := After(u, x, h), After(u, y, h);
      RunGrows(u, p, t);
      RunFlavors(u, p, t);
      assert HasLegacy(hits) ==> h.LegacyHit? || HasLegacy(t) by {
        if i :| 0 <= i < |hits| && hits[i].LegacyHit? && i > 0 {
          assert t[i - 1].LegacyHit?;
        }
      }
      Absorb(u, p, q, t);
    }
  }

  /** Every version hit by a clean write is valid, so legacy writes never skip it. */
  ghost predicate CleanVersionsValid(lib: Library, u: Updater, srcs: seq<SourceImage>) {
    forall src :: src in srcs && WritesClean(u, src) ==> lib.Valid(src.cleanVersion)
  }

  lemma {:induction false} OutcomeTwice(lib: Library, u: Updater, c: Option<VersionFields>, hits: seq<Hit>, k: string)
    requires lib.Valid(k) || forall h :: h in hits ==> h.LegacyHit?
    ensures Outcome(lib, u, Outcome(lib, u, c, hits, k), hits, k) == Outcome(lib, u, c, hits, k)
  {
    if hits == [] {
    } else if c.Some? {
      var r := Run(u, c.value, hits);
      RunFields(u, c.value, hits);
      Absorb(u, c.value, r, hits);
    } else if !lib.Valid(k) {
      NeverCreated(lib, u, hits, k);
    } else {
      var h, t := hits[0], hits[1..];
      var p := Created(u, h);
      var r := Run(u, p, t);
      RunGrows(u, p, t);
      RunFlavors(u, p, t);
      if t != [] {
        RunFields(u, p, t);
      }
      Absorb(u, p, After(u, r, h), t);
    }
  }

  lemma {:induction false} NeverCreated(lib: Library, u: Updater, hits: seq<Hit>, k: string)
    requires !lib.Valid(k) && forall h :: h in hits ==> h.LegacyHit?
    ensures Outcome(lib, u, None, hits, k).None?
    decreases |hits|
  {
    if hits != [] {
      assert hits[0] in hits && forall h :: h in hits[1..] ==> h in hits;
      NeverCreated(lib, u, hits[1..], k);
    }
  }

  /** Merging the same sources into the result of merging them changes no entry, no order, no
      architecture list, no flavor and no date. */
  lemma MergeIsIdempotent(lib: Library, u: Updater, base: seq<ImageVersion>, srcs: seq<SourceImage>)
    requires CleanVersionsValid(lib, u, srcs)
    ensures Merged(lib, u, Merged(lib, u, base, srcs), srcs) == Merged(lib, u, base, srcs)
  {
    var ws := Writes(lib, u, srcs);
    forall k ensures FoldKey(FoldKey(Find(base, k, Last), ws, k), ws, k) == FoldKey(Find(base, k, Last), ws, k) {
      var c := Find(base, k, Last);
      FoldIsOutcome(lib, u, c, srcs, k);
      FoldIsOutcome(lib, u, FoldKey(c, ws, k), srcs, k);
      OutcomeTwice(lib, u, c, Hits(u, srcs, k), k);
    }
    PutAllTwice(base, ws, Last);
  }

  lemma FetchedAreSound(lib: Library, reported: seq<SourceImage>, keep: SourceImage -> bool, fetched: seq<SourceImage>)
    requires lib.Lawful() && FetchResult(lib, reported, keep, fetched)
    ensures forall img :: img in fetched ==> img in ValidatedAll(lib, reported) && Sound(lib, img)
  {
    var sorted :| IsSortOf(sorted, ValidatedAll(lib, reported), FetchOrder) && fetched == Select(sorted, keep);
    SameMembers(sorted, ValidatedAll(lib, reported));
    ValidationEstablishesSoundness(lib, reported);
  }

  /** Repeating `Apply` with what `Fetch` returned changes no machine image, because validation makes
      every clean version valid. */
  lemma ApplyIsIdempotent(
    lib: Library, u: Updater, reported: seq<SourceImage>, keep: SourceImage -> bool, fetched: seq<SourceImage>,
    allowed: map<string, set<string>>, base: seq<MachineImage>)
    requires lib.Lawful() && FetchResult(lib, reported, keep, fetched)
    ensures var edit := ImageEdit(lib, u, FilteredSources(fetched, allowed));
            Put(Put(base, edit, First), edit, First) == Put(base, edit, First)
  {
    var srcs := FilteredSources(fetched, allowed);
    var edit := ImageEdit(lib, u, srcs);
    FetchedAreSound(lib, reported, keep, fetched);
    forall src | src in srcs && WritesClean(u, src) ensures lib.Valid(src.cleanVersion) {
      var i :| 0 <= i < |srcs| && srcs[i] == src;
      assert fetched[i] in fetched;
    }
    var i := Locate(base, u.imageName, First);
    MergeIsIdempotent(lib, u, if i == -1 then [] else base[i].body.versions, srcs);
    PutLocate(base, edit, First, u.imageName);
  }

  lemma {:induction false} RunFlavorOrigin(u: Updater, b: VersionFields, hits: seq<Hit>, f: Capabilities)
    requires f in Run(u, b, hits).capabilityFlavors && f !in b.capabilityFlavors
    ensures exists h :: h in hits && h.CleanHit? && h.src.capabilities == Some(f)
    decreases |hits|
  {
    var c := After(u, b, hits[0]);
    if f !in c.capabilityFlavors {
      RunFlavorOrigin(u, c, hits[1..], f);
      assert forall h :: h in hits[1..] ==> h in hits;
    } else {
      assert hits[0] in hits;
    }
  }

  function FlavorsOf(versions: seq<ImageVersion>, k: string): seq<Capabilities> {
    match Find(versions, k, Last) case Some(b) => b.capabilityFlavors case None => []
  }

  /** Where the flavors of an entry come from after a run of hits. */
  ghost predicate FlavorStory(before: seq<Capabilities>, hits: seq<Hit>, r: seq<Capabilities>) {
    && before <= r
    && (Distinct(before) ==> Distinct(r))
    && (forall f :: f in r ==> f in before || exists h :: h in hits && h.CleanHit? && h.src.capabilities == Some(f))
    && (forall h :: h in hits && h.CleanHit? && h.src.capabilities.Some? && h.src.capabilities.value != map[] ==>
          h.src.capabilities.value in r)
  }

  lemma RunFlavorStory(u: Updater, b: VersionFields, hits: seq<Hit>)
    ensures FlavorStory(b.capabilityFlavors, hits, Run(u, b, hits).capabilityFlavors)
  {
    RunFlavors(u, b, hits);
    forall f | f in Run(u, b, hits).capabilityFlavors && f !in b.capabilityFlavors
      ensures exists h :: h in hits && h.CleanHit? && h.src.capabilities == Some(f) {
      RunFlavorOrigin(u, b, hits, f);
    }
  }

  /** Creating an entry and updating a blank one differ only in repeated architectures. */
  lemma {:induction false} RunFlavorsAgree(u: Updater, x: VersionFields, y: VersionFields, hits: seq<Hit>)
    requires x.capabilityFlavors == y.capabilityFlavors
    ensures Run(u, x, hits).capabilityFlavors == Run(u, y, hits).capabilityFlavors
    decreases |hits|
  {
    if hits != [] {
      RunFlavorsAgree(u, After(u, x, hits[0]), After(u, y, hits[0]), hits[1..]);
    }
  }

  lemma FlavorsOfMerged(lib: Library, u: Updater, base: seq<ImageVersion>, srcs: seq<SourceImage>, k: string)
    requires CleanVersionsValid(lib, u, srcs)
    ensures FlavorStory(FlavorsOf(base, k), Hits(u, srcs, k), FlavorsOf(Merged(lib, u, base, srcs), k))
  {
    var c, hits := Find(base, k, Last), Hits(u, srcs, k);
    EntryIsFoldOfItsWrites(lib, u, base, srcs, k);
    if hits == [] {
    } else if c.Some? {
      RunFlavorStory(u, c.value, hits);
    } else if !lib.Valid(k) {
      NeverCreated(lib, u, hits, k);
    } else {
      RunFlavorStory(u, BLANK, hits);
      RunFlavorsAgree(u, Created(u, hits[0]), After(u, BLANK, hits[0]), hits[1..]);
    }
  }

  /** The flavor set. Distinct flavors stay distinct; every new flavor is the filtered capability map
      of some source with this clean version, so all its key/value pairs are declared, and the
      filtered capabilities of each source are there exactly once. */
  lemma FlavorSet(
    lib: Library, u: Updater, base: seq<ImageVersion>, fetched: seq<SourceImage>, allowed: map<string, set<string>>,
    k: string)
    requires u.enableCapabilities
    requires forall img :: img in fetched ==> Sound(lib, img)
    requires Distinct(FlavorsOf(base, k))
    ensures var r := FlavorsOf(Merged(lib, u, base, FilteredSources(fetched, allowed)), k);
            && FlavorsOf(base, k) <= r && Distinct(r)
            && (forall f :: f in r && f !in FlavorsOf(base, k) ==>
                  && (exists img ::
                        img in fetched && img.cleanVersion == k && Filtered(img.capabilities, allowed) == Some(f))
                  && forall key, v :: key in f && v in f[key] ==> key in allowed && v in allowed[key])
            && (forall img ::
                  img in fetched && img.cleanVersion == k != "" && Filtered(img.capabilities, allowed).Some? ==>
                  multiset(r)[Filtered(img.capabilities, allowed).value] == 1)
  {
    var srcs := FilteredSources(fetched, allowed);
    var r := FlavorsOf(Merged(lib, u, base, srcs), k);
    SoundSources(lib, u, fetched, allowed);
    FlavorsOfMerged(lib, u, base, srcs, k);
    forall f | f in r && f !in FlavorsOf(base, k)
      ensures exists img :: img in fetched && img.cleanVersion == k && Filtered(img.capabilities, allowed) == Some(f) {
      var h :| h in Hits(u, srcs, k) && h.CleanHit? && h.src.capabilities == Some(f);
      FilteredFrom(fetched, allowed, h.src);
    }
    forall img | img in fetched && img.cleanVersion == k != "" && Filtered(img.capabilities, allowed).Some?
      ensures multiset(r)[Filtered(img.capabilities, allowed).value] == 1 {
      FlavorOnce(u, fetched, allowed, FlavorsOf(base, k), r, img);
    }
  }

  /** Without capabilities no flavor is added. */
  lemma NoFlavorsWithoutCapabilities(
      lib: Library, u: Updater, base: seq<ImageVersion>, srcs: seq<SourceImage>, k: string)
    requires !u.enableCapabilities
    ensures FlavorsOf(Merged(lib, u, base, srcs), k) == FlavorsOf(base, k)
  {
    EntryIsFoldOfItsWrites(lib, u, base, srcs, k);
    LegacyFlavors(lib, u, Find(base, k, Last), Hits(u, srcs, k), k);
  }

  lemma {:induction false} LegacyFlavors(
      lib: Library, u: Updater, c: Option<VersionFields>, hits: seq<Hit>, k: string)
    requires forall h :: h in hits ==> h.LegacyHit?
    ensures var r := Outcome(lib, u, c, hits, k);
            if c.Some? then r.Some? && r.value.capabilityFlavors == c.value.capabilityFlavors
            else r.Some? ==> r.value.capabilityFlavors == []
    decreases |hits|
  {
    if hits != [] {
      assert hits[0] in hits && forall h :: h in hits[1..] ==> h in hits;
      assert hits == [hits[0]] + hits[1..];
      OutcomeStep(lib, u, c, hits[0], hits[1..], k);
      LegacyFlavors(lib, u, if c.Some? then Some(After(u, c.value, hits[0]))
                            else if !lib.Valid(k) then None else Some(Created(u, hits[0])), hits[1..], k);
    }
  }

  lemma SoundSources(lib: Library, u: Updater, fetched: seq<SourceImage>, allowed: map<string, set<string>>)
    requires forall img :: img in fetched ==> Sound(lib, img)
    ensures CleanVersionsValid(lib, u, FilteredSources(fetched, allowed))
  {
    forall src | src in FilteredSources(fetched, allowed) && WritesClean(u, src)
      ensures lib.Valid(src.cleanVersion) {
      FilteredFrom(fetched, allowed, src);
    }
  }

  lemma FlavorOnce(
      u: Updater, fetched: seq<SourceImage>, allowed: map<string, set<string>>, before: seq<Capabilities>,
      r: seq<Capabilities>, img: SourceImage)
    requires u.enableCapabilities && img in fetched && img.cleanVersion != ""
    requires Filtered(img.capabilities, allowed).Some? && Distinct(r)
    requires FlavorStory(before, Hits(u, FilteredSources(fetched, allowed), img.cleanVersion), r)
    ensures multiset(r)[Filtered(img.capabilities, allowed).value] == 1
  {
    var i :| 0 <= i < |fetched| && fetched[i] == img;
    CleanHitThere(u, FilteredSources(fetched, allowed), i);
    DistinctCount(r, Filtered(img.capabilities, allowed).value);
  }

  lemma FilteredFrom(fetched: seq<SourceImage>, allowed: map<string, set<string>>, src: SourceImage)
    requires src in FilteredSources(fetched, allowed)
    ensures exists img :: img in fetched && src == img.(capabilities := Filtered(img.capabilities, allowed))
  {
    var srcs := FilteredSources(fetched, allowed);
    var i :| 0 <= i < |srcs| && srcs[i] == src;
    assert fetched[i] in fetched;
  }

  lemma {:induction false} CleanHitThere(u: Updater, srcs: seq<SourceImage>, i: nat)
    requires i < |srcs| && WritesClean(u, srcs[i])
    ensures CleanHit(srcs[i]) in Hits(u, srcs, srcs[i].cleanVersion)
  {
    if i > 0 {
      CleanHitThere(u, srcs[1..], i - 1);
    }
  }
}
