/** What the Glance source guarantees, whatever the listing order within a region and the arrival
    order of the regions. */
module GlanceTheorems {
  import opened Prelude
  import opened Sorting
  import opened Images
  import opened Semver
  import opened ImageUpdater
  import opened OpenStackTheorems
  import opened GlanceSource
  import opened AlikeSources
  import opened RankWindows

  /** Region to version to image id. */
  type Grid = map<string, map<string, string>>

  // ---------------------------------------------------------------- the canonical image

  lemma {:induction false} NonePreferred(g: Glance, lib: Library, imgs: seq<Image>)
    ensures var c := CanonicalImages(g, lib, imgs);
            && (forall v :: v in c ==> c[v] in imgs && ParseVersion(g, lib, c[v].name) == Some(v))
            && (forall img :: img in imgs && ParseVersion(g, lib, img.name).Some? ==>
                  var v := ParseVersion(g, lib, img.name).value;
                  v in c && !PreferImage(img, c[v]))
  {
    if imgs != [] {
      var init, last := imgs[..|imgs| - 1], imgs[|imgs| - 1];
      var c, d := CanonicalImages(g, lib, init), CanonicalImages(g, lib, imgs);
      assert imgs == init + [last];
      NonePreferred(g, lib, init);
      forall img | img in imgs && ParseVersion(g, lib, img.name).Some?
        ensures var v := ParseVersion(g, lib, img.name).value;
                v in d && !PreferImage(img, d[v]) {
        var v := ParseVersion(g, lib, img.name).value;
        if v in c {
          PreferenceOrder(img, last, c[v]);
          PreferenceOrder(last, c[v], img);
          PreferenceOrder(img, c[v], last);
        }
        PreferenceOrder(img, img, img);
      }
    }
  }

  /** The kept image of a version is listed and names that version. It is active if some listed image of the
      version is; of the images as active as it none was created later, and of those created at the same time
      none has a larger id. */
  lemma CanonicalIsBest(g: Glance, lib: Library, imgs: seq<Image>)
    ensures var c := CanonicalImages(g, lib, imgs);
            && (forall v :: v in c ==> c[v] in imgs && ParseVersion(g, lib, c[v].name) == Some(v))
            && (forall img :: img in imgs && ParseVersion(g, lib, img.name).Some? ==>
                  var v := ParseVersion(g, lib, img.name).value;
                  && v in c
                  && (img.status == "active" ==> c[v].status == "active")
                  && ((img.status == "active" <==> c[v].status == "active") ==>
                        && img.createdAt <= c[v].createdAt
                        && (img.createdAt == c[v].createdAt ==> !ComesBefore(c[v].id, img.id))))
  {
    var c := CanonicalImages(g, lib, imgs);
    NonePreferred(g, lib, imgs);
    forall img | img in imgs && ParseVersion(g, lib, img.name).Some?
      ensures var v := ParseVersion(g, lib, img.name).value;
              && v in c
              && (img.status == "active" ==> c[v].status == "active")
              && ((img.status == "active" <==> c[v].status == "active") ==>
                    && img.createdAt <= c[v].createdAt
                    && (img.createdAt == c[v].createdAt ==> !ComesBefore(c[v].id, img.id))) {
      var v := ParseVersion(g, lib, img.name).value;
      PreferenceOrder(img, c[v], img);
    }
  }

  /** With distinct image ids every listing order keeps the same images: each is the unique maximum of
      its version. */
  lemma CanonicalIndependentOfListing(g: Glance, lib: Library, imgs: seq<Image>, other: seq<Image>)
    requires forall img :: img in imgs <==> img in other
    requires forall a, b :: a in imgs && b in imgs && a.id == b.id ==> a == b
    ensures CanonicalImages(g, lib, imgs) == CanonicalImages(g, lib, other)
  {
    CanonicalWithin(g, lib, imgs, other);
    CanonicalWithin(g, lib, other, imgs);
  }

  lemma CanonicalWithin(g: Glance, lib: Library, imgs: seq<Image>, other: seq<Image>)
    requires forall img :: img in imgs <==> img in other
    requires forall a, b :: a in imgs && b in imgs && a.id == b.id ==> a == b
    ensures var c, d := CanonicalImages(g, lib, imgs), CanonicalImages(g, lib, other);
            forall v :: v in c ==> v in d && c[v] == d[v]
  {
    var c, d := CanonicalImages(g, lib, imgs), CanonicalImages(g, lib, other);
    forall v | v in c ensures v in d && c[v] == d[v] {
      KeptListed(g, lib, imgs, v);
      NotPreferred(g, lib, other, c[v], v);
      KeptListed(g, lib, other, v);
      NotPreferred(g, lib, imgs, d[v], v);
      PreferenceOrder(c[v], d[v], c[v]);
    }
  }

  lemma KeptListed(g: Glance, lib: Library, imgs: seq<Image>, v: string)
    requires v in CanonicalImages(g, lib, imgs)
    ensures var c := CanonicalImages(g, lib, imgs); c[v] in imgs && ParseVersion(g, lib, c[v].name) == Some(v)
  {
    NonePreferred(g, lib, imgs);
  }

  lemma NotPreferred(g: Glance, lib: Library, imgs: seq<Image>, img: Image, v: string)
    requires img in imgs && ParseVersion(g, lib, img.name) == Some(v)
    ensures v in CanonicalImages(g, lib, imgs) && !PreferImage(img, CanonicalImages(g, lib, imgs)[v])
  {
    NonePreferred(g, lib, imgs);
  }

  /** Exactly which image names are recognised, and as which version: prefix, version, dash and a hash
      without dashes, and nothing excluded in the name. */
  lemma NamesRecognised(g: Glance, lib: Library, name: string, v: string)
    ensures ParseVersion(g, lib, name) == Some(v) <==>
              && (forall skip, pre, post :: skip in g.params.excludedSuffixes ==> name != pre + skip + post)
              && exists raw, hash :: NameParts(g, name, raw, hash) && lib.Canonical(raw) == Some(v)
  {
    if g.namePrefix <= name && LastDash(name[|g.namePrefix|..]) > 0 {
      SplitAtLastDash(g, name);
    }
    forall skip ensures Contains(name, skip) <==> exists pre, post :: name == pre + skip + post {
      ContainsExactly(name, skip);
    }
    forall raw, hash | NameParts(g, name, raw, hash)
      ensures g.namePrefix <= name && LastDash(name[|g.namePrefix|..]) == |raw|
      ensures name[|g.namePrefix|..][..|raw|] == raw {
      PartsAreUnique(g, name, raw, hash);
    }
  }

  lemma ContainsExactly(s: string, part: string)
    ensures Contains(s, part) <==> exists pre, post :: s == pre + part + post
  {
    if i :| 0 <= i <= |s| && part <= s[i..] {
      assert s == s[..i] + part + s[i..][|part|..];
    }
    if pre, post :| s == pre + part + post {
      assert s[|pre|..] == part + post;
    }
  }

  lemma SplitAtLastDash(g: Glance, name: string)
    requires g.namePrefix <= name && LastDash(name[|g.namePrefix|..]) > 0
    ensures var rest := name[|g.namePrefix|..];
            NameParts(g, name, rest[..LastDash(rest)], rest[LastDash(rest) + 1..])
  {
    var rest := name[|g.namePrefix|..];
    var idx := LastDash(rest);
    assert name == g.namePrefix + rest;
    assert rest == rest[..idx] + "-" + rest[idx + 1..];
    assert name == g.namePrefix + rest[..idx] + "-" + rest[idx + 1..];
  }

  lemma PartsAreUnique(g: Glance, name: string, raw: string, hash: string)
    requires NameParts(g, name, raw, hash)
    ensures g.namePrefix <= name && LastDash(name[|g.namePrefix|..]) == |raw| && name[|g.namePrefix|..][..|raw|] == raw
  {
    var rest := raw + "-" + hash;
    assert name == g.namePrefix + rest;
    assert name[|g.namePrefix|..] == rest;
    assert rest[|raw|] == '-';
    assert forall j :: |raw| < j < |rest| ==> rest[j] == hash[j - |raw| - 1];
  }

  predicate NameParts(g: Glance, name: string, raw: string, hash: string) {
    name == g.namePrefix + raw + "-" + hash && raw != "" && '-' !in hash
  }

  // ---------------------------------------------------------------- what was found where

  /** The images that arrived are exactly those of `grid`: region to version to image id. */
  ghost predicate Faithful(imgs: seq<SourceImage>, grid: Grid) {
    && (forall img :: img in imgs ==>
          |img.regions| == 1 && img == RegionalImage(img.regions[0].region, img.version, img.regions[0].id))
    && forall n, v, id :: RegionalImage(n, v, id) in imgs <==> n in grid && v in grid[n] && grid[n][v] == id
  }

  lemma {:induction false} FlattenMember(arrivals: seq<RegionResult>, img: SourceImage)
    ensures img in Flatten(arrivals) <==> exists a :: a in arrivals && a.Found? && img in a.images
  {
    if arrivals != [] {
      var init, last := arrivals[..|arrivals| - 1], arrivals[|arrivals| - 1];
      assert arrivals == init + [last];
      FlattenMember(init, img);
    }
  }

  /** What worker `i` sends for its region: a failure, or a report of the canonical images. */
  ghost predicate Answers(region: string, answer: Option<map<string, string>>, r: RegionResult) {
    if answer.None? then r == Failed else r.Found? && Reports(region, answer.value, r.images)
  }

  function GridFrom(regions: seq<string>, answers: seq<Option<map<string, string>>>): Grid
    requires |regions| == |answers| && Distinct(regions)
  {
    map i | 0 <= i < |regions| && answers[i].Some? :: regions[i] := answers[i].value
  }

  /** With distinct regions any arrival order brings exactly the grid of the answers. */
  lemma ArrivalsAreFaithful(
    regions: seq<string>, answers: seq<Option<map<string, string>>>, results: seq<RegionResult>,
    arrivals: seq<RegionResult>)
    requires |regions| == |answers| == |results| && Distinct(regions)
    requires forall i :: 0 <= i < |regions| ==> Answers(regions[i], answers[i], results[i])
    requires multiset(arrivals) == multiset(results)
    ensures Faithful(Flatten(arrivals), GridFrom(regions, answers))
  {
    var imgs, grid := Flatten(arrivals), GridFrom(regions, answers);
    SameMembers(arrivals, results);
    forall img | img in imgs
      ensures |img.regions| == 1 && img == RegionalImage(img.regions[0].region, img.version, img.regions[0].id) {
      FlattenMember(arrivals, img);
      var a :| a in arrivals && a.Found? && img in a.images;
      var i :| 0 <= i < |results| && results[i] == a;
      assert Answers(regions[i], answers[i], results[i]);
    }
    forall n, v, id ensures RegionalImage(n, v, id) in imgs <==> n in grid && v in grid[n] && grid[n][v] == id {
      var img := RegionalImage(n, v, id);
      FlattenMember(arrivals, img);
      if img in imgs {
        var a :| a in arrivals && a.Found? && img in a.images;
        var i :| 0 <= i < |results| && results[i] == a;
        assert Answers(regions[i], answers[i], results[i]);
        assert img.regions[0] == RegionImage(regions[i], answers[i].value[v]);
      }
      if n in grid && v in grid[n] && grid[n][v] == id {
        var i :| 0 <= i < |regions| && answers[i].Some? && regions[i] == n;
        assert Answers(regions[i], answers[i], results[i]);
        assert results[i] in arrivals && img in results[i].images;
      }
    }
  }

  // ---------------------------------------------------------------- the merged entries

  function RegionsFor(imgs: seq<SourceImage>, v: string): seq<RegionImage> {
    if imgs == [] then []
    else
      var last := imgs[|imgs| - 1];
      RegionsFor(imgs[..|imgs| - 1], v) + if last.version == v then last.regions else []
  }

  /** A merged entry has the fields every region gives the version, and all its regions in order of
      arrival. */
  lemma {:induction false} MergedEntry(imgs: seq<SourceImage>, v: string)
    requires forall img :: img in imgs ==>
               |img.regions| == 1 && img == RegionalImage(img.regions[0].region, img.version, img.regions[0].id)
    ensures v in ByVersion(imgs) <==> exists img :: img in imgs && img.version == v
    ensures v in ByVersion(imgs) ==> ByVersion(imgs)[v] == RegionalImage("", v, "").(regions := RegionsFor(imgs, v))
    ensures v !in ByVersion(imgs) ==> RegionsFor(imgs, v) == []
  {
    if imgs != [] {
      var init, last := imgs[..|imgs| - 1], imgs[|imgs| - 1];
      assert imgs == init + [last];
      assert last in imgs;
      MergedEntry(init, v);
    }
  }

  lemma {:induction false} RegionsForMember(imgs: seq<SourceImage>, v: string, r: RegionImage)
    ensures r in RegionsFor(imgs, v) <==> exists img :: img in imgs && img.version == v && r in img.regions
  {
    if imgs != [] {
      var init, last := imgs[..|imgs| - 1], imgs[|imgs| - 1];
      assert imgs == init + [last];
      RegionsForMember(init, v, r);
    }
  }

  lemma {:induction false} LastIdMember(add: seq<RegionImage>, n: string)
    ensures LastId(add, n).Some? ==> RegionImage(n, LastId(add, n).value) in add
    ensures LastId(add, n).None? ==> forall r :: r in add ==> r.region != n
  {
    if add != [] {
      LastIdMember(add[1..], n);
      assert add == [add[0]] + add[1..];
    }
  }

  /** The regions of a merged entry, read off the grid. */
  lemma MergedRegions(imgs: seq<SourceImage>, grid: Grid, v: string, n: string)
    requires Faithful(imgs, grid)
    ensures LastId(RegionsFor(imgs, v), n) == if n in grid && v in grid[n] then Some(grid[n][v]) else None
    ensures (exists r :: r in RegionsFor(imgs, v) && r.region == n) <==> n in grid && v in grid[n]
  {
    var regions := RegionsFor(imgs, v);
    LastIdMember(regions, n);
    forall r | r in regions && r.region == n ensures n in grid && v in grid[n] && grid[n][v] == r.id {
      RegionsForMember(imgs, v, r);
      var img :| img in imgs && img.version == v && r in img.regions;
      assert img == RegionalImage(n, v, r.id);
    }
    if n in grid && v in grid[n] {
      var r := RegionImage(n, grid[n][v]);
      RegionsForMember(imgs, v, r);
      assert RegionalImage(n, v, grid[n][v]) in imgs;
      assert r in RegionalImage(n, v, grid[n][v]).regions;
    }
  }

  // ---------------------------------------------------------------- the versions that are kept

  /** Regions that reported at least one image. */
  ghost function Contributing(grid: Grid): set<string> {
    set n | n in grid && grid[n] != map[]
  }

  /** A version some region reports, and, when all regions are required, every contributing one. */
  ghost predicate KeptVersion(g: Glance, grid: Grid, v: string) {
    && (exists n :: n in grid && v in grid[n])
    && (g.params.requireAllRegions ==> forall n :: n in Contributing(grid) ==> v in grid[n])
  }

  /** The kept versions, as a set. */
  ghost function Kept(g: Glance, grid: Grid): (versions: set<string>)
    ensures forall v :: v in versions <==> KeptVersion(g, grid, v)
  {
    set n, v | n in grid && v in grid[n] && KeptVersion(g, grid, v) :: v
  }

  /** The order of the versions: newest first. */
  ghost function Newest(lib: Library): (string, string) -> bool {
    (a, b) => lib.NewestFirst(a, b)
  }

  lemma NewestPreorder(lib: Library)
    ensures TotalPreorder(Newest(lib))
  {
    var le := Newest(lib);
    forall a, b ensures le(a, b) || le(b, a) {
      NewestFirstOrder(lib, a, b, a);
    }
    forall a, b, c | le(a, b) && le(b, c) ensures le(a, c) {
      NewestFirstOrder(lib, a, b, c);
    }
  }

  lemma AllRegionsAreContributing(imgs: seq<SourceImage>, grid: Grid)
    requires Faithful(imgs, grid)
    ensures AllRegions(imgs) == Contributing(grid)
  {
    forall n ensures n in AllRegions(imgs) <==> n in Contributing(grid) {
      if n in AllRegions(imgs) {
        var img, r :| img in imgs && r in img.regions && r.region == n;
        assert img == RegionalImage(n, img.version, r.id);
        assert img.version in grid[n];
      }
      if n in Contributing(grid) {
        var v :| v in grid[n];
        var img := RegionalImage(n, v, grid[n][v]);
        assert img in imgs && RegionImage(n, grid[n][v]) in img.regions;
      }
    }
  }

  lemma KeptExactly(g: Glance, imgs: seq<SourceImage>, grid: Grid, v: string)
    requires Faithful(imgs, grid)
    ensures v in ByVersion(imgs) && Eligible(g, imgs, ByVersion(imgs)[v]) <==> KeptVersion(g, grid, v)
  {
    MergedEntry(imgs, v);
    AllRegionsAreContributing(imgs, grid);
    if n :| n in grid && v in grid[n] {
      assert RegionalImage(n, v, grid[n][v]) in imgs;
    }
    if img :| img in imgs && img.version == v {
      assert img.regions[0].region in grid;
    }
    forall n ensures (exists r :: r in RegionsFor(imgs, v) && r.region == n) <==> n in grid && v in grid[n] {
      MergedRegions(imgs, grid, v, n);
    }
    if v in ByVersion(imgs) {
      assert forall n :: n in RegionNames(ByVersion(imgs)[v]) <==> n in grid && v in grid[n];
    }
  }

  ghost predicate MergedFrom(imgs: seq<SourceImage>, x: seq<SourceImage>) {
    forall i :: 0 <= i < |x| ==> x[i] == RegionalImage("", x[i].version, "").(regions := RegionsFor(imgs, x[i].version))
  }

  /** The listed entries that pass the region requirement, in any order, are those of the kept versions. */
  lemma ChosenVersions(g: Glance, imgs: seq<SourceImage>, grid: Grid,
                       listed: seq<SourceImage>, sorted: seq<SourceImage>)
    requires Faithful(imgs, grid) && Lists(listed, ByVersion(imgs))
    requires multiset(sorted) == multiset(Select(listed, EligibleIn(g, imgs)))
    ensures Distinct(Tags(sorted))
    ensures forall img :: img in sorted <==>
              img.version in ByVersion(imgs) && img == ByVersion(imgs)[img.version] && Eligible(g, imgs, img)
  {
    var eligible := EligibleIn(g, imgs);
    var chosen := Select(listed, eligible);
    SelectTags(listed, eligible);
    SameMembers(sorted, chosen);
    TagsOfPermutation(sorted, chosen);
  }

  lemma KeptTags(g: Glance, imgs: seq<SourceImage>, grid: Grid, sorted: seq<SourceImage>, v: string)
    requires Faithful(imgs, grid)
    requires forall img :: img in sorted <==>
               img.version in ByVersion(imgs) && img == ByVersion(imgs)[img.version] && Eligible(g, imgs, img)
    ensures v in Tags(sorted) <==> v in Kept(g, grid)
  {
    KeptExactly(g, imgs, grid, v);
    if v in Tags(sorted) {
      var i :| 0 <= i < |sorted| && Tags(sorted)[i] == v;
      assert sorted[i] in sorted;
    }
    if v in ByVersion(imgs) && Eligible(g, imgs, ByVersion(imgs)[v]) {
      ByVersionKeyed(imgs);
      var i :| 0 <= i < |sorted| && sorted[i] == ByVersion(imgs)[v];
      assert Tags(sorted)[i] == v;
    }
  }

  /** The stages of a result, read off the grid: the sorted list holds exactly the kept versions. */
  lemma SortedVersions(g: Glance, lib: Library, imgs: seq<SourceImage>, grid: Grid,
                       now: Time, r: seq<SourceImage>, listed: seq<SourceImage>, sorted: seq<SourceImage>)
    requires Faithful(imgs, grid) && GlanceStages(g, lib, imgs, now, r, listed, sorted)
    ensures Ranked(Tags(sorted), Kept(g, grid), Newest(lib)) && MergedFrom(imgs, sorted)
  {
    ChosenVersions(g, imgs, grid, listed, sorted);
    forall v ensures v in Tags(sorted) <==> v in Kept(g, grid) {
      KeptTags(g, imgs, grid, sorted, v);
    }
    SortedEntries(imgs, grid, sorted);
    TagsOrdered(lib, sorted);
  }

  lemma TagsOrdered(lib: Library, sorted: seq<SourceImage>)
    requires Ordered(sorted, NewestImages(lib))
    ensures Ordered(Tags(sorted), Newest(lib))
  {
    var le := NewestImages(lib);
    forall i, j | 0 <= i < j < |sorted| ensures Newest(lib)(Tags(sorted)[i], Tags(sorted)[j]) {
      assert le(sorted[i], sorted[j]);
    }
  }

  lemma SortedEntries(imgs: seq<SourceImage>, grid: Grid, sorted: seq<SourceImage>)
    requires Faithful(imgs, grid)
    requires forall img :: img in sorted ==> img.version in ByVersion(imgs) && img == ByVersion(imgs)[img.version]
    ensures MergedFrom(imgs, sorted)
  {
    forall i | 0 <= i < |sorted|
      ensures sorted[i] == RegionalImage("", sorted[i].version, "").(regions := RegionsFor(imgs, sorted[i].version)) {
      assert sorted[i] in sorted;
      MergedEntry(imgs, sorted[i].version);
    }
  }

  /** What is behind a result: the kept versions in order, cut to the window and stamped. */
  lemma Stages(g: Glance, lib: Library, imgs: seq<SourceImage>, grid: Grid, now: Time, r: seq<SourceImage>)
    returns (sorted: seq<SourceImage>)
    requires Faithful(imgs, grid) && GlanceResult(g, lib, imgs, now, r)
    ensures Ranked(Tags(sorted), Kept(g, grid), Newest(lib)) && MergedFrom(imgs, sorted) && |sorted| == |Kept(g, grid)|
    ensures r == Stamped(sorted[Lo(g, |sorted|)..Hi(g, |sorted|)], now)
  {
    var listed: seq<SourceImage>;
    listed, sorted :| GlanceStages(g, lib, imgs, now, r, listed, sorted);
    SortedVersions(g, lib, imgs, grid, now, r, listed, sorted);
    RankedSize(Tags(sorted), Kept(g, grid), Newest(lib));
  }

  lemma {:induction false} SelectTags(s: seq<SourceImage>, keep: SourceImage -> bool)
    requires Distinct(Tags(s))
    ensures Distinct(Tags(Select(s, keep)))
  {
    if s != [] {
      var t := Select(s[1..], keep);
      forall i, j | 0 <= i < j < |s[1..]| ensures Tags(s[1..])[i] != Tags(s[1..])[j] {
        assert Tags(s)[i + 1] != Tags(s)[j + 1];
      }
      SelectTags(s[1..], keep);
      forall i | 0 <= i < |t| ensures t[i].version != s[0].version {
        assert t[i] in s[1..];
        var j :| 0 <= j < |s[1..]| && s[1..][j] == t[i];
        assert Tags(s)[j + 1] != Tags(s)[0];
      }
      var r := Select(s, keep);
      forall i, j | 0 <= i < j < |r| ensures Tags(r)[i] != Tags(r)[j] {
        if keep(s[0]) {
          assert r == [s[0]] + t;
          assert i > 0 ==> Tags(t)[i - 1] != Tags(t)[j - 1];
        } else {
          assert r == t;
        }
      }
    }
  }

  /** Version `v` was merged and passes the region requirement. */
  predicate Survives(g: Glance, imgs: seq<SourceImage>, v: string) {
    v in ByVersion(imgs) && Eligible(g, imgs, ByVersion(imgs)[v])
  }

  ghost predicate InAll(grid: Grid, regions: set<string>, v: string)
    requires regions <= grid.Keys
  {
    forall n :: n in regions ==> v in grid[n]
  }

  /** With all regions required and at least one contributing region, the versions that remain are exactly
      the intersection of the version sets of the contributing regions, whatever the arrival order. The
      documented set, the intersection over every region queried successfully, is the same set exactly
      when no such region came back empty or the contributing regions have no version in common. */
  lemma RequiredRegionsIntersect(g: Glance, imgs: seq<SourceImage>, grid: Grid)
    requires Faithful(imgs, grid) && g.params.requireAllRegions && Contributing(grid) != {}
    ensures forall v :: Survives(g, imgs, v) <==> InAll(grid, Contributing(grid), v)
    ensures (forall v :: Survives(g, imgs, v) <==> InAll(grid, grid.Keys, v)) <==>
              Contributing(grid) == grid.Keys || forall v :: !InAll(grid, Contributing(grid), v)
  {
    var c :| c in Contributing(grid);
    forall v ensures Survives(g, imgs, v) <==> InAll(grid, Contributing(grid), v) {
      KeptExactly(g, imgs, grid, v);
      assert InAll(grid, Contributing(grid), v) ==> v in grid[c];
    }
    if Contributing(grid) != grid.Keys {
      var n :| n in grid && grid[n] == map[];
      forall v ensures !InAll(grid, grid.Keys, v) {
        assert v !in grid[n];
      }
    }
  }

  /** The smallest difference: one region has a version, another was queried successfully and has none. The
      version remains, although it is not in every region queried. */
  lemma EmptyRegionIsIgnored(g: Glance, v: string)
    requires g.params.requireAllRegions
    ensures var imgs, grid := [RegionalImage("a", v, "1")], map["a" := map[v := "1"], "b" := map[]];
            Faithful(imgs, grid) && Survives(g, imgs, v) && !InAll(grid, grid.Keys, v)
  {
    var img, grid := RegionalImage("a", v, "1"), map["a" := map[v := "1"], "b" := map[]];
    forall n, w, id ensures RegionalImage(n, w, id) in [img] <==> n in grid && w in grid[n] && grid[n][w] == id {
      assert RegionalImage(n, w, id).regions[0] == RegionImage(n, id) && img.regions[0] == RegionImage("a", "1");
    }
    KeptExactly(g, [img], grid, v);
    assert Contributing(grid) == {"a"};
    assert v !in grid["b"];
  }

  // ---------------------------------------------------------------- the window

  /** Ties in precedence leave the window no choice: it is empty, or no class of tied versions lies across
      its lower bound and its last rank is the only rank of a class. */
  ghost predicate WindowDecided(g: Glance, lib: Library, grid: Grid) {
    var n := |Kept(g, grid)|;
    Decided(Kept(g, grid), Lo(g, n), Hi(g, n), Newest(lib))
  }

  /** Ranks the window takes. */
  predicate InWindow(g: Glance, rank: nat) {
    g.offset <= rank && (g.keepLatest > 0 ==> rank < g.offset + g.keepLatest)
  }

  /** The versions a window of a ranked list holds: all whose ranks are inside, none whose ranks are outside,
      and exactly those whose first rank is inside when the window is decided. */
  ghost predicate HoldsWindow(g: Glance, lib: Library, all: set<string>, cut: seq<string>) {
    var lo, hi := Lo(g, |all|), Hi(g, |all|);
    && |cut| == hi - lo
    && (forall v :: v in all && lo <= Before(all, v, Newest(lib)) && Through(all, v, Newest(lib)) <= hi ==> v in cut)
    && (forall v :: v in cut ==> v in all && Before(all, v, Newest(lib)) < hi && lo < Through(all, v, Newest(lib)))
    && (Decided(all, lo, hi, Newest(lib)) ==> forall v :: v in cut <==>
          v in all && InWindow(g, Before(all, v, Newest(lib))))
  }

  /** For any number of ties the result holds a window of the kept versions by rank, newest first; all are
      supported and undated but the last, which is deprecated and expires now. */
  lemma WindowByRank(
    g: Glance, lib: Library, imgs: seq<SourceImage>, grid: Grid, now: Time, r: seq<SourceImage>)
    requires Faithful(imgs, grid) && GlanceResult(g, lib, imgs, now, r)
    ensures HoldsWindow(g, lib, Kept(g, grid), Tags(r))
    ensures Ordered(Tags(r), Newest(lib)) && Distinct(Tags(r))
    ensures forall i :: 0 <= i < |r| ==>
              if i == |r| - 1 then r[i].classification == Some(DEPRECATED) && r[i].expirationDate == Some(now)
              else r[i].classification == Some(SUPPORTED) && r[i].expirationDate.None?
  {
    var sorted := Stages(g, lib, imgs, grid, now, r);
    CutStamped(imgs, sorted, Lo(g, |sorted|), Hi(g, |sorted|), now);
    CutByRank(g, lib, Tags(sorted), Kept(g, grid));
  }

  /** No version ranks before an earlier one. */
  ghost predicate NewestToOldest(lib: Library, tags: seq<string>) {
    forall i, j :: 0 <= i < j < |tags| ==> !Outranks(lib, tags[j], tags[i])
  }

  lemma OrderedByRank(lib: Library, tags: seq<string>)
    requires Ordered(tags, Newest(lib))
    ensures NewestToOldest(lib, tags)
  {
    forall i, j | 0 <= i < j < |tags| ensures !Outranks(lib, tags[j], tags[i]) {
      assert Newest(lib)(tags[i], tags[j]);
      NewestFirstExactly(lib, tags[j], tags[i]);
    }
  }

  /** What a cut at the top leaves out comes after it. */
  lemma LeftOut(lib: Library, tags: seq<string>, hi: nat, v: string, i: nat)
    requires NewestToOldest(lib, tags) && hi <= |tags| && v in tags && v !in tags[..hi] && i < hi
    ensures !Outranks(lib, v, tags[i])
  {
    var k :| 0 <= k < |tags| && tags[k] == v;
  }

  lemma AllLeftOut(lib: Library, tags: seq<string>, hi: nat, all: set<string>)
    requires NewestToOldest(lib, tags) && hi <= |tags| && forall v :: v in all ==> v in tags
    ensures forall v, w :: v in all && v !in tags[..hi] && w in tags[..hi] ==> !Outranks(lib, v, w)
  {
    forall v, w | v in all && v !in tags[..hi] && w in tags[..hi] ensures !Outranks(lib, v, w) {
      var i :| 0 <= i < |tags[..hi]| && tags[..hi][i] == w;
      LeftOut(lib, tags, hi, v, i);
    }
  }

  /** The size of the window, its order, and what a window at the top leaves out, by section 11. No version of the
      result ranks before an earlier one; without an offset none that is left out ranks before any that is
      kept. */
  lemma NewestAreKept(g: Glance, lib: Library, imgs: seq<SourceImage>, grid: Grid, now: Time, r: seq<SourceImage>)
    requires Faithful(imgs, grid) && GlanceResult(g, lib, imgs, now, r)
    ensures var rest := if g.offset <= |Kept(g, grid)| then |Kept(g, grid)| - g.offset else 0;
            |r| == if 0 < g.keepLatest < rest then g.keepLatest else rest
    ensures NewestToOldest(lib, Tags(r))
    ensures g.offset == 0 ==>
              forall v, w :: v in Kept(g, grid) && v !in Tags(r) && w in Tags(r) ==> !Outranks(lib, v, w)
  {
    var sorted := Stages(g, lib, imgs, grid, now, r);
    var tags, lo, hi := Tags(sorted), Lo(g, |sorted|), Hi(g, |sorted|);
    CutStamped(imgs, sorted, lo, hi, now);
    OrderedByRank(lib, tags);
    CutRanked(lib, tags, lo, hi);
    if g.offset == 0 {
      assert tags[lo..hi] == tags[..hi];
      AllLeftOut(lib, tags, hi, Kept(g, grid));
    }
  }

  lemma CutRanked(lib: Library, tags: seq<string>, lo: nat, hi: nat)
    requires NewestToOldest(lib, tags) && lo <= hi <= |tags|
    ensures NewestToOldest(lib, tags[lo..hi])
  {
  }

  lemma CutByRank(g: Glance, lib: Library, tags: seq<string>, all: set<string>)
    requires Ranked(tags, all, Newest(lib)) && |tags| == |all|
    ensures var cut := tags[Lo(g, |tags|)..Hi(g, |tags|)];
            HoldsWindow(g, lib, all, cut) && Ordered(cut, Newest(lib)) && Distinct(cut)
  {
    var lo, hi := Lo(g, |tags|), Hi(g, |tags|);
    forall v | v in all
      ensures lo <= Before(all, v, Newest(lib)) && Through(all, v, Newest(lib)) <= hi ==> v in tags[lo..hi]
      ensures v in tags[lo..hi] ==> Before(all, v, Newest(lib)) < hi && lo < Through(all, v, Newest(lib))
      ensures Decided(all, lo, hi, Newest(lib)) ==> (v in tags[lo..hi] <==> InWindow(g, Before(all, v, Newest(lib)))) {
      InCut(g, lib, tags, all, v);
    }
    forall v | v in tags[lo..hi] ensures v in all {
      assert v in tags;
    }
  }

  lemma InSlice<T>(s: seq<T>, lo: nat, hi: nat, i: nat)
    requires Distinct(s) && lo <= hi <= |s| && i < |s|
    ensures s[i] in s[lo..hi] <==> lo <= i < hi
  {
    assert lo <= i < hi ==> s[lo..hi][i - lo] == s[i];
  }

  lemma InCut(g: Glance, lib: Library, tags: seq<string>, all: set<string>, v: string)
    requires Ranked(tags, all, Newest(lib)) && |tags| == |all| && v in all
    ensures var lo, hi := Lo(g, |tags|), Hi(g, |tags|);
            var before, through := Before(all, v, Newest(lib)), Through(all, v, Newest(lib));
            && (lo <= before && through <= hi ==> v in tags[lo..hi])
            && (v in tags[lo..hi] ==> before < hi && lo < through)
            && (Decided(all, lo, hi, Newest(lib)) ==> (v in tags[lo..hi] <==> InWindow(g, before)))
  {
    NewestPreorder(lib);
    var lo, hi := Lo(g, |tags|), Hi(g, |tags|);
    var i := PlaceOf(tags, all, Newest(lib), v);
    InSlice(tags, lo, hi, i);
    assert Decided(all, lo, hi, Newest(lib)) && lo < hi ==> ClassFits(all, v, lo, hi, Newest(lib));
  }

  /** The versions of a cut are not touched by the stamp, and merged entries come without a date. */
  lemma CutStamped(imgs: seq<SourceImage>, sorted: seq<SourceImage>, lo: nat, hi: nat, now: Time)
    requires MergedFrom(imgs, sorted) && lo <= hi <= |sorted|
    ensures var r := Stamped(sorted[lo..hi], now);
            && Tags(r) == Tags(sorted)[lo..hi]
            && forall i :: 0 <= i < |r| ==>
                 if i == |r| - 1 then r[i].classification == Some(DEPRECATED) && r[i].expirationDate == Some(now)
                 else r[i].classification == Some(SUPPORTED) && r[i].expirationDate.None?
  {
    var r := Stamped(sorted[lo..hi], now);
    forall i | 0 <= i < |r| ensures r[i].version == sorted[lo + i].version && sorted[lo + i].expirationDate.None? {
    }
  }

  // ---------------------------------------------------------------- arrival order

  lemma SameRegions(grid: Grid, a: seq<SourceImage>, b: seq<SourceImage>, v: string)
    requires Faithful(a, grid) && Faithful(b, grid)
    ensures forall n :: LastId(RegionsFor(a, v), n) == LastId(RegionsFor(b, v), n)
  {
    forall n ensures LastId(RegionsFor(a, v), n) == LastId(RegionsFor(b, v), n) {
      MergedRegions(a, grid, v, n);
      MergedRegions(b, grid, v, n);
    }
  }

  /** When the window is decided, whatever the arrival order, the sort and the clock, two results hold the
      same versions and differ at most in their order, in the order of the regions of a version and in the
      date of the deprecated one. */
  lemma IndependentOfArrival(
    g: Glance, lib: Library, grid: Grid,
    a: seq<SourceImage>, now: Time, r: seq<SourceImage>, b: seq<SourceImage>, later: Time, s: seq<SourceImage>)
    requires Faithful(a, grid) && Faithful(b, grid) && WindowDecided(g, lib, grid)
    requires GlanceResult(g, lib, a, now, r) && GlanceResult(g, lib, b, later, s)
    ensures Match(r, s)
    ensures now == later ==> MatchDates(r, s)
  {
    var x := Stages(g, lib, a, grid, now, r);
    var y := Stages(g, lib, b, grid, later, s);
    StagesMatch(g, lib, grid, a, x, now, b, y, later);
  }

  lemma StagesMatch(g: Glance, lib: Library, grid: Grid,
                    a: seq<SourceImage>, x: seq<SourceImage>, now: Time, b: seq<SourceImage>, y: seq<SourceImage>,
                    later: Time)
    requires Faithful(a, grid) && Faithful(b, grid) && MergedFrom(a, x) && MergedFrom(b, y)
    requires WindowDecided(g, lib, grid) && |x| == |y| == |Kept(g, grid)|
    requires Ranked(Tags(x), Kept(g, grid), Newest(lib)) && Ranked(Tags(y), Kept(g, grid), Newest(lib))
    ensures var lo, hi := Lo(g, |x|), Hi(g, |x|);
            && Match(Stamped(x[lo..hi], now), Stamped(y[lo..hi], later))
            && (now == later ==> MatchDates(Stamped(x[lo..hi], now), Stamped(y[lo..hi], later)))
  {
    RankingsAgree(g, lib, grid, x, y);
    var lo, hi := Lo(g, |x|), Hi(g, |x|);
    CutMerged(a, x, lo, hi);
    CutMerged(b, y, lo, hi);
    CutMatch(grid, a, b, x[lo..hi], y[lo..hi], now, later);
  }

  lemma CutMerged(imgs: seq<SourceImage>, x: seq<SourceImage>, lo: nat, hi: nat)
    requires MergedFrom(imgs, x) && lo <= hi <= |x|
    ensures MergedFrom(imgs, x[lo..hi])
  {
  }

  lemma RankingsAgree(g: Glance, lib: Library, grid: Grid, x: seq<SourceImage>, y: seq<SourceImage>)
    requires WindowDecided(g, lib, grid) && |x| == |y| == |Kept(g, grid)|
    requires Ranked(Tags(x), Kept(g, grid), Newest(lib)) && Ranked(Tags(y), Kept(g, grid), Newest(lib))
    ensures Agree(x[Lo(g, |x|)..Hi(g, |x|)], y[Lo(g, |x|)..Hi(g, |x|)])
  {
    var lo, hi := Lo(g, |x|), Hi(g, |x|);
    NewestPreorder(lib);
    DecidedWindow(Tags(x), Tags(y), Kept(g, grid), lo, hi, Newest(lib));
    CutsAgree(x, y, lo, hi);
  }

  /** The same versions, and the same one last. */
  ghost predicate Agree(p: seq<SourceImage>, q: seq<SourceImage>) {
    && |p| == |q| && Distinct(Tags(p)) && Distinct(Tags(q))
    && (forall v :: v in Tags(p) <==> v in Tags(q))
    && (p != [] ==> p[|p| - 1].version == q[|q| - 1].version)
  }

  lemma CutsAgree(x: seq<SourceImage>, y: seq<SourceImage>, lo: nat, hi: nat)
    requires Distinct(Tags(x)) && Distinct(Tags(y)) && |x| == |y| && lo <= hi <= |x|
    requires forall v :: v in Tags(x)[lo..hi] <==> v in Tags(y)[lo..hi]
    requires lo < hi ==> Tags(x)[hi - 1] == Tags(y)[hi - 1]
    ensures Agree(x[lo..hi], y[lo..hi])
  {
    assert Tags(x[lo..hi]) == Tags(x)[lo..hi] && Tags(y[lo..hi]) == Tags(y)[lo..hi];
  }

  lemma CutMatch(grid: Grid, a: seq<SourceImage>, b: seq<SourceImage>,
                 p: seq<SourceImage>, q: seq<SourceImage>, now: Time, later: Time)
    requires Faithful(a, grid) && Faithful(b, grid) && MergedFrom(a, p) && MergedFrom(b, q) && Agree(p, q)
    ensures Match(Stamped(p, now), Stamped(q, later))
    ensures now == later ==> MatchDates(Stamped(p, now), Stamped(q, later))
  {
    var r, s := Stamped(p, now), Stamped(q, later);
    assert Tags(r) == Tags(p) && Tags(s) == Tags(q);
    forall i, j | 0 <= i < |r| && 0 <= j < |s| && r[i].version == s[j].version
      ensures Alike(r[i], s[j]) && (now == later ==> r[i].expirationDate == s[j].expirationDate) {
      assert Tags(p)[i] == Tags(q)[j];
      LastTogether(p, q, i, j);
      SameRegions(grid, a, b, p[i].version);
    }
  }

  lemma LastTogether(p: seq<SourceImage>, q: seq<SourceImage>, i: nat, j: nat)
    requires Agree(p, q) && i < |p| && j < |q| && p[i].version == q[j].version
    ensures i == |p| - 1 <==> j == |q| - 1
  {
    assert Tags(p)[i] == Tags(q)[j] && Tags(p)[|p| - 1] == Tags(q)[|q| - 1];
  }
}
