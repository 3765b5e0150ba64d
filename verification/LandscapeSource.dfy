/** The choice of the Kubernetes version source's tag: the oldest Gardener version of all shoots, and the
    newest tag whose component descriptor is for the same major.minor. */
module LandscapeSource {
  import opened Prelude
  import opened Sorting
  import opened Semver
  import opened GarbageCollection

  // ---------------------------------------------------------------- major.minor

  /** `strings.SplitN(s, sep, n)` for n >= 1. */
  function SplitN(s: string, sep: char, n: nat): (parts: seq<string>)
    requires n >= 1
    ensures 1 <= |parts| <= n
    decreases n
  {
    var i := IndexOf(s, sep);
    if n == 1 || i == -1 then [s] else [s[..i]] + SplitN(s[i + 1..], sep, n - 1)
  }

  function IndexOf(s: string, c: char): (i: int)
    ensures -1 <= i < |s|
    ensures i == -1 ==> forall k :: 0 <= k < |s| ==> s[k] != c
    ensures i >= 0 ==> s[i] == c && forall k :: 0 <= k < i ==> s[k] != c
  {
    if s == "" then -1
    else if s[0] == c then 0
    else
      var i := IndexOf(s[1..], c);
      if i == -1 then -1 else i + 1
  }

  function MinorVersion(v: string): string {
    var parts := SplitN(v, '.', 3);
    if |parts| < 2 then v else parts[0] + "." + parts[1]
  }

  /** Everything from the second dot on is dropped, and nothing else. */
  lemma MinorVersionDropsPatch(major: string, minor: string, patch: string)
    requires '.' !in major && '.' !in minor
    ensures MinorVersion(major + "." + minor + "." + patch) == major + "." + minor
    ensures MinorVersion(major + "." + minor) == major + "." + minor
    ensures MinorVersion(major) == major
  {
    var long, short := major + "." + minor + "." + patch, major + "." + minor;
    FirstDot(major, minor + "." + patch);
    assert long == major + "." + (minor + "." + patch);
    FirstDot(minor, patch);
    assert SplitN(patch, '.', 1) == [patch];
    assert SplitN(minor + "." + patch, '.', 2) == [minor, patch];
    assert SplitN(long, '.', 3) == [major, minor, patch];
    FirstDot(major, minor);
    assert SplitN(minor, '.', 2) == [minor];
    assert SplitN(short, '.', 3) == [major, minor];
  }

  lemma FirstDot(a: string, b: string)
    requires '.' !in a
    ensures IndexOf(a + "." + b, '.') == |a| && (a + "." + b)[..|a|] == a && (a + "." + b)[|a| + 1..] == b
  {
    var s := a + "." + b;
    assert s[..|a|] == a && s[|a|] == '.' && s[|a| + 1..] == b;
    assert forall k :: 0 <= k < |a| ==> s[k] == a[k];
  }

  /** `p` is a version without a dot, or its major and minor part. */
  ghost predicate IsMinorOf(p: string, v: string) {
    (p == v && '.' !in p) || exists major, minor :: MinorParts(p, v, major, minor)
  }

  ghost predicate MinorParts(p: string, v: string, major: string, minor: string) {
    p == major + "." + minor && '.' !in major && '.' !in minor && (v == p || p + "." <= v)
  }

  /** Every string has exactly one such part, and it is the one computed. */
  lemma MinorVersionExactly(v: string, p: string)
    ensures p == MinorVersion(v) <==> IsMinorOf(p, v)
  {
    HasMinor(v);
    if IsMinorOf(p, v) {
      if p == v && '.' !in p {
        MinorVersionDropsPatch(p, "", "");
      } else {
        var major, minor :| MinorParts(p, v, major, minor);
        OnlyMinor(v, p, major, minor);
      }
    }
  }

  lemma OnlyMinor(v: string, p: string, major: string, minor: string)
    requires MinorParts(p, v, major, minor)
    ensures p == MinorVersion(v)
  {
    if v == p {
      MinorVersionDropsPatch(major, minor, "");
    } else {
      var patch := v[|p| + 1..];
      assert v == major + "." + minor + "." + patch;
      MinorVersionDropsPatch(major, minor, patch);
    }
  }

  lemma HasMinor(v: string)
    ensures IsMinorOf(MinorVersion(v), v)
  {
    var i := IndexOf(v, '.');
    if i == -1 {
      MinorVersionDropsPatch(v, "", "");
    } else {
      assert v == v[..i] + "." + v[i + 1..];
      HasDot(v, v[..i], v[i + 1..]);
    }
  }

  lemma HasDot(v: string, major: string, rest: string)
    requires v == major + "." + rest && '.' !in major
    ensures IsMinorOf(MinorVersion(v), v)
  {
    var j := IndexOf(rest, '.');
    if j == -1 {
      MinorVersionDropsPatch(major, rest, "");
      assert MinorParts(v, v, major, rest);
    } else {
      var minor, patch := rest[..j], rest[j + 1..];
      assert rest == minor + "." + patch;
      assert v == major + "." + minor + "." + patch;
      MinorVersionDropsPatch(major, minor, patch);
      assert MinorParts(major + "." + minor, v, major, minor);
    }
  }

  /** Two versions match exactly when they share that part: patches are ignored, and a leading "v" on one
      side only is a mismatch. */
  lemma MinorVersionsMatchExactly(v: string, w: string)
    ensures MinorVersion(v) == MinorVersion(w) <==> exists p :: IsMinorOf(p, v) && IsMinorOf(p, w)
  {
    MinorVersionExactly(v, MinorVersion(v));
    MinorVersionExactly(w, MinorVersion(w));
    forall p | IsMinorOf(p, v) && IsMinorOf(p, w) ensures MinorVersion(v) == MinorVersion(w) {
      MinorVersionExactly(v, p);
      MinorVersionExactly(w, p);
    }
  }

  // ---------------------------------------------------------------- the oldest Gardener version

  datatype Parsed = Parsed(raw: string, ver: Version)

  predicate Older(a: Parsed, b: Parsed) {
    NotNewer(a.ver, b.ver)
  }

  lemma OlderPreorder()
    ensures TotalPreorder(Older)
  {
    forall a, b ensures Older(a, b) || Older(b, a) {
      Precedence(a.ver, b.ver, a.ver);
    }
    forall a, b, c | Older(a, b) && Older(b, c) ensures Older(a, c) {
      Precedence(a.ver, b.ver, c.ver);
    }
  }

  /** The lowest version any shoot reports; an error exactly when no shoot reports a readable one. */
  method GardenerVersionFromShoots(lib: Library, shoots: seq<Shoot>) returns (r: Result<string, string>)
    ensures r.Err? <==> forall s :: s in shoots ==>
                          s.gardenerVersion == "" || lib.parseTolerant(s.gardenerVersion).None?
    ensures r.Ok? ==>
              && r.value != "" && lib.parseTolerant(r.value).Some?
              && (exists s :: s in shoots && s.gardenerVersion == r.value)
              && forall s :: s in shoots && s.gardenerVersion != "" && lib.parseTolerant(s.gardenerVersion).Some? ==>
                   !OlderThan(lib.parseTolerant(s.gardenerVersion).value, lib.parseTolerant(r.value).value)
  {
    var versionSet: set<string> := {};
    for i := 0 to |shoots|
      invariant forall raw :: raw in versionSet <==>
                  raw != "" && exists j :: 0 <= j < i && shoots[j].gardenerVersion == raw
    {
      if shoots[i].gardenerVersion == "" {
        continue;
      }
      versionSet := versionSet + {shoots[i].gardenerVersion};
    }
    var entries: seq<Parsed> := [];
    var rest := versionSet;
    while rest != {}
      invariant rest <= versionSet
      invariant forall e :: e in entries <==>
                  e.raw in versionSet && e.raw !in rest && lib.parseTolerant(e.raw) == Some(e.ver)
      decreases rest
    {
      var raw :| raw in rest;
      var parsed := lib.parseTolerant(raw);
      rest := rest - {raw};
      if parsed.None? {
        continue;
      }
      entries := entries + [Parsed(raw, parsed.value)];
    }
    assert forall s :: s in shoots && s.gardenerVersion != "" ==> s.gardenerVersion in versionSet;
    assert forall raw :: raw in versionSet && lib.parseTolerant(raw).Some? ==>
                           Parsed(raw, lib.parseTolerant(raw).value) in entries;
    if |entries| == 0 {
      return Err("no Gardener version found in any shoot");
    }
    OlderPreorder();
    var sorted := SortFunc(entries, Older);
    SameMembers(sorted, entries);
    assert sorted[0] in entries;
    forall raw | raw in versionSet && lib.parseTolerant(raw).Some?
      ensures !OlderThan(lib.parseTolerant(raw).value, sorted[0].ver) {
      var e := Parsed(raw, lib.parseTolerant(raw).value);
      PrecedenceExactly(e.ver, sorted[0].ver);
      assert e in sorted;
      var k :| 0 <= k < |sorted| && sorted[k] == e;
      Precedence(e.ver, e.ver, e.ver);
      assert k > 0 ==> Older(sorted[0], sorted[k]);
    }
    return Ok(sorted[0].raw);
  }

  // ---------------------------------------------------------------- the newest matching tag

  predicate Newer(a: Parsed, b: Parsed) {
    NotNewer(b.ver, a.ver)
  }

  lemma NewerPreorder()
    ensures TotalPreorder(Newer)
  {
    forall a, b ensures Newer(a, b) || Newer(b, a) {
      Precedence(a.ver, b.ver, a.ver);
    }
    forall a, b, c | Newer(a, b) && Newer(b, c) ensures Newer(a, c) {
      Precedence(c.ver, b.ver, a.ver);
    }
  }

  /** The readable tags, newest first. */
  ghost predicate NewestFirstTags(lib: Library, tags: seq<string>, r: seq<string>) {
    && (forall t :: t in r <==> t in tags && lib.parseTolerant(t).Some?)
    && forall i, j :: 0 <= i < j < |r| ==> !OlderThan(lib.parseTolerant(r[i]).value, lib.parseTolerant(r[j]).value)
  }

  method ListSemverTags(lib: Library, tags: seq<string>) returns (r: Result<seq<string>, string>)
    ensures r.Err? <==> forall t :: t in tags ==> lib.parseTolerant(t).None?
    ensures r.Ok? ==> r.value != [] && NewestFirstTags(lib, tags, r.value)
  {
    if |tags| == 0 {
      return Err("no tags found");
    }
    var parseable: seq<Parsed> := [];
    for i := 0 to |tags|
      invariant forall p :: p in parseable <==> p.raw in tags[..i] && lib.parseTolerant(p.raw) == Some(p.ver)
    {
      assert tags[..i + 1] == tags[..i] + [tags[i]];
      var v := lib.parseTolerant(tags[i]);
      if v.Some? {
        parseable := parseable + [Parsed(tags[i], v.value)];
      }
    }
    assert tags[..|tags|] == tags;
    assert forall t :: t in tags && lib.parseTolerant(t).Some? ==> Parsed(t, lib.parseTolerant(t).value) in parseable;
    if |parseable| == 0 {
      return Err("no semver tags found");
    }
    assert parseable[0] in parseable;
    NewerPreorder();
    var sorted := SortFunc(parseable, Newer);
    RawTags(lib, tags, parseable, sorted);
    return Ok(Raws(sorted));
  }

  function Raws(s: seq<Parsed>): (r: seq<string>)
    ensures |r| == |s| && forall i :: 0 <= i < |s| ==> r[i] == s[i].raw
  {
    seq(|s|, i requires 0 <= i < |s| => s[i].raw)
  }

  lemma RawTags(lib: Library, tags: seq<string>, parseable: seq<Parsed>, sorted: seq<Parsed>)
    requires forall p :: p in parseable <==> p.raw in tags && lib.parseTolerant(p.raw) == Some(p.ver)
    requires IsSortOf(sorted, parseable, Newer)
    ensures NewestFirstTags(lib, tags, Raws(sorted)) && |sorted| == |parseable|
  {
    SameMembers(sorted, parseable);
    var r := Raws(sorted);
    forall i | 0 <= i < |r| ensures lib.parseTolerant(r[i]) == Some(sorted[i].ver) && r[i] in tags {
      assert sorted[i] in parseable;
    }
    forall t | t in tags && lib.parseTolerant(t).Some? ensures t in r {
      var p := Parsed(t, lib.parseTolerant(t).value);
      assert p in sorted;
      var k :| 0 <= k < |sorted| && sorted[k] == p;
      assert r[k] == t;
    }
    forall i, j | 0 <= i < j < |r| ensures !OlderThan(lib.parseTolerant(r[i]).value, lib.parseTolerant(r[j]).value) {
      assert Newer(sorted[i], sorted[j]);
      PrecedenceExactly(sorted[i].ver, sorted[j].ver);
    }
  }

  /** The tag is readable, its component descriptor can be fetched, and the Gardener version in it has
      the wanted major.minor. `descriptors` gives the Gardener version of a tag's descriptor. */
  predicate Matches(lib: Library, descriptors: string -> Option<string>, wanted: string, tag: string) {
    && lib.parseTolerant(tag).Some? && descriptors(tag).Some?
    && MinorVersion(descriptors(tag).value) == MinorVersion(wanted)
  }

  /** A readable tag is listed somewhere, and is not newer than any tag listed up to there. */
  lemma NotBefore(lib: Library, tags: seq<string>, sorted: seq<string>, i: nat, t: string) returns (k: nat)
    requires NewestFirstTags(lib, tags, sorted) && i < |sorted| && t in tags && lib.parseTolerant(t).Some?
    ensures sorted[i] in tags && lib.parseTolerant(sorted[i]).Some?
    ensures k < |sorted| && sorted[k] == t
    ensures i <= k ==> !OlderThan(lib.parseTolerant(sorted[i]).value, lib.parseTolerant(t).value)
  {
    assert sorted[i] in sorted && t in sorted;
    k :| 0 <= k < |sorted| && sorted[k] == t;
    var v := lib.parseTolerant(t).value;
    Precedence(v, v, v);
    PrecedenceExactly(v, v);
  }

  ghost predicate NoneMatches(
      lib: Library, descriptors: string -> Option<string>, wanted: string, tags: seq<string>) {
    forall t :: t in tags ==> !Matches(lib, descriptors, wanted, t)
  }

  /** The first match of the listing is the newest of all. */
  lemma FirstMatch(
      lib: Library, tags: seq<string>, sorted: seq<string>, descriptors: string -> Option<string>, wanted: string,
      i: nat)
    requires NewestFirstTags(lib, tags, sorted) && i < |sorted| && NoneMatches(lib, descriptors, wanted, sorted[..i])
    ensures sorted[i] in tags && lib.parseTolerant(sorted[i]).Some?
    ensures forall t :: t in tags && Matches(lib, descriptors, wanted, t) ==>
              !OlderThan(lib.parseTolerant(sorted[i]).value, lib.parseTolerant(t).value)
  {
    assert sorted[i] in sorted;
    forall t | t in tags && Matches(lib, descriptors, wanted, t)
      ensures !OlderThan(lib.parseTolerant(sorted[i]).value, lib.parseTolerant(t).value) {
      var k := NotBefore(lib, tags, sorted, i, t);
    }
  }

  lemma NoMatch(
      lib: Library, tags: seq<string>, sorted: seq<string>, descriptors: string -> Option<string>, wanted: string)
    requires NewestFirstTags(lib, tags, sorted) && NoneMatches(lib, descriptors, wanted, sorted)
    ensures forall t :: t in tags ==> !Matches(lib, descriptors, wanted, t)
  {
  }

  /** The newest tag whose descriptor is for the wanted major.minor; an error exactly when there is none. No other
      such tag is newer by section 11, and in particular none has larger numbers. */
  method TagForGardenerVersion(
      lib: Library, tags: seq<string>, descriptors: string -> Option<string>, gardenerVersion: string)
    returns (r: Result<string, string>)
    ensures r.Err? <==> forall t :: t in tags && lib.parseTolerant(t).Some? && descriptors(t).Some? ==>
                          MinorVersion(descriptors(t).value) != MinorVersion(gardenerVersion)
    ensures r.Ok? ==>
              && r.value in tags && lib.parseTolerant(r.value).Some? && descriptors(r.value).Some?
              && MinorVersion(descriptors(r.value).value) == MinorVersion(gardenerVersion)
              && forall t :: t in tags && lib.parseTolerant(t).Some? && descriptors(t).Some? &&
                             MinorVersion(descriptors(t).value) == MinorVersion(gardenerVersion) ==>
                   && !OlderThan(lib.parseTolerant(r.value).value, lib.parseTolerant(t).value)
                   && !LowerTriple(lib.parseTolerant(r.value).value, lib.parseTolerant(t).value)
  {
    var wantMinor := MinorVersion(gardenerVersion);
    var listed := ListSemverTags(lib, tags);
    if listed.Err? {
      return Err(listed.error);
    }
    var sorted := listed.value;
    for i := 0 to |sorted|
      invariant NoneMatches(lib, descriptors, gardenerVersion, sorted[..i])
    {
      assert sorted[..i + 1] == sorted[..i] + [sorted[i]];
      var cdVersion := descriptors(sorted[i]);
      if cdVersion.None? {
        continue;
      }
      if MinorVersion(cdVersion.value) == wantMinor {
        FirstMatch(lib, tags, sorted, descriptors, gardenerVersion, i);
        return Ok(sorted[i]);
      }
    }
    assert sorted[..|sorted|] == sorted;
    NoMatch(lib, tags, sorted, descriptors, gardenerVersion);
    return Err("no tag found matching the Gardener version");
  }

  /** `FetchVersions` up to the choice of its tag: without a Gardener version the newest tag of all. */
  method ResolveTag(
      lib: Library, tags: seq<string>, descriptors: string -> Option<string>, gardenerVersion: Option<string>)
    returns (r: Result<string, string>)
    ensures gardenerVersion.None? ==> (r.Err? <==> forall t :: t in tags ==> lib.parseTolerant(t).None?)
    ensures gardenerVersion.None? && r.Ok? ==>
              && r.value in tags && lib.parseTolerant(r.value).Some?
              && forall t :: t in tags && lib.parseTolerant(t).Some? ==>
                   && !OlderThan(lib.parseTolerant(r.value).value, lib.parseTolerant(t).value)
                   && !LowerTriple(lib.parseTolerant(r.value).value, lib.parseTolerant(t).value)
    ensures gardenerVersion.Some? ==>
              (r.Err? <==> forall t :: t in tags && lib.parseTolerant(t).Some? && descriptors(t).Some? ==>
                             MinorVersion(descriptors(t).value) != MinorVersion(gardenerVersion.value))
    ensures gardenerVersion.Some? && r.Ok? ==>
              && r.value in tags && lib.parseTolerant(r.value).Some? && descriptors(r.value).Some?
              && MinorVersion(descriptors(r.value).value) == MinorVersion(gardenerVersion.value)
              && forall t :: t in tags && lib.parseTolerant(t).Some? && descriptors(t).Some? &&
                             MinorVersion(descriptors(t).value) == MinorVersion(gardenerVersion.value) ==>
                   && !OlderThan(lib.parseTolerant(r.value).value, lib.parseTolerant(t).value)
                   && !LowerTriple(lib.parseTolerant(r.value).value, lib.parseTolerant(t).value)
  {
    if gardenerVersion.None? {
      var listed := ListSemverTags(lib, tags);
      if listed.Err? {
        return Err(listed.error);
      }
      var sorted := listed.value;
      assert sorted[0] in sorted;
      forall t | t in tags && lib.parseTolerant(t).Some?
        ensures !OlderThan(lib.parseTolerant(sorted[0]).value, lib.parseTolerant(t).value) {
        var k := NotBefore(lib, tags, sorted, 0, t);
      }
      return Ok(sorted[0]);
    } else {
      r := TagForGardenerVersion(lib, tags, descriptors, gardenerVersion.value);
    }
  }
}
