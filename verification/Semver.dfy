/** Versions ordered by the precedence rules of Semantic Versioning 2.0.0, section 11, and the
    library that parses and prints them as a value with laws. */
module Semver {
  import opened Prelude
  import opened Sorting

  datatype Identifier = Numeric(n: nat) | Alphanumeric(s: string)

  /** `build` takes no part in precedence (section 10). */
  datatype Version = Version(major: nat, minor: nat, patch: nat, pre: seq<Identifier>, build: seq<string>)

  /** Section 11.4.1 to 11.4.3: numeric identifiers compare as numbers and come before others. */
  predicate IdAtMost(a: Identifier, b: Identifier) {
    match (a, b)
    case (Numeric(m), Numeric(n)) => m <= n
    case (Numeric(_), Alphanumeric(_)) => true
    case (Alphanumeric(_), Numeric(_)) => false
    case (Alphanumeric(s), Alphanumeric(t)) => AtMost(s, t)
  }

  /** Section 11.4.4: field by field, and a proper prefix comes first. */
  predicate PreAtMost(a: seq<Identifier>, b: seq<Identifier>) {
    if a == [] then true
    else if b == [] then false
    else if a[0] != b[0] then IdAtMost(a[0], b[0])
    else PreAtMost(a[1..], b[1..])
  }

  /** `a.Compare(b) <= 0`. Section 11.3: a version with a pre-release comes before the one without. */
  predicate NotNewer(a: Version, b: Version) {
    if a.major != b.major then a.major < b.major
    else if a.minor != b.minor then a.minor < b.minor
    else if a.patch != b.patch then a.patch < b.patch
    else if a.pre == [] || b.pre == [] then b.pre == []
    else PreAtMost(a.pre, b.pre)
  }

  lemma IdOrder(a: Identifier, b: Identifier, c: Identifier)
    ensures IdAtMost(a, b) || IdAtMost(b, a)
    ensures IdAtMost(a, b) && IdAtMost(b, a) ==> a == b
    ensures IdAtMost(a, b) && IdAtMost(b, c) ==> IdAtMost(a, c)
  {
    if a.Alphanumeric? && b.Alphanumeric? {
      AtMostTotal(a.s, b.s);
      if c.Alphanumeric? && AtMost(a.s, b.s) && AtMost(b.s, c.s) {
        AtMostTransitive(a.s, b.s, c.s);
      }
    }
  }

  lemma {:induction false} PreOrder(a: seq<Identifier>, b: seq<Identifier>, c: seq<Identifier>)
    ensures PreAtMost(a, b) || PreAtMost(b, a)
    ensures PreAtMost(a, b) && PreAtMost(b, a) ==> a == b
    ensures PreAtMost(a, b) && PreAtMost(b, c) ==> PreAtMost(a, c)
  {
    if a != [] && b != [] {
      IdOrder(a[0], b[0], if c != [] then c[0] else a[0]);
      IdOrder(b[0], a[0], b[0]);
      assert a == [a[0]] + a[1..] && b == [b[0]] + b[1..];
      PreOrder(a[1..], b[1..], if c != [] then c[1..] else []);
    }
  }

  /** Precedence is a total preorder that ties exactly the versions differing in build metadata
      alone. */
  lemma Precedence(a: Version, b: Version, c: Version)
    ensures NotNewer(a, b) || NotNewer(b, a)
    ensures NotNewer(a, b) && NotNewer(b, a) <==> a.(build := []) == b.(build := [])
    ensures NotNewer(a, b) && NotNewer(b, c) ==> NotNewer(a, c)
  {
    PreOrder(a.pre, b.pre, c.pre);
    PreOrder(b.pre, a.pre, b.pre);
  }

  // ---------------------------------------------------------------- section 11, rule by rule

  /** Section 11.2: major, minor and patch, in this order and as numbers. */
  predicate LowerTriple(a: Version, b: Version) {
    || a.major < b.major
    || (a.major == b.major && a.minor < b.minor)
    || (a.major == b.major && a.minor == b.minor && a.patch < b.patch)
  }

  /** Section 11.4.1 to 11.4.3. */
  ghost predicate IdBefore(a: Identifier, b: Identifier) {
    || (a.Numeric? && b.Numeric? && a.n < b.n)
    || (a.Numeric? && b.Alphanumeric?)
    || (a.Alphanumeric? && b.Alphanumeric? && ComesBefore(a.s, b.s))
  }

  /** Section 11.4: a proper prefix comes first, otherwise the first identifiers that differ decide. */
  ghost predicate PreBefore(a: seq<Identifier>, b: seq<Identifier>) {
    (a <= b && a != b) || exists i: nat :: DiffersAt(a, b, i) && IdBefore(a[i], b[i])
  }

  /** `a` has the lower precedence. Section 11.3: with the same numbers a pre-release comes before the
      release. */
  ghost predicate OlderThan(a: Version, b: Version) {
    || LowerTriple(a, b)
    || (a.major == b.major && a.minor == b.minor && a.patch == b.patch && a.pre != [] &&
        (b.pre == [] || PreBefore(a.pre, b.pre)))
  }

  lemma IdExactly(a: Identifier, b: Identifier)
    ensures !IdAtMost(b, a) <==> IdBefore(a, b)
  {
    if a.Alphanumeric? && b.Alphanumeric? {
      AtMostExactly(a.s, b.s);
    }
  }

  lemma {:induction false} PreExactly(a: seq<Identifier>, b: seq<Identifier>)
    ensures !PreAtMost(b, a) <==> PreBefore(a, b)
    decreases |a|
  {
    if a != [] && b != [] {
      PreExactly(a[1..], b[1..]);
      ShiftPre(a, b);
      IdExactly(a[0], b[0]);
    }
  }

  lemma ShiftPre(a: seq<Identifier>, b: seq<Identifier>)
    requires a != [] && b != []
    ensures a[0] == b[0] ==> (PreBefore(a, b) <==> PreBefore(a[1..], b[1..]))
    ensures a[0] != b[0] ==> (PreBefore(a, b) <==> IdBefore(a[0], b[0]))
  {
    DiffersLater(a, b, 0);
    assert a == [a[0]] + a[1..] && b == [b[0]] + b[1..];
    if i: nat :| DiffersAt(a, b, i) && IdBefore(a[i], b[i]) {
      if i > 0 {
        DiffersLater(a, b, i - 1);
        assert a[0] == b[0] ==> DiffersAt(a[1..], b[1..], i - 1) && IdBefore(a[1..][i - 1], b[1..][i - 1]);
      }
    }
    if i: nat :| DiffersAt(a[1..], b[1..], i) && IdBefore(a[1..][i], b[1..][i]) {
      DiffersLater(a, b, i);
      assert a[0] == b[0] ==> DiffersAt(a, b, i + 1) && IdBefore(a[i + 1], b[i + 1]);
    }
  }

  /** The comparison is precedence as section 11 has it, rule by rule. */
  lemma PrecedenceExactly(a: Version, b: Version)
    ensures !NotNewer(b, a) <==> OlderThan(a, b)
  {
    PreExactly(a.pre, b.pre);
  }

  /** The parsing library: strict and tolerant parsing, and canonical printing. */
  datatype Library = Library(
    parse: string -> Option<Version>,
    parseTolerant: string -> Option<Version>,
    show: Version -> string)
  {
    predicate Valid(s: string) {
      parse(s).Some?
    }

    /** What a tolerant parse accepts, in canonical form. */
    function Canonical(s: string): Option<string> {
      match parseTolerant(s) case Some(v) => Some(show(v)) case None => None
    }

    /** Printing a parsed version gives a strictly valid string that reads back as itself, and no
        valid string is empty or holds a slash. */
    ghost predicate Lawful() {
      && (forall s :: Canonical(s).Some? ==> Valid(Canonical(s).value) && Canonical(Canonical(s).value) == Canonical(s))
      && (forall s :: Valid(s) ==> s != "" && '/' !in s)
    }

    /** `compareSemverDesc(a, b) <= 0`: newest first, unparsable strings last. */
    predicate NewestFirst(a: string, b: string) {
      match (parseTolerant(a), parseTolerant(b))
      case (None, None) => AtMost(a, b)
      case (None, Some(_)) => false
      case (Some(_), None) => true
      case (Some(v), Some(w)) => NotNewer(w, v)
    }
  }

  /** The laws hold together of a library that reads and repairs versions. */
  lemma LawsAreConsistent() returns (lib: Library)
    ensures lib.Lawful() && lib.Valid("1.0.0") && !lib.Valid("1.0") && lib.Canonical("1.0") == Some("1.0.0")
  {
    var one := Version(1, 0, 0, [], []);
    lib := Library(
      s => if s == "1.0.0" then Some(one) else None,
      s => if s == "1.0.0" || s == "1.0" then Some(one) else None,
      _ => "1.0.0");
  }

  lemma NewestFirstOrder(lib: Library, a: string, b: string, c: string)
    ensures lib.NewestFirst(a, b) || lib.NewestFirst(b, a)
    ensures lib.NewestFirst(a, b) && lib.NewestFirst(b, c) ==> lib.NewestFirst(a, c)
  {
    AtMostTotal(a, b);
    if AtMost(a, b) && AtMost(b, c) {
      AtMostTransitive(a, b, c);
    }
    match (lib.parseTolerant(a), lib.parseTolerant(b), lib.parseTolerant(c)) {
      case (Some(u), Some(v), Some(w)) =>
        Precedence(v, u, u);
        Precedence(w, v, u);
      case (Some(u), Some(v), None) =>
        Precedence(v, u, u);
      case _ =>
    }
  }

  /** `a` ranks strictly before `b`: only `a` can be read, or `b` is older, or neither can be read and `a` is the
      smaller string. */
  ghost predicate Outranks(lib: Library, a: string, b: string) {
    match (lib.parseTolerant(a), lib.parseTolerant(b))
    case (Some(v), Some(w)) => OlderThan(w, v)
    case (Some(_), None) => true
    case (None, Some(_)) => false
    case (None, None) => ComesBefore(a, b)
  }

  /** Exactly when `compareSemverDesc` puts `a` strictly first. */
  lemma NewestFirstExactly(lib: Library, a: string, b: string)
    ensures !lib.NewestFirst(b, a) <==> Outranks(lib, a, b)
  {
    match (lib.parseTolerant(a), lib.parseTolerant(b)) {
      case (Some(v), Some(w)) => PrecedenceExactly(w, v);
      case (None, None) => AtMostExactly(a, b);
      case _ =>
    }
  }

  /** `compareSemverDesc` is a total preorder, so a sort by it is well defined up to ties. */
  lemma NewestFirstPreorder(lib: Library)
    ensures TotalPreorder((a: string, b: string) => lib.NewestFirst(a, b))
  {
    var le := (a: string, b: string) => lib.NewestFirst(a, b);
    forall a, b ensures le(a, b) || le(b, a) {
      NewestFirstOrder(lib, a, b, a);
    }
    forall a, b, c | le(a, b) && le(b, c) ensures le(a, c) {
      NewestFirstOrder(lib, a, b, c);
    }
  }
}
