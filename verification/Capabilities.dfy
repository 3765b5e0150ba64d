/** Comparing, merging and filtering capability maps. */
module CapabilitySets {
  import opened Prelude
  import opened Images

  /** Two maps of the same size agree when one side's pairs are all in the other. */
  lemma OneSidedScanDecides(a: Capabilities, b: Capabilities)
    requires |a| == |b|
    requires forall k :: k in a ==> k in b && a[k] == b[k]
    ensures a == b
  {
    SubsetOfSameSize(a.Keys, b.Keys);
  }

  lemma {:induction false} SubsetOfSameSize<T>(a: set<T>, b: set<T>)
    requires a <= b && |a| == |b|
    ensures a == b
    decreases a
  {
    if x :| x in a {
      SubsetOfSameSize(a - {x}, b - {x});
    }
  }

  /** Length check, then a scan of one side in some map order: this decides equality. */
  method CapabilitiesEqual(a: Capabilities, b: Capabilities) returns (equal: bool)
    ensures equal <==> a == b
  {
    if |a| != |b| {
      return false;
    }
    var rest := a.Keys;
    while rest != {}
      invariant rest <= a.Keys
      invariant forall k :: k in a && k !in rest ==> k in b && a[k] == b[k]
      decreases rest
    {
      var k :| k in rest;
      if k !in b || a[k] != b[k] {
        return false;
      }
      rest := rest - {k};
    }
    OneSidedScanDecides(a, b);
    return true;
  }

  /** The flavors after merging `caps` into them. */
  function MergedFlavors(flavors: seq<Capabilities>, caps: Option<Capabilities>): (r: seq<Capabilities>)
    ensures flavors <= r
    ensures caps.Some? && caps.value != map[] ==> caps.value in r
    ensures forall f :: f in r ==> f in flavors || (caps == Some(f) && f != map[])
    ensures caps.Some? && caps.value in flavors ==> r == flavors
    ensures Distinct(flavors) ==> Distinct(r)
  {
    if caps.None? || caps.value == map[] || caps.value in flavors then flavors
    else flavors + [caps.value]
  }

  method MergeCapabilityFlavor(existing: seq<Capabilities>, caps: Option<Capabilities>) returns (r: seq<Capabilities>)
    ensures r == MergedFlavors(existing, caps)
  {
    if caps.None? || |caps.value| == 0 {
      return existing;
    }
    var i := 0;
    while i < |existing|
      invariant 0 <= i <= |existing|
      invariant caps.value !in existing[..i]
    {
      var equal := CapabilitiesEqual(existing[i], caps.value);
      if equal {
        return existing;
      }
      i := i + 1;
    }
    assert existing[..i] == existing;
    return existing + [caps.value];
  }

  /** The values declared for a capability: a later definition of the same name replaces an earlier
      one. */
  function Declared(defs: seq<CapabilityDefinition>): map<string, set<string>> {
    if defs == [] then map[]
    else
      var d := defs[|defs| - 1];
      Declared(defs[..|defs| - 1])[d.name := set v | v in d.values]
  }

  /** Exactly what is declared: for each name that some definition has, the values of the last one. */
  lemma {:induction false} DeclaredExactly(defs: seq<CapabilityDefinition>, k: string)
    ensures k in Declared(defs) <==> exists d :: d in defs && d.name == k
    ensures forall i :: 0 <= i < |defs| && defs[i].name == k && (forall j :: i < j < |defs| ==> defs[j].name != k) ==>
              k in Declared(defs) && forall v :: v in Declared(defs)[k] <==> v in defs[i].values
  {
    if defs != [] {
      var init, d := defs[..|defs| - 1], defs[|defs| - 1];
      assert defs == init + [d];
      DeclaredExactly(init, k);
    }
  }

  method AllowedCapabilityValues(defs: seq<CapabilityDefinition>) returns (allowed: map<string, set<string>>)
    ensures allowed == Declared(defs)
  {
    allowed := map[];
    for i := 0 to |defs|
      invariant allowed == Declared(defs[..i])
    {
      var vals: set<string> := {};
      for j := 0 to |defs[i].values|
        invariant vals == set v | v in defs[i].values[..j]
      {
        vals := vals + {defs[i].values[j]};
      }
      assert defs[i].values[..|defs[i].values|] == defs[i].values;
      assert defs[..i + 1][..i] == defs[..i];
      allowed := allowed[defs[i].name := vals];
    }
    assert defs[..|defs|] == defs;
  }

  function Keep(values: seq<string>, allowed: set<string>): seq<string> {
    Select(values, v => v in allowed)
  }

  /** The key/value pairs that are declared, each list in its own order, empty lists dropped. */
  function DeclaredPart(caps: Capabilities, allowed: map<string, set<string>>): Capabilities {
    map k | k in caps && k in allowed && Keep(caps[k], allowed[k]) != [] :: Keep(caps[k], allowed[k])
  }

  function Filtered(caps: Option<Capabilities>, allowed: map<string, set<string>>): (r: Option<Capabilities>)
    ensures r.Some? ==> r.value != map[]
    ensures r.Some? ==> forall k, v :: k in r.value && v in r.value[k] ==>
              caps.Some? && k in caps.value && v in caps.value[k] && k in allowed && v in allowed[k]
  {
    if allowed == map[] || caps.None? || DeclaredPart(caps.value, allowed) == map[] then None
    else Some(DeclaredPart(caps.value, allowed))
  }

  /** Filtering keeps exactly the declared values of each capability, in the order of the source, and
      drops a capability exactly when none of its values is declared. */
  lemma FilteringKeepsOrder(caps: Capabilities, allowed: map<string, set<string>>, k: string)
    requires k in caps
    ensures k in DeclaredPart(caps, allowed) <==> k in allowed && exists v :: v in caps[k] && v in allowed[k]
    ensures k in DeclaredPart(caps, allowed) ==>
              var kept := DeclaredPart(caps, allowed)[k];
              Subsequence(kept, caps[k]) && forall v :: v in kept <==> v in caps[k] && v in allowed[k]
  {
    if k in allowed {
      var kept := Keep(caps[k], allowed[k]);
      SelectIsSubsequence(caps[k], v => v in allowed[k]);
      assert kept != [] ==> kept[0] in kept;
    }
  }

  /** Nothing remains exactly when no value is declared, also when no capability is declared at all. */
  lemma FilteredExactly(caps: Option<Capabilities>, allowed: map<string, set<string>>)
    ensures Filtered(caps, allowed).None? <==>
              caps.None? || forall k, v :: k in caps.value && v in caps.value[k] && k in allowed ==> v !in allowed[k]
    ensures Filtered(caps, allowed).Some? ==>
              forall k :: k in Filtered(caps, allowed).value <==>
                k in caps.value && k in allowed && exists v :: v in caps.value[k] && v in allowed[k]
  {
    if caps.Some? {
      var part := DeclaredPart(caps.value, allowed);
      forall k ensures k in part <==>
          k in caps.value && k in allowed && exists v :: v in caps.value[k] && v in allowed[k] {
        if k in caps.value {
          FilteringKeepsOrder(caps.value, allowed, k);
        }
      }
      assert part != map[] ==> exists k :: k in part;
    }
  }

  method KeepDeclared(values: seq<string>, allowed: set<string>) returns (kept: seq<string>)
    ensures kept == Keep(values, allowed)
  {
    kept := [];
    ghost var keep := v => v in allowed;
    for i := 0 to |values|
      invariant kept + Select(values[i..], keep) == Select(values, keep)
    {
      SelectStep(values, i, keep, kept);
      if values[i] in allowed {
        kept := kept + [values[i]];
      }
    }
  }

  method FilterCapabilities(caps: Option<Capabilities>, allowed: map<string, set<string>>)
    returns (r: Option<Capabilities>)
    ensures r == Filtered(caps, allowed)
  {
    if |allowed| == 0 || caps.None? {
      return None;
    }
    var source := caps.value;
    var result: Capabilities := map[];
    var rest := source.Keys;
    while rest != {}
      invariant rest <= source.Keys
      invariant result == map k | k in DeclaredPart(source, allowed) && k !in rest :: DeclaredPart(source, allowed)[k]
      decreases rest
    {
      var key :| key in rest;
      if key in allowed {
        var kept := KeepDeclared(source[key], allowed[key]);
        if |kept| > 0 {
          result := result[key := kept];
        }
      }
      rest := rest - {key};
    }
    assert result == DeclaredPart(source, allowed);
    return if |result| == 0 then None else Some(result);
  }
}
