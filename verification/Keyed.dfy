/** Upserts into a list of keyed entries. The controller does this at four levels: images by name,
    versions by version string, flavors by capabilities and regions by name. `slices.IndexFunc` and
    the region scan pick the first entry of a key; an index map filled by a loop picks the last.
    One theory covers both. */
module Keyed {
  import opened Prelude

  datatype Entry<K, B> = Entry(key: K, body: B)

  datatype Pick = First | Last

  /** One upsert: what to append when the key is absent (`None`: skip), and how to change the body
      of the entry that is there. */
  datatype Write<K, !B> = Write(key: K, initial: Option<B>, update: B -> B)

  function Keys<K, B>(s: seq<Entry<K, B>>): (ks: seq<K>)
    ensures |ks| == |s| && forall i :: 0 <= i < |s| ==> ks[i] == s[i].key
  {
    seq(|s|, i requires 0 <= i < |s| => s[i].key)
  }

  /** Index of the first or last entry of a key, -1 when there is none. */
  function Locate<K(==), B>(s: seq<Entry<K, B>>, k: K, p: Pick): (i: int)
    ensures -1 <= i < |s|
    ensures i == -1 ==> forall j :: 0 <= j < |s| ==> s[j].key != k
    ensures i >= 0 ==> s[i].key == k
    ensures i >= 0 && p.First? ==> forall j :: 0 <= j < i ==> s[j].key != k
    ensures i >= 0 && p.Last? ==> forall j :: i < j < |s| ==> s[j].key != k
  {
    if s == [] then -1
    else if p.Last? then
      if s[|s| - 1].key == k then |s| - 1 else Locate(s[..|s| - 1], k, p)
    else if s[0].key == k then 0
    else
      var i := Locate(s[1..], k, p);
      if i == -1 then -1 else i + 1
  }

  function Find<K(==), B>(s: seq<Entry<K, B>>, k: K, p: Pick): Option<B> {
    var i := Locate(s, k, p);
    if i == -1 then None else Some(s[i].body)
  }

  function Put<K(==), B>(s: seq<Entry<K, B>>, w: Write<K, B>, p: Pick): seq<Entry<K, B>> {
    var i := Locate(s, w.key, p);
    if i != -1 then s[i := Entry(w.key, w.update(s[i].body))]
    else if w.initial.Some? then s + [Entry(w.key, w.initial.value)]
    else s
  }

  function PutAll<K(==), B>(s: seq<Entry<K, B>>, ws: seq<Write<K, B>>, p: Pick): seq<Entry<K, B>>
    decreases |ws|
  {
    if ws == [] then s else PutAll(Put(s, ws[0], p), ws[1..], p)
  }

  function Written<K, B>(c: Option<B>, w: Write<K, B>): Option<B> {
    match c case Some(b) => Some(w.update(b)) case None => w.initial
  }

  /** The reference semantics, with no list and no index: what happens to one key. */
  function FoldKey<K(==), B>(c: Option<B>, ws: seq<Write<K, B>>, k: K): Option<B>
    decreases |ws|
  {
    if ws == [] then c
    else FoldKey(if ws[0].key == k then Written(c, ws[0]) else c, ws[1..], k)
  }

  predicate Creates<K(==), B>(ws: seq<Write<K, B>>, k: K) {
    exists i :: 0 <= i < |ws| && ws[i].key == k && ws[i].initial.Some?
  }

  lemma PutLocate<K, B>(s: seq<Entry<K, B>>, w: Write<K, B>, p: Pick, k: K)
    ensures |s| <= |Put(s, w, p)| <= |s| + 1
    ensures forall i :: 0 <= i < |s| ==> Put(s, w, p)[i].key == s[i].key
    ensures Locate(s, k, p) != -1 ==> Locate(Put(s, w, p), k, p) == Locate(s, k, p)
    ensures Locate(s, k, p) == -1 ==>
              Locate(Put(s, w, p), k, p) == if k == w.key && w.initial.Some? then |s| else -1
  {
    if Locate(s, k, p) == -1 && k == w.key && w.initial.Some? {
      assert Put(s, w, p)[|s|].key == k;
    }
  }

  lemma ReplaceLocate<K, B>(s: seq<Entry<K, B>>, i: nat, b: B, p: Pick, k: K)
    requires i < |s|
    ensures Locate(s[i := Entry(s[i].key, b)], k, p) == Locate(s, k, p)
  {
    var t := s[i := Entry(s[i].key, b)];
    assert forall j :: 0 <= j < |s| ==> t[j].key == s[j].key;
  }

  lemma PutFind<K, B>(s: seq<Entry<K, B>>, w: Write<K, B>, p: Pick, k: K)
    ensures Find(Put(s, w, p), k, p) == if k == w.key then Written(Find(s, k, p), w) else Find(s, k, p)
  {
    PutLocate(s, w, p, k);
  }

  /** The list of entries refines the reference semantics: after any run of upserts the entry of a
      key is the fold of just the writes aimed at that key. */
  lemma {:induction false} PutAllFind<K, B>(s: seq<Entry<K, B>>, ws: seq<Write<K, B>>, p: Pick, k: K)
    ensures Find(PutAll(s, ws, p), k, p) == FoldKey(Find(s, k, p), ws, k)
    decreases |ws|
  {
    if ws != [] {
      PutFind(s, ws[0], p, k);
      PutAllFind(Put(s, ws[0], p), ws[1..], p, k);
    }
  }

  /** Entries are never moved or removed: the old keys stay as a prefix. */
  lemma {:induction false} PutAllPrefix<K, B>(s: seq<Entry<K, B>>, ws: seq<Write<K, B>>, p: Pick, i: nat)
    requires i < |s|
    ensures |s| <= |PutAll(s, ws, p)| && PutAll(s, ws, p)[i].key == s[i].key
    ensures Locate(PutAll(s, ws, p), s[i].key, p) == Locate(s, s[i].key, p)
    decreases |ws|
  {
    if ws != [] {
      PutLocate(s, ws[0], p, s[i].key);
      PutAllPrefix(Put(s, ws[0], p), ws[1..], p, i);
    }
  }

  /** Only the entry picked for a key that is written to can change. */
  lemma {:induction false} PutAllFrame<K, B>(s: seq<Entry<K, B>>, ws: seq<Write<K, B>>, p: Pick, i: nat)
    requires i < |s|
    requires Locate(s, s[i].key, p) != i || forall w :: w in ws ==> w.key != s[i].key
    ensures i < |PutAll(s, ws, p)| && PutAll(s, ws, p)[i] == s[i]
    decreases |ws|
  {
    if ws != [] {
      PutLocate(s, ws[0], p, s[i].key);
      assert forall w :: w in ws[1..] ==> w in ws;
      PutAllFrame(Put(s, ws[0], p), ws[1..], p, i);
    }
  }

  /** Each appended entry is the one picked for its key: none is added twice or shadows another. */
  lemma {:induction false} PutAllAppended<K, B>(s: seq<Entry<K, B>>, ws: seq<Write<K, B>>, p: Pick, j: nat)
    requires |s| <= j < |PutAll(s, ws, p)|
    ensures Locate(PutAll(s, ws, p), PutAll(s, ws, p)[j].key, p) == j
    ensures Locate(s, PutAll(s, ws, p)[j].key, p) == -1
    decreases |ws|
  {
    if ws != [] {
      var t := Put(s, ws[0], p);
      var k := PutAll(s, ws, p)[j].key;
      PutLocate(s, ws[0], p, k);
      if j < |t| {
        PutAllPrefix(t, ws[1..], p, j);
      } else {
        PutAllAppended(t, ws[1..], p, j);
      }
    }
  }

  lemma PutAllGrows<K, B>(s: seq<Entry<K, B>>, ws: seq<Write<K, B>>, p: Pick)
    ensures |s| <= |PutAll(s, ws, p)|
  {
    if s != [] {
      PutAllPrefix(s, ws, p, 0);
    }
  }

  /** Distinct keys stay distinct. */
  lemma PutAllDistinct<K, B>(s: seq<Entry<K, B>>, ws: seq<Write<K, B>>, p: Pick)
    requires Distinct(Keys(s))
    ensures Distinct(Keys(PutAll(s, ws, p)))
  {
    var r := PutAll(s, ws, p);
    PutAllGrows(s, ws, p);
    forall j | 0 <= j < |r| ensures Locate(r, r[j].key, p) == j {
      if j < |s| {
        PutAllPrefix(s, ws, p, j);
        assert Keys(s)[j] == Keys(s)[Locate(s, s[j].key, p)];
      } else {
        PutAllAppended(s, ws, p, j);
      }
    }
  }

  lemma {:induction false} FoldKeyPresence<K, B>(c: Option<B>, ws: seq<Write<K, B>>, k: K)
    ensures FoldKey(c, ws, k).Some? <==> c.Some? || Creates(ws, k)
    decreases |ws|
  {
    if ws != [] {
      var d := if ws[0].key == k then Written(c, ws[0]) else c;
      FoldKeyPresence(d, ws[1..], k);
      assert Creates(ws, k) <==> (ws[0].key == k && ws[0].initial.Some?) || Creates(ws[1..], k) by {
        if Creates(ws[1..], k) {
          var i :| 0 <= i < |ws[1..]| && ws[1..][i].key == k && ws[1..][i].initial.Some?;
          assert ws[i + 1].key == k;
        }
        if Creates(ws, k) && !(ws[0].key == k && ws[0].initial.Some?) {
          var i :| 0 <= i < |ws| && ws[i].key == k && ws[i].initial.Some?;
          assert ws[1..][i - 1].key == k;
        }
      }
    }
  }

  /** The keys afterwards are exactly the keys before plus those some write creates. */
  lemma PutAllKeys<K, B>(s: seq<Entry<K, B>>, ws: seq<Write<K, B>>, p: Pick, k: K)
    ensures k in Keys(PutAll(s, ws, p)) <==> k in Keys(s) || Creates(ws, k)
  {
    PutAllFind(s, ws, p, k);
    FoldKeyPresence(Find(s, k, p), ws, k);
    FindPresence(s, k, p);
    FindPresence(PutAll(s, ws, p), k, p);
  }

  lemma FindPresence<K, B>(s: seq<Entry<K, B>>, k: K, p: Pick)
    ensures Find(s, k, p).Some? <==> k in Keys(s)
  {
    if k in Keys(s) {
      var i :| 0 <= i < |Keys(s)| && Keys(s)[i] == k;
      assert s[i].key == k;
    }
    if Find(s, k, p).Some? {
      assert Keys(s)[Locate(s, k, p)] == k;
    }
  }

  /** The keys some writes are aimed at. */
  function Targets<K, B>(ws: seq<Write<K, B>>): (ks: seq<K>)
    ensures |ks| == |ws| && forall i :: 0 <= i < |ws| ==> ks[i] == ws[i].key
  {
    seq(|ws|, i requires 0 <= i < |ws| => ws[i].key)
  }

  lemma {:induction false} FoldKeyMiss<K, B>(c: Option<B>, ws: seq<Write<K, B>>, k: K)
    requires k !in Targets(ws)
    ensures FoldKey(c, ws, k) == c
    decreases |ws|
  {
    if ws != [] {
      assert Targets(ws)[0] == ws[0].key;
      assert Targets(ws[1..]) == Targets(ws)[1..];
      FoldKeyMiss(c, ws[1..], k);
    }
  }

  lemma {:induction false} FoldKeyOnce<K, B>(c: Option<B>, ws: seq<Write<K, B>>, i: nat)
    requires i < |ws| && Distinct(Targets(ws))
    ensures FoldKey(c, ws, ws[i].key) == Written(c, ws[i])
    decreases |ws|
  {
    assert Targets(ws[1..]) == Targets(ws)[1..];
    if i == 0 {
      FoldKeyMiss(Written(c, ws[0]), ws[1..], ws[0].key);
    } else {
      assert Targets(ws)[0] != Targets(ws)[i];
      FoldKeyOnce(c, ws[1..], i - 1);
    }
  }

  /** Writes with distinct keys do not disturb each other: the entry of each key is what its write
      alone makes of the list. */
  lemma IndependentWrite<K, B>(s: seq<Entry<K, B>>, ws: seq<Write<K, B>>, p: Pick, i: nat)
    requires Distinct(Targets(ws)) && i < |ws|
    ensures Find(PutAll(s, ws, p), ws[i].key, p) == Find(Put(s, ws[i], p), ws[i].key, p)
  {
    PutAllFind(s, ws, p, ws[i].key);
    FoldKeyOnce(Find(s, ws[i].key, p), ws, i);
    PutFind(s, ws[i], p, ws[i].key);
  }

  /** Keys without a write keep their entries, in place. */
  lemma UntouchedKeys<K, B>(s: seq<Entry<K, B>>, ws: seq<Write<K, B>>, p: Pick)
    ensures forall k :: k !in Targets(ws) ==> Find(PutAll(s, ws, p), k, p) == Find(s, k, p)
    ensures |s| <= |PutAll(s, ws, p)|
    ensures forall j :: 0 <= j < |s| && s[j].key !in Targets(ws) ==> PutAll(s, ws, p)[j] == s[j]
  {
    forall k | k !in Targets(ws) ensures Find(PutAll(s, ws, p), k, p) == Find(s, k, p) {
      PutAllFind(s, ws, p, k);
      FoldKeyMiss(Find(s, k, p), ws, k);
    }
    PutAllGrows(s, ws, p);
    forall j | 0 <= j < |s| && s[j].key !in Targets(ws) ensures PutAll(s, ws, p)[j] == s[j] {
      assert forall i :: 0 <= i < |ws| ==> Targets(ws)[i] == ws[i].key;
      PutAllFrame(s, ws, p, j);
    }
  }

  /** Two lists with the same keys in the same places, the same picked entries and the same
      entries elsewhere are the same list. */
  lemma SameByFind<K, B>(s: seq<Entry<K, B>>, t: seq<Entry<K, B>>, p: Pick)
    requires |s| == |t| && forall i :: 0 <= i < |s| ==> s[i].key == t[i].key
    requires forall k :: Find(s, k, p) == Find(t, k, p)
    requires forall i :: 0 <= i < |s| && Locate(s, s[i].key, p) != i ==> t[i] == s[i]
    ensures s == t
  {
    forall i | 0 <= i < |s| ensures s[i] == t[i] {
      var k := s[i].key;
      assert Locate(s, k, p) == Locate(t, k, p);
      if Locate(s, k, p) == i {
        assert Find(s, k, p) == Find(t, k, p);
      }
    }
  }

  /** If repeating the writes changes nothing key by key, it changes nothing at all: no entry is
      added, moved or rewritten. */
  lemma PutAllTwice<K, B>(s: seq<Entry<K, B>>, ws: seq<Write<K, B>>, p: Pick)
    requires forall k :: FoldKey(FoldKey(Find(s, k, p), ws, k), ws, k) == FoldKey(Find(s, k, p), ws, k)
    ensures PutAll(PutAll(s, ws, p), ws, p) == PutAll(s, ws, p)
  {
    var r := PutAll(s, ws, p);
    var t := PutAll(r, ws, p);
    PutAllGrows(r, ws, p);
    forall k ensures Find(t, k, p) == Find(r, k, p) {
      PutAllFind(s, ws, p, k);
      PutAllFind(r, ws, p, k);
    }
    if |t| > |r| {
      PutAllAppended(r, ws, p, |r|);
      var c := Find(t, t[|r|].key, p);
      assert false;
    }
    forall i | 0 <= i < |r| ensures t[i].key == r[i].key {
      PutAllPrefix(r, ws, p, i);
    }
    forall i | 0 <= i < |r| && Locate(r, r[i].key, p) != i ensures t[i] == r[i] {
      PutAllFrame(r, ws, p, i);
    }
    SameByFind(r, t, p);
  }

  /** And only then. */
  lemma PutAllTwiceExactly<K(!new), B(!new)>(s: seq<Entry<K, B>>, ws: seq<Write<K, B>>, p: Pick)
    ensures PutAll(PutAll(s, ws, p), ws, p) == PutAll(s, ws, p) <==>
              forall k :: FoldKey(FoldKey(Find(s, k, p), ws, k), ws, k) == FoldKey(Find(s, k, p), ws, k)
  {
    if PutAll(PutAll(s, ws, p), ws, p) == PutAll(s, ws, p) {
      forall k ensures FoldKey(FoldKey(Find(s, k, p), ws, k), ws, k) == FoldKey(Find(s, k, p), ws, k) {
        PutAllFind(s, ws, p, k);
        PutAllFind(PutAll(s, ws, p), ws, p, k);
      }
    }
    if forall k :: FoldKey(FoldKey(Find(s, k, p), ws, k), ws, k) == FoldKey(Find(s, k, p), ws, k) {
      PutAllTwice(s, ws, p);
    }
  }

  /** Two runs whose writes correspond one by one keep the two lists corresponding. */
  lemma {:induction false} PutAllRelated<K(!new), B(!new)>(
    s: seq<Entry<K, B>>, t: seq<Entry<K, B>>, v: seq<Write<K, B>>, w: seq<Write<K, B>>, p: Pick,
    rel: (K, B, B) -> bool)
    requires RelatedLists(s, t, rel) && RelatedWrites(v, w, rel)
    ensures RelatedLists(PutAll(s, v, p), PutAll(t, w, p), rel)
    decreases |v|
  {
    if v != [] {
      var k := v[0].key;
      assert w[0].key == k;
      assert Locate(s, k, p) == Locate(t, k, p);
      assert RelatedLists(Put(s, v[0], p), Put(t, w[0], p), rel);
      PutAllRelated(Put(s, v[0], p), Put(t, w[0], p), v[1..], w[1..], p, rel);
    }
  }

  lemma RelatedWritesConcat<K(!new), B(!new)>(
    v: seq<Write<K, B>>, w: seq<Write<K, B>>, x: seq<Write<K, B>>, y: seq<Write<K, B>>, rel: (K, B, B) -> bool)
    requires RelatedWrites(v, w, rel) && RelatedWrites(x, y, rel)
    ensures RelatedWrites(v + x, w + y, rel)
  {
  }

  ghost predicate RelatedLists<K(!new), B(!new)>(s: seq<Entry<K, B>>, t: seq<Entry<K, B>>, rel: (K, B, B) -> bool) {
    |s| == |t| && forall i :: 0 <= i < |s| ==> s[i].key == t[i].key && rel(s[i].key, s[i].body, t[i].body)
  }

  ghost predicate RelatedWrite<K(!new), B(!new)>(v: Write<K, B>, w: Write<K, B>, rel: (K, B, B) -> bool) {
    && v.key == w.key
    && (v.initial.Some? <==> w.initial.Some?)
    && (v.initial.Some? ==> rel(v.key, v.initial.value, w.initial.value))
    && forall a, b :: rel(v.key, a, b) ==> rel(v.key, v.update(a), w.update(b))
  }

  ghost predicate RelatedWrites<K(!new), B(!new)>(v: seq<Write<K, B>>, w: seq<Write<K, B>>, rel: (K, B, B) -> bool) {
    |v| == |w| && forall i :: 0 <= i < |v| ==> RelatedWrite(v[i], w[i], rel)
  }
}
