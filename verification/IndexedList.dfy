/** A list of keyed entries with the `key -> index` map the updater and the providers keep beside
    it. The map always points at the last entry of a key. */
module IndexedLists {
  import opened Keyed

  class IndexedList<B> {
    var entries: seq<Entry<string, B>>
    var index: map<string, nat>

    ghost predicate Valid()
      reads this
    {
      && (forall k :: k in index <==> Locate(entries, k, Last) != -1)
      && (forall k :: k in index ==> index[k] == Locate(entries, k, Last))
    }

    constructor (base: seq<Entry<string, B>>)
      ensures Valid() && entries == base
    {
      entries, index := base, map[];
      new;
      var i := 0;
      while i < |base|
        invariant 0 <= i <= |base| && entries == base
        invariant forall k :: k in index <==> Locate(base[..i], k, Last) != -1
        invariant forall k :: k in index ==> index[k] == Locate(base[..i], k, Last)
      {
        assert base[..i + 1][..i] == base[..i];
        index := index[base[i].key := i];
        i := i + 1;
      }
      assert base[..i] == base;
    }

    method Append(key: string, body: B)
      requires Valid() && key !in index
      modifies this
      ensures Valid() && entries == old(entries) + [Entry(key, body)]
    {
      entries := entries + [Entry(key, body)];
      index := index[key := |entries| - 1];
      assert entries[..|entries| - 1] == old(entries);
    }

    method Replace(idx: nat, body: B)
      requires Valid() && idx < |entries|
      modifies `entries
      ensures Valid() && entries == old(entries)[idx := Entry(old(entries)[idx].key, body)]
    {
      entries := entries[idx := entries[idx].(body := body)];
      forall k ensures Locate(entries, k, Last) == Locate(old(entries), k, Last) {
        ReplaceLocate(old(entries), idx, body, Last, k);
      }
    }
  }
}
