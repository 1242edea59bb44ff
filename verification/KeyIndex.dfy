/** The entries of Base/HashTable.hpp as a sequence, and what it takes for the slot table to index them.

    All entries live in one list. The entries of one slot form one contiguous run, the table points at the first
    entry of each run, and the end of a run shows only by the slot of an entry differing from that of the one
    before it. */
module KeyIndex {

  /** `PairType`: the key, the data, and the slot of the table the entry belongs to. */
  datatype Entry<K, V> = Entry(first: K, second: V, tableIterator: nat)

  ghost predicate IsHead<K, V>(entries: seq<Entry<K, V>>, slot: nat, r: nat) {
    && r <= |entries|
    && (forall j :: 0 <= j < r ==> entries[j].tableIterator != slot)
    && (r < |entries| ==> entries[r].tableIterator == slot)
  }

  /** The position of the first entry of a slot, or the length when the slot is empty. */
  ghost function Head<K, V>(entries: seq<Entry<K, V>>, slot: nat): (r: nat)
    ensures IsHead(entries, slot, r)
  {
    HeadExists(entries, slot);
    var r: nat :| IsHead(entries, slot, r);
    r
  }

  lemma {:induction false} HeadExists<K, V>(entries: seq<Entry<K, V>>, slot: nat)
    ensures exists r: nat :: IsHead(entries, slot, r)
  {
    if entries == [] || entries[0].tableIterator == slot {
      assert IsHead(entries, slot, 0);
    } else {
      HeadExists(entries[1..], slot);
      var r: nat :| IsHead(entries[1..], slot, r);
      assert IsHead(entries, slot, r + 1);
    }
  }

  ghost predicate IsScan<K, V>(entries: seq<Entry<K, V>>, key: K, r: nat) {
    && r <= |entries|
    && (forall j :: 0 <= j < r ==> entries[j].first != key)
    && (r < |entries| ==> entries[r].first == key)
  }

  /** A linear scan of the whole list for a key: the position of its first entry, or the length. */
  ghost function Scan<K, V>(entries: seq<Entry<K, V>>, key: K): (r: nat)
    ensures IsScan(entries, key, r)
  {
    ScanExists(entries, key);
    var r: nat :| IsScan(entries, key, r);
    r
  }

  lemma {:induction false} ScanExists<K, V>(entries: seq<Entry<K, V>>, key: K)
    ensures exists r: nat :: IsScan(entries, key, r)
  {
    if entries == [] || entries[0].first == key {
      assert IsScan(entries, key, 0);
    } else {
      ScanExists(entries[1..], key);
      var r: nat :| IsScan(entries[1..], key, r);
      assert IsScan(entries, key, r + 1);
    }
  }

  ghost predicate Slotted<K(!new), V>(entries: seq<Entry<K, V>>, hash: K -> nat, size: nat) {
    size > 0 && forall i :: 0 <= i < |entries| ==> entries[i].tableIterator == hash(entries[i].first) % size
  }

  ghost predicate KeysDiffer<K, V>(entries: seq<Entry<K, V>>, i: nat, j: nat)
    requires i < |entries| && j < |entries|
  {
    entries[i].first != entries[j].first
  }

  ghost predicate DistinctKeys<K, V>(entries: seq<Entry<K, V>>) {
    forall i, j {:trigger KeysDiffer(entries, i, j)} :: 0 <= i < j < |entries| ==> KeysDiffer(entries, i, j)
  }

  /** All entries from one position to another belong to the slot of the first. */
  ghost predicate SameRun<K, V>(entries: seq<Entry<K, V>>, i: nat, k: nat)
    requires i <= k < |entries|
  {
    forall j :: i <= j <= k ==> entries[j].tableIterator == entries[i].tableIterator
  }

  ghost predicate Contiguous<K, V>(entries: seq<Entry<K, V>>) {
    forall i, k {:trigger SameRun(entries, i, k)} ::
      0 <= i < k < |entries| && entries[i].tableIterator == entries[k].tableIterator ==> SameRun(entries, i, k)
  }

  ghost predicate Indexable<K(!new), V>(entries: seq<Entry<K, V>>, hash: K -> nat, size: nat) {
    Slotted(entries, hash, size) && DistinctKeys(entries) && Contiguous(entries)
  }

  ghost predicate Binds<K(!new), V>(entries: seq<Entry<K, V>>, m: map<K, V>) {
    forall k :: && (k in m <==> Scan(entries, k) < |entries|)
                && (k in m ==> m[k] == entries[Scan(entries, k)].second)
  }

  /** The finite map that the entries stand for. */
  ghost function MapOf<K(!new), V>(entries: seq<Entry<K, V>>): (m: map<K, V>)
    ensures Binds(entries, m)
  {
    MapExists(entries);
    var m :| Binds(entries, m);
    m
  }

  lemma {:induction false} MapExists<K(!new), V>(entries: seq<Entry<K, V>>)
    ensures exists m: map<K, V> :: Binds(entries, m)
  {
    var keys := set i | 0 <= i < |entries| :: entries[i].first;
    var m := map k | k in keys :: entries[Scan(entries, k)].second;
    assert forall k :: Scan(entries, k) < |entries| ==> entries[Scan(entries, k)].first in keys;
    assert Binds(entries, m);
  }

  lemma {:induction false} MapAt<K(!new), V>(entries: seq<Entry<K, V>>, i: nat)
    requires DistinctKeys(entries) && i < |entries|
    ensures Scan(entries, entries[i].first) == i
    ensures entries[i].first in MapOf(entries) && MapOf(entries)[entries[i].first] == entries[i].second
    ensures forall j :: 0 <= j < |entries| && j != i ==> entries[j].first != entries[i].first
  {
    forall j | 0 <= j < |entries| && j != i
      ensures entries[j].first != entries[i].first
    {
      assert if j < i then KeysDiffer(entries, j, i) else KeysDiffer(entries, i, j);
    }
    ScanIs(entries, entries[i].first, i);
  }

  /** `size()`, the length of the list, is the cardinality of the map. */
  lemma {:induction false} MapSize<K(!new), V>(entries: seq<Entry<K, V>>)
    requires DistinctKeys(entries)
    ensures |MapOf(entries)| == |entries|
  {
    KeysSize(entries, MapOf(entries).Keys);
  }

  lemma {:induction false} KeysSize<K(!new), V>(entries: seq<Entry<K, V>>, keys: set<K>)
    requires DistinctKeys(entries)
    requires forall k :: k in keys <==> Scan(entries, k) < |entries|
    ensures |keys| == |entries|
  {
    if entries == [] {
      assert keys == {};
    } else {
      var key, rest := entries[0].first, entries[1..];
      MapAt(entries, 0);
      forall i, j | 0 <= i < j < |rest|
        ensures KeysDiffer(rest, i, j)
      {
        assert KeysDiffer(entries, i + 1, j + 1);
      }
      forall k
        ensures k in keys - {key} <==> Scan(rest, k) < |rest|
      {
        var i := Scan(entries, k);
        ScanIs(rest, k, if k == key then |rest| else i - 1);
      }
      KeysSize(rest, keys - {key});
      assert key in keys by {
        ScanIs(entries, key, 0);
      }
    }
  }

  /** Walking a slot's run from its head, with no hit by position `j` and the run over there, proves the key absent. */
  lemma {:induction false} RunCovers<K(!new), V>(entries: seq<Entry<K, V>>, hash: K -> nat, size: nat, key: K, j: nat)
    requires Indexable(entries, hash, size)
    requires Head(entries, hash(key) % size) < j <= |entries|
    requires forall i :: Head(entries, hash(key) % size) <= i < j ==> entries[i].first != key
    requires j == |entries| || entries[j].tableIterator != hash(key) % size
    ensures Scan(entries, key) == |entries|
  {
    var h, i := Head(entries, hash(key) % size), Scan(entries, key);
    assert j <= i < |entries| ==> SameRun(entries, h, i);
  }

  lemma {:induction false} EmptySlot<K(!new), V>(entries: seq<Entry<K, V>>, hash: K -> nat, size: nat, key: K)
    requires Slotted(entries, hash, size)
    requires Head(entries, hash(key) % size) == |entries|
    ensures Scan(entries, key) == |entries|
  {
  }

  /** Where a new entry of a slot goes: right after the head of the slot's run, or at the end of the list. */
  ghost function InsertPosition<K(!new), V>(entries: seq<Entry<K, V>>, slot: nat): (p: nat)
    ensures p <= |entries|
  {
    var h := Head(entries, slot);
    if h < |entries| then h + 1 else h
  }

  function InsertedAt<X>(s: seq<X>, p: nat, x: X): (r: seq<X>)
    requires p <= |s|
    ensures |r| == |s| + 1
  {
    s[..p] + [x] + s[p..]
  }

  lemma {:induction false} InsertedElements<X>(s: seq<X>, p: nat, x: X)
    requires p <= |s|
    ensures var r := InsertedAt(s, p, x);
            forall j {:trigger r[j]} :: 0 <= j < |r| ==> r[j] == if j < p then s[j] else if j == p then x else s[j - 1]
  {
  }

  function RemovedAt<X>(s: seq<X>, p: nat): (r: seq<X>)
    requires p < |s|
    ensures |r| == |s| - 1
  {
    s[..p] + s[p + 1..]
  }

  lemma {:induction false} RemovedElements<X>(s: seq<X>, p: nat)
    requires p < |s|
    ensures var r := RemovedAt(s, p);
            forall j {:trigger r[j]} :: 0 <= j < |r| ==> r[j] == if j < p then s[j] else s[j + 1]
  {
  }

  lemma {:induction false} InsertedContiguous<K(!new), V>(entries: seq<Entry<K, V>>, e: Entry<K, V>)
    requires Contiguous(entries)
    ensures Contiguous(InsertedAt(entries, InsertPosition(entries, e.tableIterator), e))
  {
    InsertedElements(entries, InsertPosition(entries, e.tableIterator), e);
    var h, p := Head(entries, e.tableIterator), InsertPosition(entries, e.tableIterator);
    var longer := InsertedAt(entries, p, e);
    forall i, k | 0 <= i < k < |longer| && longer[i].tableIterator == longer[k].tableIterator
      ensures SameRun(longer, i, k)
    {
      var i', k' := if i < p then i else if i == p then h else i - 1, if k < p then k else if k == p then h else k - 1;
      assert i' < k' < |entries| ==> SameRun(entries, i', k');
    }
  }

  lemma {:induction false} HeadIs<K(!new), V>(entries: seq<Entry<K, V>>, slot: nat, i: nat)
    requires i <= |entries|
    requires forall j :: 0 <= j < i ==> entries[j].tableIterator != slot
    requires i < |entries| ==> entries[i].tableIterator == slot
    ensures Head(entries, slot) == i
  {
  }

  /** The heads of the runs after an insertion: heads behind the new entry move by one, and it becomes the head of
      its own slot exactly when that was empty. */
  lemma {:induction false} InsertedHeads<K(!new), V>(entries: seq<Entry<K, V>>, e: Entry<K, V>, slot: nat)
    ensures var h, p := Head(entries, slot), InsertPosition(entries, e.tableIterator);
            Head(InsertedAt(entries, p, e), slot) ==
            if slot == e.tableIterator then h else if h < p && h < |entries| then h else h + 1
  {
    InsertedElements(entries, InsertPosition(entries, e.tableIterator), e);
    var h, p := Head(entries, slot), InsertPosition(entries, e.tableIterator);
    var longer := InsertedAt(entries, p, e);
    HeadIs(longer, slot, if slot == e.tableIterator then h else if h < p && h < |entries| then h else h + 1);
  }

  lemma {:induction false} ScanIs<K(!new), V>(entries: seq<Entry<K, V>>, key: K, i: nat)
    requires i <= |entries|
    requires forall j :: 0 <= j < i ==> entries[j].first != key
    requires i < |entries| ==> entries[i].first == key
    ensures Scan(entries, key) == i
  {
  }

  lemma {:induction false} InsertedScan<K(!new), V>(entries: seq<Entry<K, V>>, p: nat, e: Entry<K, V>, key: K)
    requires p <= |entries| && Scan(entries, e.first) == |entries|
    ensures var i := Scan(entries, key);
            Scan(InsertedAt(entries, p, e), key) ==
            if key == e.first then p else if i < p && i < |entries| then i else i + 1
  {
    InsertedElements(entries, p, e);
    var i := Scan(entries, key);
    ScanIs(InsertedAt(entries, p, e), key, if key == e.first then p else if i < p && i < |entries| then i else i + 1);
  }

  lemma {:induction false} InsertedKey<K(!new), V>(entries: seq<Entry<K, V>>, p: nat, e: Entry<K, V>, key: K)
    requires p <= |entries| && e.first !in MapOf(entries)
    ensures var m := MapOf(InsertedAt(entries, p, e));
            && (key in m <==> key in MapOf(entries) || key == e.first)
            && (key in m ==> m[key] == if key == e.first then e.second else MapOf(entries)[key])
  {
    InsertedElements(entries, p, e);
    InsertedScan(entries, p, e, key);
  }

  lemma {:induction false} InsertedMap<K(!new), V>(entries: seq<Entry<K, V>>, p: nat, e: Entry<K, V>)
    requires p <= |entries| && e.first !in MapOf(entries)
    ensures MapOf(InsertedAt(entries, p, e)) == MapOf(entries)[e.first := e.second]
  {
    forall k {
      InsertedKey(entries, p, e, k);
    }
  }

  lemma {:induction false} InsertedIndexable<K(!new), V>(entries: seq<Entry<K, V>>, e: Entry<K, V>, hash: K -> nat,
                                                         size: nat)
    requires Indexable(entries, hash, size)
    requires e.tableIterator == hash(e.first) % size
    requires Scan(entries, e.first) == |entries|
    ensures Indexable(InsertedAt(entries, InsertPosition(entries, e.tableIterator), e), hash, size)
  {
    InsertedElements(entries, InsertPosition(entries, e.tableIterator), e);
    var p := InsertPosition(entries, e.tableIterator);
    var longer := InsertedAt(entries, p, e);
    forall i, j | 0 <= i < j < |longer|
      ensures KeysDiffer(longer, i, j)
    {
      if i != p && j != p {
        assert KeysDiffer(entries, if i < p then i else i - 1, if j < p then j else j - 1);
      }
    }
    InsertedContiguous(entries, e);
  }

  lemma {:induction false} RemovedContiguous<K(!new), V>(entries: seq<Entry<K, V>>, i: nat)
    requires i < |entries| && Contiguous(entries)
    ensures Contiguous(RemovedAt(entries, i))
  {
    RemovedElements(entries, i);
    var shorter := RemovedAt(entries, i);
    forall h, k | 0 <= h < k < |shorter| && shorter[h].tableIterator == shorter[k].tableIterator
      ensures SameRun(shorter, h, k)
    {
      assert SameRun(entries, if h < i then h else h + 1, if k < i then k else k + 1);
    }
  }

  /** The heads of the runs after a removal: heads behind the gap move by one. If the removed entry was the head of
      its slot, the next entry takes over when it belongs to the slot, and otherwise the slot is empty. */
  lemma {:induction false} RemovedHeads<K(!new), V>(entries: seq<Entry<K, V>>, i: nat, slot: nat)
    requires i < |entries| && Contiguous(entries)
    ensures var h, s := Head(entries, slot), entries[i].tableIterator;
            Head(RemovedAt(entries, i), slot) ==
            if h < i then h
            else if h > i then h - 1
            else if i + 1 < |entries| && entries[i + 1].tableIterator == s then i
            else |entries| - 1
  {
    RemovedElements(entries, i);
    var h, s := Head(entries, slot), entries[i].tableIterator;
    var shorter := RemovedAt(entries, i);
    if h == i {
      assert forall k :: i < k < |entries| && entries[k].tableIterator == s ==> SameRun(entries, i, k);
    }
    HeadIs(shorter, slot, if h < i then h
                          else if h > i then h - 1
                          else if i + 1 < |entries| && entries[i + 1].tableIterator == s then i
                          else |entries| - 1);
  }

  lemma {:induction false} RemovedScan<K(!new), V>(entries: seq<Entry<K, V>>, i: nat, key: K)
    requires i < |entries|
    requires forall j :: 0 <= j < |entries| && j != i ==> entries[j].first != entries[i].first
    ensures var j := Scan(entries, key);
            Scan(RemovedAt(entries, i), key) == if j < i then j else if j == i then |entries| - 1 else j - 1
  {
    RemovedElements(entries, i);
    var j := Scan(entries, key);
    ScanIs(RemovedAt(entries, i), key, if j < i then j else if j == i then |entries| - 1 else j - 1);
  }

  lemma {:induction false} RemovedKey<K(!new), V>(entries: seq<Entry<K, V>>, i: nat, key: K)
    requires i < |entries|
    requires forall j :: 0 <= j < |entries| && j != i ==> entries[j].first != entries[i].first
    ensures var m := MapOf(RemovedAt(entries, i));
            && (key in m <==> key in MapOf(entries) && key != entries[i].first)
            && (key in m ==> m[key] == MapOf(entries)[key])
  {
    RemovedElements(entries, i);
    RemovedScan(entries, i, key);
  }

  lemma {:induction false} RemovedMap<K(!new), V>(entries: seq<Entry<K, V>>, i: nat)
    requires i < |entries| && DistinctKeys(entries)
    ensures MapOf(RemovedAt(entries, i)) == MapOf(entries) - {entries[i].first}
  {
    MapAt(entries, i);
    forall k {
      RemovedKey(entries, i, k);
    }
  }

  lemma {:induction false} RemovedIndexable<K(!new), V>(entries: seq<Entry<K, V>>, i: nat, hash: K -> nat, size: nat)
    requires i < |entries| && Indexable(entries, hash, size)
    ensures Indexable(RemovedAt(entries, i), hash, size)
  {
    RemovedElements(entries, i);
    var shorter := RemovedAt(entries, i);
    forall h, k | 0 <= h < k < |shorter|
      ensures KeysDiffer(shorter, h, k)
    {
      assert KeysDiffer(entries, if h < i then h else h + 1, if k < i then k else k + 1);
    }
    RemovedContiguous(entries, i);
  }

  /** Assigning to the data of an entry. */
  lemma {:induction false} Assigned<K(!new), V>(entries: seq<Entry<K, V>>, i: nat, value: V, hash: K -> nat, size: nat)
    requires i < |entries| && Indexable(entries, hash, size)
    ensures var updated := entries[i := entries[i].(second := value)];
            && Indexable(updated, hash, size)
            && MapOf(updated) == MapOf(entries)[entries[i].first := value]
            && forall slot :: Head(updated, slot) == Head(entries, slot)
  {
    var updated := entries[i := entries[i].(second := value)];
    forall slot
      ensures Head(updated, slot) == Head(entries, slot)
    {
      HeadIs(updated, slot, Head(entries, slot));
    }
    forall k
      ensures Scan(updated, k) == Scan(entries, k)
    {
      ScanIs(updated, k, Scan(entries, k));
    }
    forall h, k | 0 <= h < k < |updated|
      ensures KeysDiffer(updated, h, k)
    {
      assert KeysDiffer(entries, h, k);
    }
    forall h, k | 0 <= h < k < |updated| && updated[h].tableIterator == updated[k].tableIterator
      ensures SameRun(updated, h, k)
    {
      assert SameRun(entries, h, k);
    }
    MapAt(entries, i);
  }
}
