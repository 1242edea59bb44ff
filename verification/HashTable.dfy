/** The unique-key hash table of Base/HashTable.hpp: a table of iterators into one linked list of all entries. */
module HashTables {
  import opened LinkedLists
  import opened KeyIndex

  /** The table holds the first node of each slot's run, and `end()` for a slot without entries. */
  ghost predicate HeadsRight<K(!new), V>(table: seq<Node?<Entry<K, V>>>, nodes: seq<Node<Entry<K, V>>>,
                                         entries: seq<Entry<K, V>>) {
    forall slot :: 0 <= slot < |table| ==> table[slot] == At(nodes, Head(entries, slot))
  }

  lemma {:induction false} InsertedHead<K(!new), V>(nodes: seq<Node<Entry<K, V>>>, entries: seq<Entry<K, V>>,
                                                    node: Node<Entry<K, V>>, e: Entry<K, V>, slot: nat)
    requires |nodes| == |entries|
    ensures var p, h := InsertPosition(entries, e.tableIterator), Head(entries, slot);
            At(InsertedAt(nodes, p, node), Head(InsertedAt(entries, p, e), slot)) ==
            if slot == e.tableIterator && h == |entries| then node else At(nodes, h)
  {
    InsertedElements(nodes, InsertPosition(entries, e.tableIterator), node);
    InsertedHeads(entries, e, slot);
  }

  lemma {:induction false} InsertedTable<K(!new), V>(table: seq<Node?<Entry<K, V>>>, nodes: seq<Node<Entry<K, V>>>,
                                                     entries: seq<Entry<K, V>>, node: Node<Entry<K, V>>, e: Entry<K, V>,
                                                     longerTable: seq<Node?<Entry<K, V>>>)
    requires |nodes| == |entries| && HeadsRight(table, nodes, entries)
    requires e.tableIterator < |table|
    requires longerTable == if table[e.tableIterator] == null then table[e.tableIterator := node] else table
    ensures var p := InsertPosition(entries, e.tableIterator);
            HeadsRight(longerTable, InsertedAt(nodes, p, node), InsertedAt(entries, p, e))
  {
    var p := InsertPosition(entries, e.tableIterator);
    forall slot | 0 <= slot < |table|
      ensures longerTable[slot] == At(InsertedAt(nodes, p, node), Head(InsertedAt(entries, p, e), slot))
    {
      InsertedHead(nodes, entries, node, e, slot);
      assert table[slot] == At(nodes, Head(entries, slot));
    }
  }

  /** The head of a slot after entry `i` is removed. Contiguity makes the entry before a head belong to another slot. */
  lemma {:induction false} RemovedHead<K(!new), V>(nodes: seq<Node<Entry<K, V>>>, entries: seq<Entry<K, V>>, i: nat,
                                                   slot: nat)
    requires |nodes| == |entries| && i < |nodes|
    requires Contiguous(entries)
    ensures var h := Head(entries, slot);
            At(RemovedAt(nodes, i), Head(RemovedAt(entries, i), slot)) ==
            if h != i then At(nodes, h)
            else if i + 1 < |nodes| && entries[i + 1].tableIterator == slot then nodes[i + 1]
            else null
  {
    RemovedElements(nodes, i);
    RemovedHeads(entries, i, slot);
  }

  lemma {:induction false} RemovedTable<K(!new), V>(table: seq<Node?<Entry<K, V>>>, nodes: seq<Node<Entry<K, V>>>,
                                                    entries: seq<Entry<K, V>>, i: nat,
                                                    shorterTable: seq<Node?<Entry<K, V>>>)
    requires |nodes| == |entries| && HeadsRight(table, nodes, entries)
    requires Contiguous(entries) && Distinct(nodes)
    requires i < |nodes| && entries[i].tableIterator < |table|
    requires var slot := entries[i].tableIterator;
             var next := if i + 1 < |nodes| && entries[i + 1].tableIterator == slot then nodes[i + 1] else null;
             shorterTable == if table[slot] == nodes[i] then table[slot := next] else table
    ensures HeadsRight(shorterTable, RemovedAt(nodes, i), RemovedAt(entries, i))
  {
    Differs(nodes, i);
    forall slot | 0 <= slot < |table|
      ensures shorterTable[slot] == At(RemovedAt(nodes, i), Head(RemovedAt(entries, i), slot))
    {
      RemovedHead(nodes, entries, i, slot);
      assert table[slot] == At(nodes, Head(entries, slot));
    }
  }

  /** The invariant of the table, on values. */
  ghost predicate Indexes<K(!new), V>(table: seq<Node?<Entry<K, V>>>, nodes: seq<Node<Entry<K, V>>>,
                                      entries: seq<Entry<K, V>>,
                                      hash: K -> nat)
  {
    |nodes| == |entries| && Indexable(entries, hash, |table|) && HeadsRight(table, nodes, entries)
  }

  lemma {:induction false} InsertedIndexes<K(!new), V>(table: seq<Node?<Entry<K, V>>>, nodes: seq<Node<Entry<K, V>>>,
                                                       entries: seq<Entry<K, V>>, hash: K -> nat,
                                                       node: Node<Entry<K, V>>, e: Entry<K, V>,
                                                       longerTable: seq<Node?<Entry<K, V>>>)
    requires Indexes(table, nodes, entries, hash)
    requires e.tableIterator == hash(e.first) % |table| && Scan(entries, e.first) == |entries|
    requires longerTable == if table[e.tableIterator] == null then table[e.tableIterator := node] else table
    ensures var p := InsertPosition(entries, e.tableIterator);
            && Indexes(longerTable, InsertedAt(nodes, p, node), InsertedAt(entries, p, e), hash)
            && MapOf(InsertedAt(entries, p, e)) == MapOf(entries)[e.first := e.second]
  {
    var p := InsertPosition(entries, e.tableIterator);
    InsertedIndexable(entries, e, hash, |table|);
    InsertedMap(entries, p, e);
    InsertedTable(table, nodes, entries, node, e, longerTable);
  }

  lemma {:induction false} RemovedIndexes<K(!new), V>(table: seq<Node?<Entry<K, V>>>, nodes: seq<Node<Entry<K, V>>>,
                                                      entries: seq<Entry<K, V>>, hash: K -> nat, i: nat,
                                                      shorterTable: seq<Node?<Entry<K, V>>>)
    requires Indexes(table, nodes, entries, hash)
    requires i < |nodes| && Distinct(nodes)
    requires var slot := entries[i].tableIterator;
             var next := if i + 1 < |nodes| && entries[i + 1].tableIterator == slot then nodes[i + 1] else null;
             slot < |table| && shorterTable == if table[slot] == nodes[i] then table[slot := next] else table
    ensures Indexes(shorterTable, RemovedAt(nodes, i), RemovedAt(entries, i), hash)
    ensures MapOf(RemovedAt(entries, i)) == MapOf(entries) - {entries[i].first}
  {
    RemovedIndexable(entries, i, hash, |table|);
    RemovedMap(entries, i);
    RemovedTable(table, nodes, entries, i, shorterTable);
  }

  /** The entry before the head of a run belongs to another slot. */
  lemma {:induction false} BeforeHead<K(!new), V>(table: seq<Node?<Entry<K, V>>>, nodes: seq<Node<Entry<K, V>>>,
                                                  entries: seq<Entry<K, V>>, hash: K -> nat, i: nat)
    requires Indexes(table, nodes, entries, hash)
    requires i < |nodes| && Distinct(nodes)
    ensures entries[i].tableIterator == hash(entries[i].first) % |table| < |table|
    ensures table[entries[i].tableIterator] == nodes[i] && i > 0 ==>
            entries[i - 1].tableIterator != entries[i].tableIterator
  {
    Differs(nodes, i);
  }

  lemma {:induction false} Overwritten<K, V>(m: map<K, V>, key: K, v: V, w: V)
    ensures m[key := v][key := w] == m[key := w]
  {
  }

  lemma {:induction false} DataInserted<T>(nodes: seq<Node<T>>, p: nat, node: Node<T>)
    requires p <= |nodes|
    ensures DataOf(InsertedAt(nodes, p, node)) == InsertedAt(DataOf(nodes), p, node.data)
  {
    InsertedElements(nodes, p, node);
    InsertedElements(DataOf(nodes), p, node.data);
  }

  lemma {:induction false} DataRemoved<T>(nodes: seq<Node<T>>, i: nat)
    requires i < |nodes|
    ensures DataOf(RemovedAt(nodes, i)) == RemovedAt(DataOf(nodes), i)
  {
    RemovedElements(nodes, i);
    RemovedElements(DataOf(nodes), i);
  }

  /** In a well linked list a node that was inserted behind another is its `next`, and is the last otherwise. */
  lemma {:induction false} LinkedBehind<T>(nodes: seq<Node<T>>, p: nat, node: Node<T>)
    requires p <= |nodes| && NextLinked(InsertedAt(nodes, p, node), null)
    ensures p > 0 ==> nodes[p - 1].next == node
    ensures p == |nodes| ==> At(InsertedAt(nodes, p, node), |nodes|) == node
  {
    InsertedElements(nodes, p, node);
    assert p > 0 ==> InsertedAt(nodes, p, node)[p - 1] == nodes[p - 1];
  }

  ghost predicate AllIn<T>(nodes: seq<Node<T>>, owned: set<Node<T>>) {
    forall j :: 0 <= j < |nodes| ==> nodes[j] in owned
  }

  lemma {:induction false} AllInRemoved<T>(nodes: seq<Node<T>>, i: nat, owned: set<Node<T>>)
    requires i < |nodes| && AllIn(nodes, owned)
    ensures AllIn(RemovedAt(nodes, i), owned)
  {
    RemovedElements(nodes, i);
  }

  class HashTable<K(!new,==), V> {
    const mTable: array<Node?<Entry<K, V>>>
    const mKeysList: LinkedList<Entry<K, V>>
    /** The hash function, any function at all. */
    const mHash: K -> nat
    /** The value-initialised data, `T{}`. */
    const mDefault: V

    ghost function Nodes(): seq<Node<Entry<K, V>>>
      reads mKeysList`Nodes
    {
      mKeysList.Nodes
    }

    /** The nodes of the list, and those that have left it. */
    ghost var Owned: set<Node<Entry<K, V>>>

    ghost function Entries(): (s: seq<Entry<K, V>>)
      reads mKeysList`Nodes, mKeysList.Nodes`data
      ensures |s| == |mKeysList.Nodes|
    {
      DataOf(mKeysList.Nodes)
    }

    /** The abstract value: a finite map. */
    ghost function Model(): map<K, V>
      reads mKeysList`Nodes, mKeysList.Nodes`data
    {
      MapOf(Entries())
    }

    /** Every back reference is the slot of its key, keys are distinct, every slot's entries form one run, and the table
        points at the head of each run. */
    ghost predicate IndexValid()
      reads mTable, mKeysList, mKeysList.Nodes
    {
      mKeysList.Valid() && Indexes(mTable[..], Nodes(), Entries(), mHash)
    }

    ghost predicate Valid()
      reads this, mTable, mKeysList, Owned
    {
      && AllIn(mKeysList.Nodes, Owned)
      && IndexValid()
    }

    lemma {:induction false} KeysDistinct()
      requires Valid()
      ensures DistinctKeys(Entries())
    {
    }

    constructor (tableSize: nat, hash: K -> nat, default: V)
      requires tableSize > 0
      ensures Valid() && fresh(mTable) && fresh(mKeysList) && fresh(Owned)
      ensures Model() == map[] && Nodes() == []
      ensures mTable.Length == tableSize && mHash == hash && mDefault == default
    {
      mTable := new Node?<Entry<K, V>>[tableSize](_ => null);
      mKeysList := new LinkedList<Entry<K, V>>();
      mHash := hash;
      mDefault := default;
      Owned := {};
    }

    function Slot(key: K): (slot: nat)
      requires mTable.Length > 0
      ensures slot < mTable.Length
    {
      mHash(key) % mTable.Length
    }

    /** Walk the run that starts at `entry`, the entry the table has for the key's slot. */
    method LookupKeyInKeyList(entry: Node?<Entry<K, V>>, key: K) returns (r: Node?<Entry<K, V>>)
      requires Valid()
      requires entry == mTable[Slot(key)]
      ensures r == At(Nodes(), Scan(Entries(), key))
    {
      if entry == null {
        return null;
      }
      ghost var i := Head(Entries(), Slot(key));
      var it := entry;
      var tableIterator := it.data.tableIterator;
      while it.data.first != key
        invariant Head(Entries(), Slot(key)) <= i < |Nodes()| && it == Nodes()[i]
        invariant it.data.tableIterator == tableIterator == Slot(key)
        invariant forall j :: Head(Entries(), Slot(key)) <= j < i ==> Entries()[j].first != key
        decreases |Nodes()| - i
      {
        var next := it.next;
        i := i + 1;
        if next == null || next.data.tableIterator != tableIterator {
          RunCovers(Entries(), mHash, mTable.Length, key, i);
          return null;
        }
        it := next;
      }
      assert Scan(Entries(), key) == i;
      return it;
    }

    method Find(key: K) returns (r: Node?<Entry<K, V>>)
      requires Valid()
      ensures r == At(Nodes(), Scan(Entries(), key))
      ensures r == null <==> key !in Model()
      ensures r != null ==> r in Nodes() && r.data.first == key && r.data.second == Model()[key]
    {
      r := LookupKeyInKeyList(mTable[Slot(key)], key);
    }

    method IsExist(key: K) returns (exist: bool)
      requires Valid()
      ensures exist <==> key in Model()
    {
      var it := Find(key);
      return it != null;
    }

    method Size() returns (size: nat)
      requires Valid()
      ensures size == |Model()|
    {
      MapSize(Entries());
      return mKeysList.mSize;
    }

    /** Insert a new entry unless there is one with the key. */
    method Insert(key: K, value: V) returns (inserted: bool, entry: Node<Entry<K, V>>)
      requires Valid()
      modifies this, mTable, mKeysList, Nodes()`next, Nodes()`previous
      ensures Valid() && fresh(Owned - old(Owned))
      ensures inserted <==> key !in old(Model())
      ensures entry in Nodes() && entry.data.first == key
      ensures !inserted ==>
                && Nodes() == old(Nodes()) && Entries() == old(Entries()) && mTable[..] == old(mTable[..])
                && entry.data.second == Model()[key]
      ensures inserted ==>
                && fresh(entry) && entry.data == Entry(key, value, mHash(key) % mTable.Length)
                && (if old(mTable[Slot(key)]) == null then mKeysList.mBeforeEnd == entry
                    else old(mTable[Slot(key)]).next == entry)
                && Nodes() == InsertedAt(old(Nodes()), InsertPosition(old(Entries()), Slot(key)), entry)
                && Entries() == InsertedAt(old(Entries()), InsertPosition(old(Entries()), Slot(key)), entry.data)
                && Model() == old(Model())[key := value]
    {
      var firstKeyEntry := mTable[Slot(key)];
      if firstKeyEntry != null {
        var found := LookupKeyInKeyList(firstKeyEntry, key);
        if found != null {
          return false, found;
        }
      } else {
        EmptySlot(Entries(), mHash, mTable.Length, key);
      }
      entry := EmplaceEntry(firstKeyEntry, key, value);
      inserted := true;
    }

    /** The part of `insert` that adds the entry: right after the first entry of its slot, or at the end of the
        list as the new head of an empty slot. */
    method EmplaceEntry(firstKeyEntry: Node?<Entry<K, V>>, key: K, value: V) returns (entry: Node<Entry<K, V>>)
      requires Valid()
      requires firstKeyEntry == mTable[Slot(key)] && Scan(Entries(), key) == |Entries()|
      modifies this, mTable, mKeysList, Nodes()`next, Nodes()`previous
      ensures Valid() && fresh(Owned - old(Owned))
      ensures fresh(entry) && entry.data == Entry(key, value, Slot(key))
      ensures if firstKeyEntry == null then mKeysList.mBeforeEnd == entry else firstKeyEntry.next == entry
      ensures Nodes() == InsertedAt(old(Nodes()), InsertPosition(old(Entries()), Slot(key)), entry)
      ensures Entries() == InsertedAt(old(Entries()), InsertPosition(old(Entries()), Slot(key)), entry.data)
      ensures Model() == old(Model())[key := value]
    {
      hide Indexes, LinkedList.Valid, InsertPosition, Binds, IsHead;
      ghost var nodes, entries, p := Nodes(), Entries(), InsertPosition(Entries(), Slot(key));
      entry := Link(firstKeyEntry, key, value);
      Owned := Owned + {entry};
      assert mKeysList.Valid();
      InsertedIndexes(old(mTable[..]), nodes, entries, mHash, entry, entry.data, mTable[..]);
    }

    /** The statements of that part: what they do to the list and the table. */
    method Link(firstKeyEntry: Node?<Entry<K, V>>, key: K, value: V) returns (entry: Node<Entry<K, V>>)
      requires IndexValid()
      requires firstKeyEntry == mTable[Slot(key)]
      modifies mTable, mKeysList, Nodes()`next, Nodes()`previous
      ensures mKeysList.Valid()
      ensures fresh(entry) && entry.data == Entry(key, value, Slot(key))
      ensures Nodes() == InsertedAt(old(Nodes()), InsertPosition(old(Entries()), Slot(key)), entry)
      ensures Entries() == InsertedAt(old(Entries()), InsertPosition(old(Entries()), Slot(key)), entry.data)
      ensures mTable[..] == if firstKeyEntry == null then old(mTable[..])[Slot(key) := entry] else old(mTable[..])
      ensures if firstKeyEntry == null then mKeysList.mBeforeEnd == entry else firstKeyEntry.next == entry
    {
      ghost var p := InsertPosition(Entries(), Slot(key));
      var isEmptyHashEntry := firstKeyEntry == null;
      entry := mKeysList.EmplaceBefore(if isEmptyHashEntry then null else firstKeyEntry.next,
                                       Entry(key, value, Slot(key)), p);
      if isEmptyHashEntry {
        mTable[Slot(key)] := entry;
      }
      DataInserted(old(Nodes()), p, entry);
      LinkedBehind(old(Nodes()), p, entry);
    }

    /** `iterator->second = value`. */
    method AssignData(entry: Node<Entry<K, V>>, value: V)
      requires Valid() && entry in Nodes()
      modifies entry`data
      ensures Valid()
      ensures entry.data == old(entry.data).(second := value)
      ensures Entries() == old(Entries())[Scan(old(Entries()), entry.data.first) := entry.data]
      ensures Model() == old(Model())[entry.data.first := value]
    {
      ghost var i :| 0 <= i < |Nodes()| && Nodes()[i] == entry;
      MapAt(Entries(), i);
      entry.data := entry.data.(second := value);
      assert Entries() == old(Entries())[i := entry.data];
      Assigned(old(Entries()), i, value, mHash, mTable.Length);
    }

    method InsertOrAssign(key: K, value: V) returns (entry: Node<Entry<K, V>>)
      requires Valid()
      modifies this, mTable, mKeysList, Nodes()
      ensures Valid() && fresh(Owned - old(Owned))
      ensures Model() == old(Model())[key := value]
      ensures entry in Nodes() && entry.data.first == key && entry.data.second == value
      ensures key in old(Model()) ==>
                && Nodes() == old(Nodes())
                && Entries() == old(Entries())[Scan(old(Entries()), key) := entry.data]
      ensures key !in old(Model()) ==>
                var p := InsertPosition(old(Entries()), Slot(key));
                && fresh(entry) && Nodes() == InsertedAt(old(Nodes()), p, entry)
                && Entries() == InsertedAt(old(Entries()), p, entry.data)
    {
      var inserted;
      inserted, entry := Insert(key, value);
      if !inserted {
        AssignData(entry, value);
      }
    }

    /** `operator[]`: the entry of the key, made with value-initialised data when there was none. */
    method Index(key: K) returns (entry: Node<Entry<K, V>>)
      requires Valid()
      modifies this, mTable, mKeysList, Nodes()`next, Nodes()`previous
      ensures Valid() && fresh(Owned - old(Owned))
      ensures Model() == if key in old(Model()) then old(Model()) else old(Model())[key := mDefault]
      ensures entry in Nodes() && entry.data.first == key && entry.data.second == Model()[key]
      ensures if key in old(Model()) then Nodes() == old(Nodes())
              else fresh(entry) && Nodes() == InsertedAt(old(Nodes()), InsertPosition(old(Entries()), Slot(key)), entry)
    {
      var _, e := Insert(key, mDefault);
      entry := e;
    }

    /** `table[key] = value`. */
    method IndexAssign(key: K, value: V)
      requires Valid()
      modifies this, mTable, mKeysList, Owned
      ensures Valid() && fresh(Owned - old(Owned))
      ensures Model() == old(Model())[key := value]
    {
      var entry := Index(key);
      Overwritten(old(Model()), key, mDefault, value);
      AssignData(entry, value);
    }

    /** Remove the entry at `it`. The table changes at most in that entry's slot. The result is the next entry,
        except for the last entry of the list, where it is the one before. */
    method Erase(it: Node<Entry<K, V>>, ghost i: nat) returns (nextEntry: Node?<Entry<K, V>>)
      requires Valid()
      requires i < |Nodes()| && it == Nodes()[i]
      modifies mTable, mKeysList, Nodes()`next, Nodes()`previous
      ensures Valid()
      ensures Nodes() == RemovedAt(old(Nodes()), i)
      ensures Model() == old(Model()) - {it.data.first}
      ensures forall slot :: 0 <= slot < mTable.Length && slot != Slot(it.data.first) ==>
                mTable[slot] == old(mTable[slot])
      ensures nextEntry == At(old(Nodes()), if i + 1 == |old(Nodes())| then i - 1 else i + 1)
    {
      hide Indexes, LinkedList.Valid, Distinct, AllIn, Binds, IsHead, IsScan;
      mKeysList.WellLinked();
      AllInRemoved(Nodes(), i, Owned);
      ghost var table, nodes, entries := mTable[..], Nodes(), Entries();
      nextEntry := Unlink(it, i);
      RemovedIndexes(table, nodes, entries, mHash, i, mTable[..]);
    }

    /** The statements of `erase`: what they do to the list and the table. */
    method Unlink(it: Node<Entry<K, V>>, ghost i: nat) returns (nextEntry: Node?<Entry<K, V>>)
      requires IndexValid()
      requires i < |Nodes()| && it == Nodes()[i]
      modifies mTable, mKeysList, Nodes()`next, Nodes()`previous
      ensures mKeysList.Valid()
      ensures Nodes() == RemovedAt(old(Nodes()), i) && Entries() == RemovedAt(old(Entries()), i)
      ensures var slot, nodes, entries := Slot(it.data.first), old(Nodes()), old(Entries());
              var next := if i + 1 < |nodes| && entries[i + 1].tableIterator == slot then nodes[i + 1] else null;
              && it.data.tableIterator == slot
              && mTable[..] == if old(mTable[slot]) == it then old(mTable[..])[slot := next] else old(mTable[..])
      ensures forall slot :: 0 <= slot < mTable.Length && slot != Slot(it.data.first) ==>
                mTable[slot] == old(mTable[slot])
      ensures nextEntry == At(old(Nodes()), if i + 1 == |old(Nodes())| then i - 1 else i + 1)
    {
      hide Indexes, LinkedList.Valid, Distinct, NextLinked, PreviousLinked, Binds, IsHead, IsScan;
      mKeysList.WellLinked();
      BeforeHead(mTable[..], Nodes(), Entries(), mHash, i);
      var tableIterator := it.data.tableIterator;
      var isFirstEntry := mTable[tableIterator] == it;
      nextEntry := mKeysList.Erase(it, i);
      if isFirstEntry {
        UpdateEraseFirstHashEntryTableEntry(tableIterator, nextEntry);
      }
      DataRemoved(old(Nodes()), i);
    }

    method UpdateEraseFirstHashEntryTableEntry(tableIterator: nat, nextEntry: Node?<Entry<K, V>>)
      requires tableIterator < mTable.Length
      modifies mTable
      ensures var belongs := nextEntry != null && nextEntry.data.tableIterator == tableIterator;
              var next := if belongs then nextEntry else null;
              mTable[..] == old(mTable[..])[tableIterator := next]
      ensures forall slot :: 0 <= slot < mTable.Length && slot != tableIterator ==> mTable[slot] == old(mTable[slot])
    {
      if nextEntry != null && nextEntry.data.tableIterator == tableIterator {
        mTable[tableIterator] := nextEntry;
      } else {
        mTable[tableIterator] := null;
      }
    }

    method EraseKey(key: K) returns (nextEntry: Node?<Entry<K, V>>)
      requires Valid()
      modifies mTable, mKeysList, Nodes()`next, Nodes()`previous
      ensures Valid()
      ensures Model() == old(Model()) - {key}
      ensures key !in old(Model()) ==> nextEntry == null && Nodes() == old(Nodes()) && mTable[..] == old(mTable[..])
      ensures key in old(Model()) ==>
                var nodes, i := old(Nodes()), Scan(old(Entries()), key);
                && Nodes() == RemovedAt(nodes, i)
                && nextEntry == At(nodes, if i + 1 == |nodes| then i - 1 else i + 1)
    {
      hide HashTable.Valid, Binds, IsData;
      var it := Find(key);
      if it == null {
        return null;
      }
      nextEntry := Erase(it, Scan(Entries(), key));
    }
  }
}
