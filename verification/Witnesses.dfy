/** Concrete, reachable states in which the code goes wrong: one for each equivalence that says when it does. */
module Witnesses {
  import opened Codec
  import opened Fields
  import opened LinkedLists
  import opened KeyIndex
  import opened HashTables
  import opened HashTableRanges
  import opened FieldReaders
  import opened StreamReaders
  import opened StreamRuns

  method TwoNodes() returns (list: LinkedList<nat>)
    ensures fresh(list) && list.Valid() && |list.Nodes| == 2
    ensures list.mBegin == list.Nodes[0] && list.mBegin.next == list.Nodes[1]
    ensures forall j :: 0 <= j < |list.Nodes| ==> fresh(list.Nodes[j])
  {
    list := new LinkedList<nat>();
    var _ := list.EmplaceBack(0);
    var _ := list.EmplaceBack(1);
  }

  /** Erasing the first of two nodes as a range leaves the other pointing back at it. */
  method PrefixErased() returns (list: LinkedList<nat>)
    ensures list.WalksForward() && !list.Valid()
  {
    list := TwoNodes();
    var ok := list.EraseRange(list.mBegin, list.mBegin.next, 0, 1);
    assert ok;
  }

  /** Erasing the last of two nodes as a range goes through `end()`. */
  method SuffixErased() returns (ok: bool)
    ensures !ok
  {
    var list := TwoNodes();
    ok := list.EraseRange(list.mBegin.next, null, 1, 2);
  }

  lemma {:induction false} DifferentSlots(entries: seq<Entry<nat, nat>>)
    requires |entries| == 2 && entries[0].tableIterator != entries[1].tableIterator
    ensures !AtMostOneHead(entries, 0, 2)
  {
    assert HeadAt(entries, 0) && HeadAt(entries, 1);
  }

  lemma {:induction false} OneInserted(entries: seq<Entry<nat, nat>>, slot: nat, e: Entry<nat, nat>)
    requires entries == []
    ensures InsertedAt(entries, InsertPosition(entries, slot), e) == [e]
  {
  }

  lemma {:induction false} TwoInserted(d: Entry<nat, nat>, slot: nat, e: Entry<nat, nat>)
    ensures var both := InsertedAt([d], InsertPosition([d], slot), e);
            both == [d, e]
  {
    assert InsertPosition([d], slot) == 1;
  }

  /** A table of two slots with one entry. */
  method OneEntry() returns (table: HashTable<nat, nat>)
    ensures fresh(table) && fresh(table.mTable) && fresh(table.mKeysList) && table.Valid()
    ensures fresh(table.Owned) && table.mTable.Length == 2 && table.Slot(1) == 1
    ensures table.Entries() == [Entry(0, 0, 0)] && table.Model() == map[0 := 0]
  {
    hide HashTable.IndexValid;
    table := new HashTable<nat, nat>(2, (key: nat) => key, 0);
    ghost var none := table.Entries();
    var _, d := table.Insert(0, 0);
    OneInserted(none, 0, d.data);
  }

  /** ... and one with an entry in each. */
  method TwoEntries() returns (table: HashTable<nat, nat>)
    ensures fresh(table) && fresh(table.mTable) && fresh(table.mKeysList) && table.Valid()
    ensures fresh(table.Owned) && table.mTable.Length == 2
    ensures table.Entries() == [Entry(0, 0, 0), Entry(1, 0, 1)]
  {
    hide HashTable.IndexValid;
    table := OneEntry();
    var _, e := table.Insert(1, 0);
    TwoInserted(Entry(0, 0, 0), 1, e.data);
  }

  /** Erasing both entries as a range leaves a slot that refers to a deleted node. */
  method StaleSlot() returns (table: HashTable<nat, nat>)
    ensures table.Nodes() == [] && table.mKeysList.Valid()
    ensures exists slot :: 0 <= slot < table.mTable.Length && table.mTable[slot] != null
  {
    hide LinkedList.Valid, AtMostOneHead, Without, Indexes;
    table := TwoEntries();
    DifferentSlots(table.Entries());
    table.mKeysList.WellLinked();
    var ok := EraseRange(table, table.mKeysList.mBegin, null, 0, 2);
    assert ok;
  }

  /** Reading the one byte that is buffered faults, though it is there. */
  lemma {:induction false} LastByte(order: ByteOrder, b: byte)
    ensures Run(order, [OneOf(W8)], [b], []) == [Fault]
    ensures Reference(order, [OneOf(W8)], [b]) == [Value(DecodeField(order, OneOf(W8), [b]))]
  {
  }
}
