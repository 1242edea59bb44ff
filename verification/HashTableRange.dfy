/** The erase of a range of entries in Base/HashTable.hpp, as the source has it: after it leaves the run of one
    removed head it does not test the entry it is at, which is the head of the next run. */
module HashTableRanges {
  import opened LinkedLists
  import opened KeyIndex
  import opened HashTables

  ghost predicate HeadAt<K(!new), V>(entries: seq<Entry<K, V>>, i: nat)
    requires i < |entries|
  {
    Head(entries, entries[i].tableIterator) == i
  }

  /** No two entries from `lo` to `hi` are heads of their slots. */
  ghost predicate AtMostOneHead<K(!new), V>(entries: seq<Entry<K, V>>, lo: nat, hi: nat)
    requires hi <= |entries|
  {
    forall i, j :: lo <= i < j < hi ==> !(HeadAt(entries, i) && HeadAt(entries, j))
  }

  function Without<X>(s: seq<X>, lo: nat, hi: nat): (r: seq<X>)
    requires lo <= hi <= |s|
    ensures |r| == |s| - (hi - lo)
  {
    s[..lo] + s[hi..]
  }

  lemma {:induction false} WithoutAt<X>(s: seq<X>, lo: nat, hi: nat)
    requires lo <= hi <= |s|
    ensures var r := Without(s, lo, hi);
            forall j {:trigger r[j]} :: 0 <= j < |r| ==> r[j] == if j < lo then s[j] else s[j + (hi - lo)]
  {
  }

  lemma {:induction false} AllInWithout<T>(nodes: seq<Node<T>>, lo: nat, hi: nat, owned: set<Node<T>>)
    requires lo <= hi <= |nodes| && AllIn(nodes, owned)
    ensures AllIn(Without(nodes, lo, hi), owned)
  {
    WithoutAt(nodes, lo, hi);
  }

  lemma {:induction false} WithoutFirst<X>(s: seq<X>, lo: nat, hi: nat)
    requires lo < hi <= |s|
    ensures Without(s, lo, hi) == Without(RemovedAt(s, lo), lo, hi - 1)
  {
  }

  /** Taking a stretch out keeps back references, distinct keys and contiguity ... */
  lemma {:induction false} WithoutIndexable<K(!new), V>(entries: seq<Entry<K, V>>, lo: nat, hi: nat, hash: K -> nat,
                                                         size: nat)
    requires lo <= hi <= |entries| && Indexable(entries, hash, size)
    ensures Indexable(Without(entries, lo, hi), hash, size)
    decreases hi
  {
    hide Indexable;
    if lo == hi {
      assert Without(entries, lo, hi) == entries;
    } else {
      RemovedIndexable(entries, lo, hash, size);
      WithoutIndexable(RemovedAt(entries, lo), lo, hi - 1, hash, size);
      WithoutFirst(entries, lo, hi);
    }
  }

  /** ... and takes its keys out of the map. */
  lemma {:induction false} WithoutMap<K(!new), V>(entries: seq<Entry<K, V>>, lo: nat, hi: nat, hash: K -> nat,
                                                  size: nat)
    requires lo <= hi <= |entries| && Indexable(entries, hash, size)
    ensures MapOf(Without(entries, lo, hi)) == MapOf(entries) - Keys(entries, lo, hi)
    decreases hi
  {
    hide Indexable, DistinctKeys, Binds, IsScan, Keys;
    if lo == hi {
      assert Without(entries, lo, hi) == entries;
      KeysNone(entries, lo);
      MinusTwice(MapOf(entries), {}, {});
    } else {
      var shorter := RemovedAt(entries, lo);
      RemovedIndexable(entries, lo, hash, size);
      WithoutMap(shorter, lo, hi - 1, hash, size);
      WithoutFirst(entries, lo, hi);
      KeysFirst(entries, lo, hi);
      DistinctOf(entries, hash, size);
      RemovedMap(entries, lo);
      MinusTwice(MapOf(entries), {entries[lo].first}, Keys(shorter, lo, hi - 1));
    }
  }

  lemma {:induction false} MinusTwice<K, V>(m: map<K, V>, a: set<K>, b: set<K>)
    ensures m - a - b == m - (a + b)
    ensures m - {} == m
  {
  }

  lemma {:induction false} DistinctOf<K(!new), V>(entries: seq<Entry<K, V>>, hash: K -> nat, size: nat)
    requires Indexable(entries, hash, size)
    ensures DistinctKeys(entries)
  {
  }

  ghost function Keys<K(!new), V>(entries: seq<Entry<K, V>>, lo: nat, hi: nat): set<K>
    requires hi <= |entries|
  {
    set i | lo <= i < hi :: entries[i].first
  }

  lemma {:induction false} KeysNone<K(!new), V>(entries: seq<Entry<K, V>>, lo: nat)
    requires lo <= |entries|
    ensures Keys(entries, lo, lo) == {}
  {
  }

  lemma {:induction false} KeysFirst<K(!new), V>(entries: seq<Entry<K, V>>, lo: nat, hi: nat)
    requires lo < hi <= |entries|
    ensures Keys(entries, lo, hi) == {entries[lo].first} + Keys(RemovedAt(entries, lo), lo, hi - 1)
  {
    RemovedElements(entries, lo);
    var shorter := RemovedAt(entries, lo);
    forall k | k in Keys(entries, lo, hi) && k != entries[lo].first
      ensures k in Keys(shorter, lo, hi - 1)
    {
      var i :| lo <= i < hi && entries[i].first == k;
      assert shorter[i - 1].first == k;
    }
  }

  /** The head of a slot after that: another head moves with its entry; a head that goes leaves the slot to the
      first entry behind the stretch, when that belongs to it. */
  lemma {:induction false} WithoutHead<K(!new), V>(entries: seq<Entry<K, V>>, lo: nat, hi: nat, slot: nat)
    requires lo <= hi <= |entries| && Contiguous(entries)
    ensures var h, n := Head(entries, slot), hi - lo;
            Head(Without(entries, lo, hi), slot) ==
            if h < lo then h
            else if hi <= h then h - n
            else if hi < |entries| && entries[hi].tableIterator == slot then lo
            else |entries| - n
  {
    var h, n := Head(entries, slot), hi - lo;
    WithoutAt(entries, lo, hi);
    if lo <= h < hi {
      assert forall k :: hi <= k < |entries| && entries[k].tableIterator == slot ==> SameRun(entries, h, k);
    }
    HeadIs(Without(entries, lo, hi), slot,
           if h < lo then h
           else if hi <= h then h - n
           else if hi < |entries| && entries[hi].tableIterator == slot then lo
           else |entries| - n);
  }

  /** An entry that is no head, behind the only head since `lo`, belongs to that head's run. */
  lemma {:induction false} SameRunAs<K(!new), V>(entries: seq<Entry<K, V>>, first: nat, k: nat)
    requires Contiguous(entries) && first < k < |entries| && HeadAt(entries, first)
    requires forall j :: first < j <= k ==> !HeadAt(entries, j)
    ensures entries[k].tableIterator == entries[first].tableIterator
  {
    var h := Head(entries, entries[k].tableIterator);
    assert h <= k;
    assert HeadAt(entries, h);
    assert h < first ==> SameRun(entries, h, k);
  }

  lemma {:induction false} WithoutSlot<K(!new), V>(nodes: seq<Node<Entry<K, V>>>, entries: seq<Entry<K, V>>,
                                                   lo: nat, hi: nat, slot: nat)
    requires |nodes| == |entries| && lo <= hi <= |entries| && Contiguous(entries)
    ensures var h := Head(entries, slot);
            At(Without(nodes, lo, hi), Head(Without(entries, lo, hi), slot)) ==
            if lo <= h < hi then if hi < |nodes| && entries[hi].tableIterator == slot then nodes[hi] else null
            else At(nodes, h)
  {
    WithoutAt(nodes, lo, hi);
    WithoutHead(entries, lo, hi, slot);
  }

  /** What the table is to be when the heads of the stretch have gone: one slot changes, or none. */
  lemma {:induction false} RightWithout<K(!new), V>(table: seq<Node?<Entry<K, V>>>, nodes: seq<Node<Entry<K, V>>>,
                                                    entries: seq<Entry<K, V>>, lo: nat, hi: nat, first: nat,
                                                    shorterTable: seq<Node?<Entry<K, V>>>)
    requires |nodes| == |entries| && HeadsRight(table, nodes, entries) && Contiguous(entries)
    requires lo <= first <= hi <= |entries|
    requires forall j :: lo <= j < hi && j != first ==> !HeadAt(entries, j)
    requires first < hi ==> HeadAt(entries, first) && entries[first].tableIterator < |table|
    requires shorterTable ==
             if first == hi then table
             else
               var slot := entries[first].tableIterator;
               table[slot := if hi < |nodes| && entries[hi].tableIterator == slot then nodes[hi] else null]
    ensures HeadsRight(shorterTable, Without(nodes, lo, hi), Without(entries, lo, hi))
  {
    hide Contiguous;
    forall slot | 0 <= slot < |table|
      ensures shorterTable[slot] == At(Without(nodes, lo, hi), Head(Without(entries, lo, hi), slot))
    {
      var h := Head(entries, slot);
      WithoutSlot(nodes, entries, lo, hi, slot);
      assert table[slot] == At(nodes, h);
      assert lo <= h < hi ==> HeadAt(entries, h);
    }
  }

  /** A table entry that refers to a node of the stretch is wrong. */
  lemma {:induction false} StaleWithout<K(!new), V>(table: seq<Node?<Entry<K, V>>>, nodes: seq<Node<Entry<K, V>>>,
                                                    entries: seq<Entry<K, V>>, lo: nat, hi: nat, i: nat, slot: nat)
    requires |nodes| == |entries| && Distinct(nodes)
    requires lo <= i < hi <= |nodes| && slot < |table| && table[slot] == nodes[i]
    ensures !HeadsRight(table, Without(nodes, lo, hi), Without(entries, lo, hi))
  {
    Differs(nodes, i);
    WithoutAt(nodes, lo, hi);
    assert table[slot] != At(Without(nodes, lo, hi), Head(Without(entries, lo, hi), slot));
  }

  /** The state of the loop at position `k`: `first` and `second` are the first two heads from `lo` on, or `k` when
      there are none. Up to the second head the table is untouched. From there on the slot of the second head keeps
      its node for good. */
  ghost predicate Scanned<K(!new), V>(table: seq<Node?<Entry<K, V>>>, nodes: seq<Node<Entry<K, V>>>,
                                      entries: seq<Entry<K, V>>,
                                      lo: nat, k: nat, first: nat, second: nat,
                                      now: seq<Node?<Entry<K, V>>>, isAFirstEntryRemoved: bool, slot: nat)
  {
    && |nodes| == |entries| && |now| == |table| && lo <= first <= second <= k <= |nodes|
    && (forall j :: lo <= j < second && j != first ==> !HeadAt(entries, j))
    && (isAFirstEntryRemoved ==> slot < |now|)
    && (first < k ==> HeadAt(entries, first) && first < second)
    && (second == k ==>
          && now == table
          && (isAFirstEntryRemoved <==> first < k)
          && (first < k ==> slot == entries[first].tableIterator))
    && (second < k ==>
          && HeadAt(entries, second) && entries[second].tableIterator < |now|
          && now[entries[second].tableIterator] == nodes[second]
          && (isAFirstEntryRemoved ==> slot != entries[second].tableIterator))
  }

  /** One round of the loop keeps that. */
  lemma {:induction false} ScannedNext<K(!new), V>(table: seq<Node?<Entry<K, V>>>, nodes: seq<Node<Entry<K, V>>>,
                                                   entries: seq<Entry<K, V>>, hash: K -> nat, lo: nat, k: nat,
                                                   first: nat,
                                                   second: nat, now: seq<Node?<Entry<K, V>>>, isA: bool, slot: nat)
    requires Indexes(table, nodes, entries, hash) && Distinct(nodes) && k < |nodes|
    requires Scanned(table, nodes, entries, lo, k, first, second, now, isA, slot)
    ensures entries[k].tableIterator < |table|
    ensures var s, isHead := entries[k].tableIterator, HeadAt(entries, k);
            var first' := if first == k && !isHead then k + 1 else first;
            var second' := if first == k || (second == k && !isHead) then k + 1 else second;
            if !isA then
              if now[s] == nodes[k] then Scanned(table, nodes, entries, lo, k + 1, first', second', now, true, s)
              else Scanned(table, nodes, entries, lo, k + 1, first', second', now, false, slot)
            else if s != slot then Scanned(table, nodes, entries, lo, k + 1, first', second', now[slot := null],
                                           false, slot)
            else Scanned(table, nodes, entries, lo, k + 1, first', second', now, true, slot)
  {
    Differs(nodes, k);
    var s, isHead := entries[k].tableIterator, HeadAt(entries, k);
    assert table[s] == At(nodes, Head(entries, s));
    if first < second == k && !isHead {
      SameRunAs(entries, first, k);
    }
  }

  lemma {:induction false} ScannedEnd<K(!new), V>(table: seq<Node?<Entry<K, V>>>, nodes: seq<Node<Entry<K, V>>>,
                                                  entries: seq<Entry<K, V>>, hash: K -> nat, lo: nat, hi: nat,
                                                  first: nat,
                                                  second: nat, now: seq<Node?<Entry<K, V>>>, isA: bool, slot: nat,
                                                  final: seq<Node?<Entry<K, V>>>)
    requires Indexes(table, nodes, entries, hash) && Distinct(nodes)
    requires Scanned(table, nodes, entries, lo, hi, first, second, now, isA, slot)
    requires final ==
             if isA then now[slot := if hi < |nodes| && entries[hi].tableIterator == slot then nodes[hi] else null]
             else now
    ensures HeadsRight(final, Without(nodes, lo, hi), Without(entries, lo, hi)) <==> AtMostOneHead(entries, lo, hi)
  {
    if second == hi {
      RightWithout(table, nodes, entries, lo, hi, first, final);
    } else {
      assert HeadAt(entries, first) && HeadAt(entries, second);
      StaleWithout(final, nodes, entries, lo, hi, second, entries[second].tableIterator);
    }
  }

  lemma {:induction false} ScannedNothing<K(!new), V>(table: seq<Node?<Entry<K, V>>>, nodes: seq<Node<Entry<K, V>>>,
                                                      entries: seq<Entry<K, V>>, lo: nat, slot: nat)
    requires |nodes| == |entries| && lo <= |nodes|
    ensures Scanned(table, nodes, entries, lo, lo, lo, lo, table, false, slot)
  {
  }

  /** What comes before the erase of the list: the slots of heads that are going to be deleted. The table is right
      for what is left if and only if no two entries of the range are heads. */
  method ClearSlots<K(!new,==), V>(table: HashTable<K, V>, begin: Node?<Entry<K, V>>, end: Node?<Entry<K, V>>,
                                   ghost lo: nat, ghost hi: nat)
    requires table.IndexValid()
    requires lo <= hi <= |table.Nodes()| && begin == At(table.Nodes(), lo) && end == At(table.Nodes(), hi)
    modifies table.mTable
    ensures HeadsRight(table.mTable[..], Without(table.Nodes(), lo, hi), Without(table.Entries(), lo, hi)) <==>
            AtMostOneHead(table.Entries(), lo, hi)
  {
    hide Distinct, NextLinked, PreviousLinked, Indexes, Scanned, HeadsRight, AtMostOneHead, LinkedList.Valid,
         Without, HeadAt;
    ghost var was, nodes, entries := table.mTable[..], table.Nodes(), table.Entries();
    table.mKeysList.WellLinked();
    var isAFirstEntryRemoved, firstEntryTableIterator, first, second := WalkRange(table, begin, end, lo, hi);
    ghost var now := table.mTable[..];
    FinishRange(table, end, isAFirstEntryRemoved, firstEntryTableIterator);
    ScannedEnd(was, nodes, entries, table.mHash, lo, hi, first, second, now, isAFirstEntryRemoved,
               firstEntryTableIterator, table.mTable[..]);
  }

  /** What follows the loop. */
  method FinishRange<K(!new,==), V>(table: HashTable<K, V>, end: Node?<Entry<K, V>>, isAFirstEntryRemoved: bool,
                                    firstEntryTableIterator: nat)
    requires isAFirstEntryRemoved ==> firstEntryTableIterator < table.mTable.Length
    modifies table.mTable
    ensures var slot := firstEntryTableIterator;
            table.mTable[..] ==
            if isAFirstEntryRemoved then
              old(table.mTable[..])[slot := if end != null && end.data.tableIterator == slot then end else null]
            else old(table.mTable[..])
  {
    if isAFirstEntryRemoved {
      table.UpdateEraseFirstHashEntryTableEntry(firstEntryTableIterator, end);
    }
  }

  /** The loop over the range. */
  method WalkRange<K(!new,==), V>(table: HashTable<K, V>, begin: Node?<Entry<K, V>>, end: Node?<Entry<K, V>>,
                                  ghost lo: nat, ghost hi: nat)
    returns (isAFirstEntryRemoved: bool, firstEntryTableIterator: nat, ghost first: nat, ghost second: nat)
    requires table.IndexValid()
    requires lo <= hi <= |table.Nodes()| && begin == At(table.Nodes(), lo) && end == At(table.Nodes(), hi)
    modifies table.mTable
    ensures Scanned(old(table.mTable[..]), table.Nodes(), table.Entries(), lo, hi, first, second, table.mTable[..],
                    isAFirstEntryRemoved, firstEntryTableIterator)
    ensures isAFirstEntryRemoved ==> firstEntryTableIterator < table.mTable.Length
  {
    hide Distinct, NextLinked, PreviousLinked, Indexes, Scanned, HeadAt, LinkedList.Valid, LinkedList.WalksForward;
    ghost var was, nodes, entries := table.mTable[..], table.Nodes(), table.Entries();
    table.mKeysList.WellLinked();
    firstEntryTableIterator, isAFirstEntryRemoved := 0, false;
    var it := begin;
    ghost var k: nat := lo;
    first, second := lo, lo;
    ScannedNothing(was, nodes, entries, lo, 0);
    SamePosition(nodes, lo, hi);
    while it != end
      invariant lo <= k <= hi && it == At(nodes, k) && (it == end <==> k == hi)
      invariant NextLinked(nodes, null)
      invariant Scanned(was, nodes, entries, lo, k, first, second, table.mTable[..], isAFirstEntryRemoved,
                        firstEntryTableIterator)
      invariant isAFirstEntryRemoved ==> firstEntryTableIterator < table.mTable.Length
      decreases hi - k
    {
      ScannedNext(was, nodes, entries, table.mHash, lo, k, first, second, table.mTable[..], isAFirstEntryRemoved,
                  firstEntryTableIterator);
      ghost var isHead := HeadAt(entries, k);
      first, second := if first == k && !isHead then k + 1 else first,
                       if first == k || (second == k && !isHead) then k + 1 else second;
      isAFirstEntryRemoved, firstEntryTableIterator := WalkEntry(table, it, isAFirstEntryRemoved,
                                                                 firstEntryTableIterator);
      NextAt(nodes, k);
      SamePosition(nodes, k + 1, hi);
      it := it.next;
      k := k + 1;
    }
  }

  /** One round of that loop. */
  method WalkEntry<K(!new,==), V>(table: HashTable<K, V>, it: Node<Entry<K, V>>, isAFirstEntryRemoved: bool,
                                  firstEntryTableIterator: nat)
    returns (isA: bool, first: nat)
    requires it.data.tableIterator < table.mTable.Length
    requires isAFirstEntryRemoved ==> firstEntryTableIterator < table.mTable.Length
    modifies table.mTable
    ensures var s, slot, was := it.data.tableIterator, firstEntryTableIterator, old(table.mTable[..]);
            (isA, first, table.mTable[..]) ==
            if !isAFirstEntryRemoved then if was[s] == it then (true, s, was) else (false, slot, was)
            else if s != slot then (false, slot, was[slot := null])
            else (true, slot, was)
  {
    isA, first := isAFirstEntryRemoved, firstEntryTableIterator;
    var tableIterator := it.data.tableIterator;
    if !isAFirstEntryRemoved {
      if table.mTable[tableIterator] == it {
        isA := true;
        first := tableIterator;
      }
    } else if tableIterator != firstEntryTableIterator {
      table.mTable[firstEntryTableIterator] := null;
      isA := false;
    }
  }

  lemma {:induction false} NextAt<T>(nodes: seq<Node<T>>, k: nat)
    requires NextLinked(nodes, null) && k < |nodes|
    ensures nodes[k].next == At(nodes, k + 1)
  {
  }

  /** The erase of a range. The list's erase goes through `end()` for a suffix that is not the whole list.
      Otherwise the table is in order again if and only if no two of the entries were heads of their slots, and
      they were no proper prefix. */
  method EraseRange<K(!new,==), V>(table: HashTable<K, V>, begin: Node?<Entry<K, V>>, end: Node?<Entry<K, V>>,
                                   ghost lo: nat, ghost hi: nat) returns (ok: bool)
    requires table.Valid()
    requires lo <= hi <= |table.Nodes()| && begin == At(table.Nodes(), lo) && end == At(table.Nodes(), hi)
    modifies table.mTable, table.mKeysList, table.Nodes()`next, table.Nodes()`previous
    ensures ok <==> lo == hi || lo == 0 || hi < |old(table.Nodes())|
    ensures ok ==> table.Nodes() == Without(old(table.Nodes()), lo, hi)
    ensures ok ==> table.Entries() == Without(old(table.Entries()), lo, hi)
    ensures ok ==> (table.Valid() <==>
                    && AtMostOneHead(old(table.Entries()), lo, hi)
                    && (lo == hi || lo > 0 || hi == |old(table.Nodes())|))
    ensures ok ==> (HeadsRight(table.mTable[..], table.Nodes(), table.Entries()) <==>
                    AtMostOneHead(old(table.Entries()), lo, hi))
    ensures ok ==> (table.mKeysList.Valid() <==> lo == hi || lo > 0 || hi == |old(table.Nodes())|)
    ensures ok ==> table.Model() == old(table.Model()) - Keys(old(table.Entries()), lo, hi)
  {
    ghost var entries := table.Entries();
    WithoutIndexable(entries, lo, hi, table.mHash, table.mTable.Length);
    WithoutMap(entries, lo, hi, table.mHash, table.mTable.Length);
    AllInWithout(table.Nodes(), lo, hi, table.Owned);
    hide HeadsRight, Indexable, AtMostOneHead, LinkedList.Valid, AllIn, Binds, IsData, Keys, Without;
    ok := CutRange(table, begin, end, lo, hi);
  }

  /** The statements of that: what they do to the table and the list. */
  method CutRange<K(!new,==), V>(table: HashTable<K, V>, begin: Node?<Entry<K, V>>, end: Node?<Entry<K, V>>,
                                 ghost lo: nat, ghost hi: nat) returns (ok: bool)
    requires table.IndexValid()
    requires lo <= hi <= |table.Nodes()| && begin == At(table.Nodes(), lo) && end == At(table.Nodes(), hi)
    modifies table.mTable, table.mKeysList, table.Nodes()`next, table.Nodes()`previous
    ensures ok <==> lo == hi || lo == 0 || hi < |old(table.Nodes())|
    ensures ok ==> table.Nodes() == Without(old(table.Nodes()), lo, hi)
    ensures ok ==> table.Entries() == Without(old(table.Entries()), lo, hi)
    ensures ok ==> (table.mKeysList.Valid() <==> lo == hi || lo > 0 || hi == |old(table.Nodes())|)
    ensures ok ==> (HeadsRight(table.mTable[..], table.Nodes(), table.Entries()) <==>
                    AtMostOneHead(old(table.Entries()), lo, hi))
  {
    hide HeadsRight, Indexes, AtMostOneHead, LinkedList.Valid, LinkedList.WalksForward, Binds;
    ghost var nodes, entries := table.Nodes(), table.Entries();
    ClearSlots(table, begin, end, lo, hi);
    ok := table.mKeysList.EraseRange(begin, end, lo, hi);
    WithoutAt(entries, lo, hi);
    WithoutAt(nodes, lo, hi);
    if ok {
      assert table.Entries() == Without(entries, lo, hi);
    }
  }
}
