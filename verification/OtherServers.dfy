/** `OtherServers` of Core/Common/ProcessPeersServer.hpp: a list of connections with reference counts, and a hash
    table from thread IDs to iterators into that list. */
module Peers {
  import opened LinkedLists
  import opened KeyIndex
  import opened HashTables
  import opened Registry
  import opened RegistryRuns

  /** `StreamInfoAndReferenceCount`. */
  datatype Connection = Connection(info: StreamInfo, referenceCount: int)

  type ConnectionNode = Node<Connection>

  datatype Option<+T> = None | Some(value: T)

  /** The list holds one connection for every group. */
  ghost predicate ConnectionsRight(connections: seq<Connection>, groups: seq<Group>) {
    && |connections| == |groups|
    && forall i :: 0 <= i < |groups| ==> connections[i] == Connection(groups[i].info, groups[i].count)
  }

  /** The stored iterators: every registered thread's is the node of its group, and there are no others. */
  ghost predicate IteratorsRight(nodes: seq<ConnectionNode>, groups: seq<Group>, m: map<ThreadID, Node?<Connection>>) {
    && |nodes| == |groups|
    && forall t {:trigger t in m} ::
         && (t in m <==> Owner(groups, t) < |groups|)
         && (t in m ==> m[t] == At(nodes, Owner(groups, t)))
  }

  ghost function BindAll<V>(m: map<ThreadID, V>, ids: seq<ThreadID>, v: V): (r: map<ThreadID, V>)
    ensures forall t :: t in r <==> t in m || t in ids
    ensures forall t :: t in r ==> r[t] == if t in ids then v else m[t]
  {
    m + map t | t in Elements(ids) :: v
  }

  lemma {:induction false} BindOneMore<V>(m: map<ThreadID, V>, ids: seq<ThreadID>, t: ThreadID, v: V)
    ensures BindAll(m, ids + [t], v) == BindAll(m, ids, v)[t := v]
  {
  }

  lemma {:induction false} AddOwner(groups: seq<Group>, ids: seq<ThreadID>, info: StreamInfo, t: ThreadID)
    ensures var i := Owner(groups, t);
            Owner(Add(groups, ids, info), t) == if t in ids then |groups| else if i < |groups| then i else |groups| + 1
  {
    var i := Owner(groups, t);
    OwnerIs(Add(groups, ids, info), t, if t in ids then |groups| else if i < |groups| then i else |groups| + 1);
  }

  lemma {:induction false} AddIterators(nodes: seq<ConnectionNode>, groups: seq<Group>,
                                        m: map<ThreadID, Node?<Connection>>,
                                        node: ConnectionNode, ids: seq<ThreadID>, info: StreamInfo,
                                        bound: map<ThreadID, Node?<Connection>>)
    requires IteratorsRight(nodes, groups, m)
    requires bound == BindAll(m, ids, node)
    ensures IteratorsRight(nodes + [node], Add(groups, ids, info), bound)
  {
    forall t
      ensures var i := Owner(Add(groups, ids, info), t);
              && (t in bound <==> i < |groups| + 1)
              && (t in bound ==> bound[t] == At(nodes + [node], i))
    {
      AddOwner(groups, ids, info, t);
    }
  }

  /** In a sound state the group with one reference left has the one thread that goes. */
  lemma {:induction false} LastThread(groups: seq<Group>, t: ThreadID)
    requires Sound(groups) && Owner(groups, t) < |groups|
    ensures groups[Owner(groups, t)].count >= 1
    ensures groups[Owner(groups, t)].count == 1 ==> groups[Owner(groups, t)].threads == {t}
  {
    SubsetSize({t}, groups[Owner(groups, t)].threads);
  }

  lemma {:induction false} RemoveOwner(groups: seq<Group>, t: ThreadID, u: ThreadID)
    requires Sound(groups) && Owner(groups, t) < |groups|
    ensures var i, j := Owner(groups, t), Owner(groups, u);
            Owner(RemoveOne(groups, t), u) ==
            if groups[i].count == 1 then if j < i then j else if j == i then |groups| - 1 else j - 1
            else if u == t then |groups| else j
  {
    LastThread(groups, t);
    var i, j := Owner(groups, t), Owner(groups, u);
    forall k | i < k < |groups|
      ensures groups[k].threads !! groups[i].threads
    {
      assert Apart(groups, i, k);
    }
    OwnerIs(RemoveOne(groups, t), u,
            if groups[i].count == 1 then if j < i then j else if j == i then |groups| - 1 else j - 1
            else if u == t then |groups| else j);
  }

  lemma {:induction false} RemoveIterators(nodes: seq<ConnectionNode>, groups: seq<Group>,
                                           m: map<ThreadID, Node?<Connection>>, t: ThreadID)
    requires IteratorsRight(nodes, groups, m) && Sound(groups) && t in m
    ensures var i := Owner(groups, t);
            IteratorsRight(if groups[i].count == 1 then RemovedAt(nodes, i) else nodes, RemoveOne(groups, t), m - {t})
  {
    if groups[Owner(groups, t)].count == 1 {
      RemoveLastIterator(nodes, groups, m, t);
    } else {
      RemoveOneIterator(nodes, groups, m, t);
    }
  }

  lemma {:induction false} RemoveOneIterator(nodes: seq<ConnectionNode>, groups: seq<Group>,
                                             m: map<ThreadID, Node?<Connection>>, t: ThreadID)
    requires IteratorsRight(nodes, groups, m) && Sound(groups) && t in m && groups[Owner(groups, t)].count != 1
    ensures IteratorsRight(nodes, RemoveOne(groups, t), m - {t})
  {
    forall u
      ensures Owner(RemoveOne(groups, t), u) == if u == t then |groups| else Owner(groups, u)
    {
      RemoveOwner(groups, t, u);
    }
  }

  lemma {:induction false} RemoveLastIterator(nodes: seq<ConnectionNode>, groups: seq<Group>,
                                              m: map<ThreadID, Node?<Connection>>, t: ThreadID)
    requires IteratorsRight(nodes, groups, m) && Sound(groups) && t in m && groups[Owner(groups, t)].count == 1
    ensures IteratorsRight(RemovedAt(nodes, Owner(groups, t)), RemoveOne(groups, t), m - {t})
  {
    var i, left := Owner(groups, t), RemovedAt(nodes, Owner(groups, t));
    forall u
      ensures var k := Owner(RemoveOne(groups, t), u);
              && (u in m - {t} <==> k < |left|)
              && (u in m - {t} ==> (m - {t})[u] == At(left, k))
    {
      LastOwner(groups, t, u);
      ShiftedAt(nodes, i, Owner(groups, u), Owner(RemoveOne(groups, t), u));
    }
  }

  lemma {:induction false} LastOwner(groups: seq<Group>, t: ThreadID, u: ThreadID)
    requires Sound(groups) && Owner(groups, t) < |groups| && groups[Owner(groups, t)].count == 1
    ensures var i, j := Owner(groups, t), Owner(groups, u);
            && (j == i <==> u == t)
            && Owner(RemoveOne(groups, t), u) == if j < i then j else if j == i then |groups| - 1 else j - 1
  {
    LastThread(groups, t);
    RemoveOwner(groups, t, u);
  }

  lemma {:induction false} ShiftedAt<T>(nodes: seq<Node<T>>, i: nat, j: nat, k: nat)
    requires i < |nodes| && j <= |nodes|
    requires k == if j < i then j else if j == i then |nodes| - 1 else j - 1
    ensures k < |nodes| - 1 <==> j != i && j < |nodes|
    ensures j != i ==> At(RemovedAt(nodes, i), k) == At(nodes, j)
  {
    RemovedElements(nodes, i);
  }

  lemma {:induction false} RemoveUnknown(groups: seq<Group>, t: ThreadID)
    requires t !in Threads(groups)
    ensures RemoveOne(groups, t) == groups
  {
    ThreadOwned(groups, t);
  }

  lemma {:induction false} StoredIterator(nodes: seq<ConnectionNode>, groups: seq<Group>,
                                          m: map<ThreadID, Node?<Connection>>, t: ThreadID)
    requires IteratorsRight(nodes, groups, m)
    ensures t in m <==> t in Threads(groups)
    ensures t in m ==> Owner(groups, t) < |nodes| && m[t] == nodes[Owner(groups, t)]
  {
    ThreadOwned(groups, t);
  }

  /** What registering a Hello list does to the list of connections and the table, taken together. */
  lemma {:induction false} AddState(nodes: seq<ConnectionNode>, groups: seq<Group>, m: map<ThreadID, Node?<Connection>>,
                                    node: ConnectionNode, ids: seq<ThreadID>, info: StreamInfo)
    requires Sound(groups) && ConnectionsRight(DataOf(nodes), groups) && IteratorsRight(nodes, groups, m)
    requires node.data == Connection(info, |ids|)
    ensures var added := Add(groups, ids, info);
            && Sound(added) && ConnectionsRight(DataOf(nodes + [node]), added)
            && IteratorsRight(nodes + [node], added, BindAll(m, ids, node))
  {
    AddSound(groups, ids, info);
    AddIterators(nodes, groups, m, node, ids, info, BindAll(m, ids, node));
  }

  /** The nodes hold the connections `was`, but for one reference less at position `i`. */
  ghost predicate Released(nodes: seq<ConnectionNode>, was: seq<Connection>, i: nat)
    reads nodes`data
  {
    && |nodes| == |was| && i < |was|
    && forall j :: 0 <= j < |was| ==>
                     nodes[j].data == Connection(was[j].info, was[j].referenceCount - if j == i then 1 else 0)
  }

  /** The nodes that stay in the list then: all, or all but the one at position `i` when that was its last reference. */
  ghost function Left(nodes: seq<ConnectionNode>, was: seq<Connection>, i: nat): (r: seq<ConnectionNode>)
    requires i < |nodes| == |was|
    ensures forall n :: n in r ==> n in nodes
  {
    if was[i].referenceCount == 1 then RemovedAt(nodes, i) else nodes
  }

  lemma {:induction false} RemoveConnections(nodes: seq<ConnectionNode>, was: seq<Connection>, groups: seq<Group>,
                                             t: ThreadID)
    requires ConnectionsRight(was, groups) && Owner(groups, t) < |groups|
    requires Released(nodes, was, Owner(groups, t))
    ensures ConnectionsRight(DataOf(Left(nodes, was, Owner(groups, t))), RemoveOne(groups, t))
  {
    RemovedElements(nodes, Owner(groups, t));
    var i, after := Owner(groups, t), RemoveOne(groups, t);
    var connections := DataOf(Left(nodes, was, i));
    forall j | 0 <= j < |after|
      ensures connections[j] == Connection(after[j].info, after[j].count)
    {
      assert j >= i && was[i].referenceCount == 1 ==> after[j] == groups[j + 1] && connections[j] == nodes[j + 1].data;
    }
  }

  /** What removing one thread does to the list of connections and the table, taken together. */
  lemma {:induction false} RemoveState(nodes: seq<ConnectionNode>, was: seq<Connection>, groups: seq<Group>,
                                       m: map<ThreadID, Node?<Connection>>, t: ThreadID)
    requires Sound(groups) && ConnectionsRight(was, groups) && IteratorsRight(nodes, groups, m) && t in m
    requires Released(nodes, was, Owner(groups, t))
    ensures var left, after := Left(nodes, was, Owner(groups, t)), RemoveOne(groups, t);
            Sound(after) && ConnectionsRight(DataOf(left), after) && IteratorsRight(left, after, m - {t})
  {
    hide Sound, IteratorsRight;
    StoredIterator(nodes, groups, m, t);
    RemoveIterators(nodes, groups, m, t);
    RemoveConnections(nodes, was, groups, t);
    RemoveOneIsSet(groups, t);
    RemoveSetThreads(groups, {t});
  }

  lemma {:induction false} DistinctOneMore(ids: seq<ThreadID>, i: nat)
    requires i < |ids| && DistinctIDs(ids[..i])
    ensures Elements(ids[..i + 1]) == Elements(ids[..i]) + {ids[i]} && Elements(ids[..i + 1]) <= Elements(ids)
    ensures DistinctIDs(ids[..i + 1]) <==> ids[i] !in Elements(ids[..i])
    ensures DistinctIDs(ids) ==> DistinctIDs(ids[..i + 1])
  {
    assert ids[..i + 1] == ids[..i] + [ids[i]];
    if ids[i] in ids[..i] {
      var j :| 0 <= j < i && ids[..i][j] == ids[i];
      assert ids[..i + 1][j] == ids[..i + 1][i];
    }
  }

  /** A removal goes on past position `i` exactly when the thread there is still registered. */
  lemma {:induction false} RemovableOneMore(groups: seq<Group>, ids: seq<ThreadID>, i: nat)
    requires i < |ids| && Sound(groups) && Removable(groups, ids[..i])
    ensures Removable(groups, ids[..i + 1]) <==> ids[i] in Threads(RemoveAll(groups, ids[..i]))
    ensures !Removable(groups, ids[..i + 1]) ==> !Removable(groups, ids)
  {
    hide Sound;
    RemoveAllIsSet(groups, ids[..i]);
    RemoveSetThreads(groups, Elements(ids[..i]));
    DistinctOneMore(ids, i);
  }

  lemma {:induction false} InfoOf(groups: seq<Group>, t: ThreadID)
    ensures t in InfoMap(groups) <==> Owner(groups, t) < |groups|
    ensures t in InfoMap(groups) ==> InfoMap(groups)[t] == groups[Owner(groups, t)].info
  {
    if groups == [] {
    } else {
      OwnersInRest(groups, t);
      InfoOf(groups[1..], t);
    }
  }

  // ----- the reference counts

  ghost function TotalReferences(connections: seq<Connection>): int {
    if connections == [] then 0 else connections[0].referenceCount + TotalReferences(connections[1..])
  }

  lemma {:induction false} ReferencesSumUp(connections: seq<Connection>, groups: seq<Group>)
    requires ConnectionsRight(connections, groups)
    ensures TotalReferences(connections) == TotalCount(groups)
  {
    if groups == [] {
    } else {
      ReferencesSumUp(connections[1..], groups[1..]);
    }
  }

  /** The threads whose stored iterator is `node`. */
  ghost function Referring(m: map<ThreadID, Node?<Connection>>, node: ConnectionNode): set<ThreadID> {
    set t | t in m && m[t] == node
  }

  lemma {:induction false} ReferringIs(nodes: seq<ConnectionNode>, groups: seq<Group>,
                                       m: map<ThreadID, Node?<Connection>>, i: nat)
    requires IteratorsRight(nodes, groups, m) && Sound(groups) && Distinct(nodes) && i < |nodes|
    ensures Referring(m, nodes[i]) == groups[i].threads
  {
    Differs(nodes, i);
    forall t | t in groups[i].threads
      ensures Owner(groups, t) == i
    {
      forall j | 0 <= j < i
        ensures t !in groups[j].threads
      {
        assert Apart(groups, j, i);
      }
      OwnerIs(groups, t, i);
    }
  }

  lemma {:induction false} AllRegistered(nodes: seq<ConnectionNode>, groups: seq<Group>,
                                         m: map<ThreadID, Node?<Connection>>)
    requires IteratorsRight(nodes, groups, m)
    ensures m.Keys == Threads(groups) && |m| == |Threads(groups)|
  {
    forall t
      ensures t in m.Keys <==> t in Threads(groups)
    {
      StoredIterator(nodes, groups, m, t);
    }
    assert |m| == |m.Keys|;
  }

  lemma {:induction false} RemoveNone(groups: seq<Group>, ids: seq<ThreadID>)
    ensures Removable(groups, ids[..0]) && RemoveAll(groups, ids[..0]) == groups
  {
  }

  class OtherServers {
    const mConnectionsList: LinkedList<Connection>
    const mThreadIDToStream: HashTable<ThreadID, Node?<Connection>>

    /** The abstract state. */
    ghost var groups: seq<Group>

    ghost function Connections(): seq<ConnectionNode>
      reads mConnectionsList`Nodes
    {
      mConnectionsList.Nodes
    }

    ghost predicate Valid()
      reads this, mConnectionsList, mConnectionsList.Nodes
      reads mThreadIDToStream, mThreadIDToStream.mTable, mThreadIDToStream.mKeysList, mThreadIDToStream.Owned
    {
      && mConnectionsList.Valid() && mThreadIDToStream.Valid()
      && Sound(groups)
      && ConnectionsRight(DataOf(Connections()), groups)
      && IteratorsRight(Connections(), groups, mThreadIDToStream.Model())
    }

    constructor (tableSize: nat)
      requires tableSize > 0
      ensures Valid() && groups == []
      ensures fresh(mConnectionsList) && fresh(mThreadIDToStream) && fresh(mThreadIDToStream.mTable)
      ensures fresh(mThreadIDToStream.mKeysList) && fresh(mThreadIDToStream.Owned)
    {
      mConnectionsList := new LinkedList<Connection>();
      mThreadIDToStream := new HashTable<ThreadID, Node?<Connection>>(tableSize, (t: ThreadID) => t, null);
      groups := [];
    }

    method AddThreads(threadsToAdd: seq<ThreadID>, info: StreamInfo) returns (ghost node: ConnectionNode)
      requires Valid()
      modifies this, mConnectionsList, Connections()`next, Connections()`previous
      modifies mThreadIDToStream, mThreadIDToStream.mTable, mThreadIDToStream.mKeysList, mThreadIDToStream.Owned
      ensures Valid() && fresh(mThreadIDToStream.Owned - old(mThreadIDToStream.Owned))
      ensures groups == Add(old(groups), threadsToAdd, info)
      ensures fresh(node) && Connections() == old(Connections()) + [node]
    {
      hide LinkedList.Valid, HashTable.Valid, ConnectionsRight, IteratorsRight, Sound, IsData, Add;
      ghost var nodes, was, m := Connections(), groups, mThreadIDToStream.Model();
      groups := Add(groups, threadsToAdd, info);
      node := Connect(threadsToAdd, info);
      assert mConnectionsList.Valid() && mThreadIDToStream.Valid();
      AddState(nodes, was, m, node, threadsToAdd, info);
    }

    /** The statements of `addThreads`: what they do to the list and the table. */
    method Connect(threadsToAdd: seq<ThreadID>, info: StreamInfo) returns (beforeEnd: ConnectionNode)
      requires mConnectionsList.Valid() && mThreadIDToStream.Valid()
      modifies mConnectionsList, Connections()`next, Connections()`previous
      modifies mThreadIDToStream, mThreadIDToStream.mTable, mThreadIDToStream.mKeysList, mThreadIDToStream.Owned
      ensures mConnectionsList.Valid() && mThreadIDToStream.Valid()
      ensures fresh(mThreadIDToStream.Owned - old(mThreadIDToStream.Owned))
      ensures fresh(beforeEnd) && beforeEnd.data == Connection(info, |threadsToAdd|)
      ensures Connections() == old(Connections()) + [beforeEnd]
      ensures mThreadIDToStream.Model() == BindAll(old(mThreadIDToStream.Model()), threadsToAdd, beforeEnd)
    {
      hide LinkedList.Valid, HashTable.Valid, IsData;
      var _ := mConnectionsList.EmplaceBack(Connection(info, |threadsToAdd|));
      beforeEnd := mConnectionsList.mBeforeEnd;
      BindThreads(mThreadIDToStream, threadsToAdd, beforeEnd);
    }

    /** The loop of `addThreads`. */
    static method BindThreads(table: HashTable<ThreadID, Node?<Connection>>, ids: seq<ThreadID>,
                              node: Node?<Connection>)
      requires table.Valid()
      modifies table, table.mTable, table.mKeysList, table.Owned
      ensures table.Valid() && fresh(table.Owned - old(table.Owned))
      ensures table.Model() == BindAll(old(table.Model()), ids, node)
    {
      hide HashTable.IndexValid;
      for i := 0 to |ids|
        invariant table.Valid() && fresh(table.Owned - old(table.Owned))
        invariant table.Model() == BindAll(old(table.Model()), ids[..i], node)
      {
        table.IndexAssign(ids[i], node);
        BindOneMore(old(table.Model()), ids[..i], ids[i], node);
        assert ids[..i + 1] == ids[..i] + [ids[i]];
      }
      assert ids[..|ids|] == ids;
    }

    /** One round of `removeThreads`. `ok` is false when the thread is not found: the source then goes through
        `end()`. */
    method RemoveThread(threadID: ThreadID) returns (ok: bool)
      requires Valid()
      modifies this, mConnectionsList, Connections()
      modifies mThreadIDToStream.mTable, mThreadIDToStream.mKeysList, mThreadIDToStream.Owned
      ensures Valid()
      ensures ok <==> threadID in Threads(old(groups))
      ensures groups == RemoveOne(old(groups), threadID)
      ensures forall n :: n in Connections() ==> n in old(Connections())
    {
      hide LinkedList.Valid, HashTable.Valid, IteratorsRight, ConnectionsRight, Sound, Left, Released, RemoveOne,
           IsData, IsOwner;
      ghost var i := Owner(groups, threadID);
      StoredIterator(Connections(), groups, mThreadIDToStream.Model(), threadID);
      var theradIDIterator := mThreadIDToStream.Find(threadID);
      if theradIDIterator == null {
        RemoveUnknown(groups, threadID);
        return false;
      }
      groups := RemoveOne(groups, threadID);
      ghost var nodes, was, m := Connections(), DataOf(Connections()), mThreadIDToStream.Model();
      Disconnect(theradIDIterator, i);
      assert mConnectionsList.Valid() && mThreadIDToStream.Valid();
      RemoveState(nodes, was, old(groups), m, threadID);
      return true;
    }

    /** The statements of that round, once the thread is found. */
    method Disconnect(theradIDIterator: Node<Entry<ThreadID, Node?<Connection>>>, ghost i: nat)
      requires mConnectionsList.Valid() && mThreadIDToStream.Valid()
      requires theradIDIterator in mThreadIDToStream.Nodes()
      requires i < |Connections()| && theradIDIterator.data.second == Connections()[i]
      modifies mConnectionsList, Connections()
      modifies mThreadIDToStream.mTable, mThreadIDToStream.mKeysList, mThreadIDToStream.Owned
      ensures mConnectionsList.Valid() && mThreadIDToStream.Valid()
      ensures Released(old(Connections()), old(DataOf(Connections())), i)
      ensures Connections() == Left(old(Connections()), old(DataOf(Connections())), i)
      ensures mThreadIDToStream.Model() == old(mThreadIDToStream.Model()) - {old(theradIDIterator.data.first)}
    {
      hide LinkedList.Valid, HashTable.IndexValid, Released, Left, Binds, IsData;
      Release(mConnectionsList, theradIDIterator.data.second, i);
      ghost var k :| 0 <= k < |mThreadIDToStream.Nodes()| && mThreadIDToStream.Nodes()[k] == theradIDIterator;
      var _ := mThreadIDToStream.Erase(theradIDIterator, k);
    }

    static method Release(list: LinkedList<Connection>, connection: ConnectionNode, ghost i: nat)
      requires list.Valid()
      requires i < |list.Nodes| && connection == list.Nodes[i]
      modifies list, list.Nodes
      ensures list.Valid()
      ensures Released(old(list.Nodes), old(DataOf(list.Nodes)), i)
      ensures list.Nodes == Left(old(list.Nodes), old(DataOf(list.Nodes)), i)
    {
      Differs(list.Nodes, i);
      var currentCount := connection.data.referenceCount - 1;
      connection.data := connection.data.(referenceCount := currentCount);
      if currentCount == 0 {
        var _ := list.Erase(connection, i);
      }
    }

    /** `ok` is false when the source would go through `end()`: exactly when the list names a thread that is not
        registered, or one that it has named before. */
    method RemoveThreads(threadsToRemove: seq<ThreadID>) returns (ok: bool)
      requires Valid()
      modifies this, mConnectionsList, Connections()
      modifies mThreadIDToStream.mTable, mThreadIDToStream.mKeysList, mThreadIDToStream.Owned
      ensures Valid()
      ensures ok <==> Removable(old(groups), threadsToRemove)
      ensures ok ==> groups == RemoveAll(old(groups), threadsToRemove)
      ensures forall n :: n in Connections() ==> n in old(Connections())
    {
      ghost var was, nodes := groups, Connections();
      assert Sound(was);
      hide OtherServers.Valid, Sound, Removable, RemoveAll;
      RemoveNone(was, threadsToRemove);
      for i := 0 to |threadsToRemove|
        invariant Valid() && Removable(was, threadsToRemove[..i]) && groups == RemoveAll(was, threadsToRemove[..i])
        invariant forall n :: n in Connections() ==> n in nodes
      {
        ghost var left := Connections();
        assert forall j :: 0 <= j < |left| ==> left[j] in nodes;
        ok := RemoveRound(threadsToRemove, i, was);
        if !ok {
          return;
        }
      }
      assert threadsToRemove[..|threadsToRemove|] == threadsToRemove;
      ok := true;
    }

    /** The round for position `i`, in a removal that began with the groups `was`. */
    method RemoveRound(threadsToRemove: seq<ThreadID>, i: nat, ghost was: seq<Group>) returns (ok: bool)
      requires Valid() && i < |threadsToRemove| && Sound(was)
      requires Removable(was, threadsToRemove[..i]) && groups == RemoveAll(was, threadsToRemove[..i])
      modifies this, mConnectionsList, Connections()
      modifies mThreadIDToStream.mTable, mThreadIDToStream.mKeysList, mThreadIDToStream.Owned
      ensures Valid() && mThreadIDToStream.Owned == old(mThreadIDToStream.Owned)
      ensures ok ==> Removable(was, threadsToRemove[..i + 1]) && groups == RemoveAll(was, threadsToRemove[..i + 1])
      ensures !ok ==> !Removable(was, threadsToRemove)
      ensures forall n :: n in Connections() ==> n in old(Connections())
    {
      hide OtherServers.Valid, Sound, Removable;
      RemovableOneMore(was, threadsToRemove, i);
      assert threadsToRemove[..i + 1][..i] == threadsToRemove[..i];
      ok := RemoveThread(threadsToRemove[i]);
    }

    /** `None` is the error `InvalidThreadID`. */
    method FindThreadStreamInfo(threadID: ThreadID) returns (r: Option<StreamInfo>)
      requires Valid()
      ensures r == if threadID in InfoMap(groups) then Some(InfoMap(groups)[threadID]) else None
    {
      hide LinkedList.Valid, HashTable.Valid, Sound;
      StoredIterator(Connections(), groups, mThreadIDToStream.Model(), threadID);
      InfoOf(groups, threadID);
      var it := mThreadIDToStream.Find(threadID);
      if it == null {
        return None;
      }
      return Some(it.data.second.data.info);
    }

    /** The walk of `sendToAll`: the address of every connection, in the order of the list. */
    method SendToAll() returns (receivers: seq<StreamInfo>)
      requires Valid()
      ensures |receivers| == |groups| && forall i :: 0 <= i < |groups| ==> receivers[i] == groups[i].info
    {
      receivers := [];
      var it := mConnectionsList.mBegin;
      while it != null
        invariant |receivers| <= |groups| && it == At(Connections(), |receivers|)
        invariant forall i :: 0 <= i < |receivers| ==> receivers[i] == groups[i].info
        decreases |groups| - |receivers|
      {
        receivers := receivers + [it.data.info];
        it := it.next;
      }
    }

    /** With exact groups the reference counts are exact: every node of the list counts the threads whose stored
        iterator is that node, and there is one at least; every stored iterator is a node of the list; and all
        counts together make the number of registered threads. */
    lemma {:induction false} CountsExact()
      requires Valid() && Exact(groups)
      ensures var m := mThreadIDToStream.Model();
              && (forall n :: n in Connections() ==> n.data.referenceCount == |Referring(m, n)| > 0)
              && (forall t :: t in m ==> m[t] in Connections())
              && TotalReferences(DataOf(Connections())) == |m|
    {
      hide HashTable.Valid;
      var m := mThreadIDToStream.Model();
      forall i | 0 <= i < |Connections()|
        ensures Connections()[i].data.referenceCount == |Referring(m, Connections()[i])| > 0
      {
        ReferringIs(Connections(), groups, m, i);
      }
      forall t | t in m
        ensures m[t] in Connections()
      {
        StoredIterator(Connections(), groups, m, t);
      }
      AllRegistered(Connections(), groups, m);
      ReferencesSumUp(DataOf(Connections()), groups);
      CountsSumUp(groups);
    }
  }
}
