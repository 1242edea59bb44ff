/** The process peers server of Core/Common/ProcessPeersServer.hpp and .cpp: the messages of other peers, and the
    thread IDs it announces itself. Every handler holds the lock of the registry for its whole run, so it is one
    step here. */
module PeersServer {
  import opened LinkedLists
  import opened KeyIndex
  import opened HashTables
  import opened Registry
  import opened RegistryRuns
  import opened Fates
  import opened Peers

  /** The keys of the entries, in the order of the list. */
  ghost function KeysOf<K, V>(entries: seq<Entry<K, V>>): (keys: seq<K>)
    ensures |keys| == |entries| && forall i :: 0 <= i < |keys| ==> keys[i] == entries[i].first
  {
    seq(|entries|, i requires 0 <= i < |entries| => entries[i].first)
  }

  /** Iterating over the keys of a table gives every key of the map once. */
  lemma {:induction false} KeysOnce<V>(entries: seq<Entry<ThreadID, V>>)
    requires DistinctKeys(entries)
    ensures DistinctIDs(KeysOf(entries))
    ensures Elements(KeysOf(entries)) == MapOf(entries).Keys
    ensures |entries| == |MapOf(entries)|
  {
    var keys := KeysOf(entries);
    MapSize(entries);
    forall i, j | 0 <= i < j < |keys|
      ensures keys[i] != keys[j]
    {
      assert KeysDiffer(entries, i, j);
    }
    forall t
      ensures t in Elements(keys) <==> t in MapOf(entries).Keys
    {
      if t in MapOf(entries) {
        assert keys[Scan(entries, t)] == t;
      }
    }
  }

  /** A peer announces its threads with a list that names each once, and takes leave with the same threads in any
      order. A registry that knows none of them accepts both messages. It then is as it was if and only if the list
      names a thread: a peer without threads leaves its connection behind. */
  lemma {:induction false} AnnouncedFresh(groups: seq<Group>, ids: seq<ThreadID>, info: StreamInfo,
                                          leaving: seq<ThreadID>)
    requires DistinctIDs(ids) && Elements(ids) !! Threads(groups)
    requires Sound(groups) && multiset(ids) == multiset(leaving)
    ensures Legal(groups, [Hello(ids, info), Goodbye(leaving)])
    ensures ReceiveAll(groups, [Hello(ids, info), Goodbye(leaving)]) ==
            if ids == [] then groups + [Group(info, 0, {})] else groups
  {
    hide Sound, Threads, Add, RemoveAll;
    var added := Add(groups, ids, info);
    AddSound(groups, ids, info);
    if ids == [] {
      AddNothing(groups, info);
    } else {
      AddThenRemove(groups, ids, info);
    }
    RemoveAllPermuted(added, ids, leaving);
    TwoMessages(groups, Hello(ids, info), Goodbye(leaving));
  }

  lemma {:induction false} AddNothing(groups: seq<Group>, info: StreamInfo)
    ensures Add(groups, [], info) == groups + [Group(info, 0, {})]
    ensures Removable(Add(groups, [], info), []) && RemoveAll(Add(groups, [], info), []) == Add(groups, [], info)
  {
    assert Elements([]) == {};
    ForgetMisses(groups, {});
  }

  lemma {:induction false} TwoMessages(groups: seq<Group>, m: PeerMessage, n: PeerMessage)
    requires m.Hello? && n.Goodbye?
    ensures Legal(groups, [m, n]) <==> Removable(Receive(groups, m), n.ids)
    ensures ReceiveAll(groups, [m, n]) == Receive(Receive(groups, m), n)
  {
    hide Receive, Removable;
    assert [m, n][1..] == [n] && [n][1..] == [];
    var once, twice := Receive(groups, m), Receive(Receive(groups, m), n);
    assert ReceiveAll(twice, []) == twice && ReceiveAll(once, [n]) == ReceiveAll(twice, []);
    assert Legal(twice, []) && (Legal(once, [n]) <==> Removable(once, n.ids));
  }

  class ProcessPeersServer<LocalThread> {
    const mOtherServers: OtherServers
    const mProcessLocalThreads: HashTable<ThreadID, LocalThread>

    constructor (otherServers: OtherServers, processLocalThreads: HashTable<ThreadID, LocalThread>)
      ensures mOtherServers == otherServers && mProcessLocalThreads == processLocalThreads
    {
      mOtherServers, mProcessLocalThreads := otherServers, processLocalThreads;
    }

    /** The counting pass over the key iterators. */
    method IteratorsRange() returns (count: nat)
      requires mProcessLocalThreads.Valid()
      ensures count == |mProcessLocalThreads.Nodes()|
    {
      var it := mProcessLocalThreads.mKeysList.mBegin;
      count := 0;
      while it != null
        invariant count <= |mProcessLocalThreads.Nodes()| && it == At(mProcessLocalThreads.Nodes(), count)
        decreases |mProcessLocalThreads.Nodes()| - count
      {
        count := count + 1;
        it := it.next;
      }
    }

    /** Count the local threads, make room for so many, and copy their IDs: every registered ID is there once. */
    method GetProcessThreadIDs() returns (ids: array<ThreadID>)
      requires mProcessLocalThreads.Valid()
      ensures fresh(ids)
      ensures DistinctIDs(ids[..]) && Elements(ids[..]) == mProcessLocalThreads.Model().Keys
      ensures ids.Length == |mProcessLocalThreads.Model()|
      ensures ids[..] == KeysOf(mProcessLocalThreads.Entries())
    {
      hide Indexes, Distinct, PreviousLinked, Binds;
      mProcessLocalThreads.KeysDistinct();
      var count := IteratorsRange();
      ids := new ThreadID[count];
      ghost var entries := mProcessLocalThreads.Entries();
      var i := 0;
      var it := mProcessLocalThreads.mKeysList.mBegin;
      while it != null
        invariant i <= count && it == At(mProcessLocalThreads.Nodes(), i)
        invariant forall j :: 0 <= j < i ==> ids[j] == entries[j].first
        decreases count - i
      {
        ids[i] := it.data.first;
        i := i + 1;
        it := it.next;
      }
      assert ids[..] == KeysOf(entries);
      KeysOnce(entries);
    }

    method OnHelloReceived(info: StreamInfo, newThreads: seq<ThreadID>)
      requires mOtherServers.Valid()
      modifies mOtherServers, mOtherServers.mConnectionsList, mOtherServers.Connections()
      modifies mOtherServers.mThreadIDToStream, mOtherServers.mThreadIDToStream.mTable,
               mOtherServers.mThreadIDToStream.mKeysList
      modifies mOtherServers.mThreadIDToStream.Owned
      ensures mOtherServers.Valid()
      ensures fresh(mOtherServers.mThreadIDToStream.Owned - old(mOtherServers.mThreadIDToStream.Owned))
      ensures forall n :: n in mOtherServers.Connections() ==> n in old(mOtherServers.Connections()) || fresh(n)
      ensures mOtherServers.groups == Receive(old(mOtherServers.groups), Hello(newThreads, info))
    {
      var _ := mOtherServers.AddThreads(newThreads, info);
    }

    /** `ok` is false when the source would go through `end()`. */
    method OnGoodbyeReceived(leavingThreads: seq<ThreadID>) returns (ok: bool)
      requires mOtherServers.Valid()
      modifies mOtherServers, mOtherServers.mConnectionsList, mOtherServers.Connections()
      modifies mOtherServers.mThreadIDToStream.mTable, mOtherServers.mThreadIDToStream.mKeysList
      modifies mOtherServers.mThreadIDToStream.Owned
      ensures mOtherServers.Valid()
      ensures mOtherServers.mThreadIDToStream.Owned == old(mOtherServers.mThreadIDToStream.Owned)
      ensures forall n :: n in mOtherServers.Connections() ==> n in old(mOtherServers.Connections())
      ensures ok <==> Removable(old(mOtherServers.groups), leavingThreads)
      ensures ok ==> mOtherServers.groups == Receive(old(mOtherServers.groups), Goodbye(leavingThreads))
    {
      ok := mOtherServers.RemoveThreads(leavingThreads);
    }

    method ReceiveMessage(m: PeerMessage) returns (ok: bool)
      requires mOtherServers.Valid()
      modifies mOtherServers, mOtherServers.mConnectionsList, mOtherServers.Connections()
      modifies mOtherServers.mThreadIDToStream, mOtherServers.mThreadIDToStream.mTable,
               mOtherServers.mThreadIDToStream.mKeysList
      modifies mOtherServers.mThreadIDToStream.Owned
      ensures mOtherServers.Valid()
      ensures fresh(mOtherServers.mThreadIDToStream.Owned - old(mOtherServers.mThreadIDToStream.Owned))
      ensures forall n :: n in mOtherServers.Connections() ==> n in old(mOtherServers.Connections()) || fresh(n)
      ensures ok <==> m.Goodbye? ==> Removable(old(mOtherServers.groups), m.ids)
      ensures ok ==> mOtherServers.groups == Receive(old(mOtherServers.groups), m)
    {
      ok := true;
      match m
      case Hello(ids, info) => OnHelloReceived(info, ids);
      case Goodbye(ids) => ok := OnGoodbyeReceived(ids);
    }

    /** Any run of messages. It goes through, without an access through `end()`, exactly when it is legal. The
        table then is the plain map from threads to addresses. The connections are those of before and one for
        each Hello, in order of arrival, each as its threads have left it. From exact counts, the counts are exact
        again, and the groups are those of the surviving Hellos, if and only if the run was orderly. */
    method ReceiveMessages(ms: seq<PeerMessage>) returns (ok: bool)
      requires mOtherServers.Valid()
      modifies mOtherServers, mOtherServers.mConnectionsList, mOtherServers.Connections()
      modifies mOtherServers.mThreadIDToStream, mOtherServers.mThreadIDToStream.mTable,
               mOtherServers.mThreadIDToStream.mKeysList
      modifies mOtherServers.mThreadIDToStream.Owned
      ensures mOtherServers.Valid()
      ensures ok <==> Legal(old(mOtherServers.groups), ms)
      ensures ok ==> mOtherServers.groups == ReceiveAll(old(mOtherServers.groups), ms)
      ensures ok ==> InfoMap(mOtherServers.groups) == MapReceiveAll(InfoMap(old(mOtherServers.groups)), ms)
      ensures ok ==> mOtherServers.groups == AllFates(old(mOtherServers.groups), ms) + Arrivals(ms)
      ensures Orderly(old(mOtherServers.groups), ms) ==> ok
      ensures ok ==> (Exact(mOtherServers.groups) <==>
                      Exact(old(mOtherServers.groups)) && Orderly(old(mOtherServers.groups), ms))
      ensures ok && Exact(old(mOtherServers.groups)) ==>
                (mOtherServers.groups == RemoveSet(old(mOtherServers.groups), Leaving(ms)) + Surviving(ms) <==>
                 Orderly(old(mOtherServers.groups), ms))
    {
      assert Sound(mOtherServers.groups);
      hide OtherServers.Valid;
      ok := RunMessages(ms);
      if Legal(old(mOtherServers.groups), ms) {
        RunRefinesMap(old(mOtherServers.groups), ms);
        RunExactly(old(mOtherServers.groups), ms);
        RunFates(old(mOtherServers.groups), ms);
        if Exact(old(mOtherServers.groups)) {
          RunSurvivorsExactly(old(mOtherServers.groups), ms);
        }
      }
      if Orderly(old(mOtherServers.groups), ms) {
        OrderlyLegal(old(mOtherServers.groups), ms);
      }
    }

    method RunMessages(ms: seq<PeerMessage>) returns (ok: bool)
      requires mOtherServers.Valid()
      modifies mOtherServers, mOtherServers.mConnectionsList, mOtherServers.Connections()
      modifies mOtherServers.mThreadIDToStream, mOtherServers.mThreadIDToStream.mTable,
               mOtherServers.mThreadIDToStream.mKeysList
      modifies mOtherServers.mThreadIDToStream.Owned
      ensures mOtherServers.Valid()
      ensures ok <==> Legal(old(mOtherServers.groups), ms)
      ensures ok ==> mOtherServers.groups == ReceiveAll(old(mOtherServers.groups), ms)
    {
      hide OtherServers.Valid;
      for i := 0 to |ms|
        invariant mOtherServers.Valid()
        invariant fresh(mOtherServers.mThreadIDToStream.Owned - old(mOtherServers.mThreadIDToStream.Owned))
        invariant forall n :: n in mOtherServers.Connections() ==> n in old(mOtherServers.Connections()) || fresh(n)
        invariant Legal(mOtherServers.groups, ms[i..]) <==> Legal(old(mOtherServers.groups), ms)
        invariant ReceiveAll(mOtherServers.groups, ms[i..]) == ReceiveAll(old(mOtherServers.groups), ms)
      {
        assert ms[i..][0] == ms[i] && ms[i..][1..] == ms[i + 1..];
        ghost var nodes := mOtherServers.Connections();
        assert forall j :: 0 <= j < |nodes| ==> nodes[j] in old(mOtherServers.Connections()) || fresh(nodes[j]);
        ok := ReceiveMessage(ms[i]);
        if !ok {
          return;
        }
      }
      ok := true;
    }
  }
}
