/** Whole runs of the peer registry: any interleaving of Hello and Goodbye messages. */
module RegistryRuns {
  import opened Registry

  datatype PeerMessage =
    | Hello(ids: seq<ThreadID>, info: StreamInfo)
    | Goodbye(ids: seq<ThreadID>)

  ghost function Receive(groups: seq<Group>, m: PeerMessage): seq<Group> {
    match m
    case Hello(ids, info) => Add(groups, ids, info)
    case Goodbye(ids) => RemoveAll(groups, ids)
  }

  ghost function ReceiveAll(groups: seq<Group>, ms: seq<PeerMessage>): seq<Group>
    decreases |ms|
  {
    if ms == [] then groups else ReceiveAll(Receive(groups, ms[0]), ms[1..])
  }

  /** Every Goodbye names registered threads, none twice. There is no condition on a Hello. */
  ghost predicate Legal(groups: seq<Group>, ms: seq<PeerMessage>)
    decreases |ms|
  {
    ms == [] || ((ms[0].Goodbye? ==> Removable(groups, ms[0].ids)) && Legal(Receive(groups, ms[0]), ms[1..]))
  }

  // ----- the registry as a plain map

  ghost function Bind(ids: set<ThreadID>, info: StreamInfo): map<ThreadID, StreamInfo> {
    map t | t in ids :: info
  }

  /** Where each registered thread is found. */
  ghost function InfoMap(groups: seq<Group>): map<ThreadID, StreamInfo> {
    if groups == [] then map[] else InfoMap(groups[1..]) + Bind(groups[0].threads, groups[0].info)
  }

  ghost function MapReceive(m: map<ThreadID, StreamInfo>, msg: PeerMessage): map<ThreadID, StreamInfo> {
    match msg
    case Hello(ids, info) => m + Bind(Elements(ids), info)
    case Goodbye(ids) => m - Elements(ids)
  }

  ghost function MapReceiveAll(m: map<ThreadID, StreamInfo>, ms: seq<PeerMessage>): map<ThreadID, StreamInfo>
    decreases |ms|
  {
    if ms == [] then m else MapReceiveAll(MapReceive(m, ms[0]), ms[1..])
  }

  lemma {:induction false} InfoMapKeys(groups: seq<Group>)
    ensures InfoMap(groups).Keys == Threads(groups)
  {
    if groups == [] {
    } else {
      InfoMapKeys(groups[1..]);
    }
  }

  lemma {:induction false} BindAround(m: map<ThreadID, StreamInfo>, s: set<ThreadID>, i: StreamInfo,
                                      t: set<ThreadID>, j: StreamInfo)
    ensures m + Bind(s, i) + Bind(t - s, j) == m + Bind(t, j) + Bind(s, i)
  {
  }

  lemma {:induction false} BindLess(m: map<ThreadID, StreamInfo>, s: set<ThreadID>, t: set<ThreadID>, j: StreamInfo)
    ensures m - s + Bind(t - s, j) == m + Bind(t, j) - s
  {
  }

  lemma {:induction false} InfoMapAdd(groups: seq<Group>, g: Group)
    ensures InfoMap(Forget(groups, g.threads) + [g]) == InfoMap(groups) + Bind(g.threads, g.info)
  {
    var forgot := Forget(groups, g.threads);
    if groups == [] {
      assert (forgot + [g])[1..] == [];
    } else {
      InfoMapAdd(groups[1..], g);
      assert (forgot + [g])[1..] == Forget(groups[1..], g.threads) + [g];
      BindAround(InfoMap(groups[1..]), g.threads, g.info, groups[0].threads, groups[0].info);
    }
  }

  lemma {:induction false} BindNone(m: map<ThreadID, StreamInfo>, i: StreamInfo)
    ensures m + Bind({}, i) == m
  {
  }

  lemma {:induction false} CountEnough(groups: seq<Group>)
    requires Sound(groups) && groups != []
    ensures |groups[0].threads| <= groups[0].count
  {
  }

  lemma {:induction false} InfoMapRemove(groups: seq<Group>, ids: set<ThreadID>)
    requires Sound(groups)
    ensures InfoMap(RemoveSet(groups, ids)) == InfoMap(groups) - ids
  {
    hide Sound, Bind;
    if groups == [] {
    } else {
      var g, rest := groups[0], RemoveSet(groups[1..], ids);
      assert |g.threads| <= g.count by {
        CountEnough(groups);
      }
      HeadApart(groups);
      InfoMapRemove(groups[1..], ids);
      CutThreads(g, ids);
      BindLess(InfoMap(groups[1..]), ids, g.threads, g.info);
      if Cut(g, ids) == [] {
        assert RemoveSet(groups, ids) == rest;
        BindNone(InfoMap(rest), g.info);
      } else {
        assert RemoveSet(groups, ids)[1..] == rest;
      }
    }
  }

  lemma {:induction false} ReceiveKeeps(groups: seq<Group>, m: PeerMessage)
    requires Sound(groups) && (m.Goodbye? ==> Removable(groups, m.ids))
    ensures Sound(Receive(groups, m))
    ensures InfoMap(Receive(groups, m)) == MapReceive(InfoMap(groups), m)
  {
    match m
    case Hello(ids, info) =>
      AddSound(groups, ids, info);
      InfoMapAdd(groups, Group(info, |ids|, Elements(ids)));
    case Goodbye(ids) =>
      RemoveAllIsSet(groups, ids);
      RemoveSetThreads(groups, Elements(ids));
      InfoMapRemove(groups, Elements(ids));
  }

  /** Over every run, whatever the Hello lists say, the registry is a plain map from threads to addresses, and no count
      falls below the number of threads that rely on it. */
  lemma {:induction false} RunRefinesMap(groups: seq<Group>, ms: seq<PeerMessage>)
    requires Sound(groups) && Legal(groups, ms)
    ensures Sound(ReceiveAll(groups, ms))
    ensures InfoMap(ReceiveAll(groups, ms)) == MapReceiveAll(InfoMap(groups), ms)
    decreases |ms|
  {
    if ms == [] {
    } else {
      ReceiveKeeps(groups, ms[0]);
      RunRefinesMap(Receive(groups, ms[0]), ms[1..]);
    }
  }

  // ----- the connections that are left

  /** Every Hello list is fresh when it arrives, and every Goodbye list removable. */
  ghost predicate Orderly(groups: seq<Group>, ms: seq<PeerMessage>)
    decreases |ms|
  {
    || ms == []
    || (&& (if ms[0].Hello? then Fresh(groups, ms[0].ids) else Removable(groups, ms[0].ids))
        && Orderly(Receive(groups, ms[0]), ms[1..]))
  }

  lemma {:induction false} OrderlyLegal(groups: seq<Group>, ms: seq<PeerMessage>)
    requires Orderly(groups, ms)
    ensures Legal(groups, ms)
    decreases |ms|
  {
    if ms != [] {
      OrderlyLegal(Receive(groups, ms[0]), ms[1..]);
    }
  }

  ghost function Leaving(ms: seq<PeerMessage>): set<ThreadID> {
    if ms == [] then {}
    else (if ms[0].Goodbye? then Elements(ms[0].ids) else {}) + Leaving(ms[1..])
  }

  /** The entry of a Hello when the threads in `gone` have left: none if it has no others. */
  ghost function Survivor(ids: seq<ThreadID>, info: StreamInfo, gone: set<ThreadID>): seq<Group> {
    var left := Elements(ids) - gone;
    if left == {} then [] else [Group(info, |left|, left)]
  }

  /** For every Hello of the run, in order of arrival, the threads of its list that no later Goodbye names; a Hello
      with no such thread is left out. */
  ghost function Surviving(ms: seq<PeerMessage>): seq<Group> {
    if ms == [] then []
    else
      (match ms[0]
       case Hello(ids, info) => Survivor(ids, info, Leaving(ms[1..]))
       case Goodbye(_) => []) + Surviving(ms[1..])
  }

  lemma {:induction false} CutSurvivor(ids: seq<ThreadID>, info: StreamInfo, gone: set<ThreadID>)
    requires ids != [] && DistinctIDs(ids)
    ensures RemoveSet([Group(info, |ids|, Elements(ids))], gone) == Survivor(ids, info, gone)
  {
    var all, g := Elements(ids), Group(info, |ids|, Elements(ids));
    ElementsSize(ids);
    assert ids[0] in all;
    CutAll(g, gone);
    assert [g][1..] == [] && RemoveSet([], gone) == [];
  }

  /** A group with exact counts goes when all its threads leave. */
  lemma {:induction false} CutAll(g: Group, gone: set<ThreadID>)
    requires g.count == |g.threads| > 0
    ensures var left := g.threads - gone;
            Cut(g, gone) == if left == {} then [] else [Group(g.info, |left|, left)]
  {
    var hit, left := g.threads * gone, g.threads - gone;
    SubsetSize(hit, g.threads);
    assert left == g.threads - hit;
    if left == {} {
      assert hit == g.threads;
    } else {
      assert |hit| < |g.threads|;
    }
  }

  lemma {:induction false} HelloSurvivors(groups: seq<Group>, ids: seq<ThreadID>, info: StreamInfo, gone: set<ThreadID>)
    requires Fresh(groups, ids)
    ensures RemoveSet(Add(groups, ids, info), gone) == RemoveSet(groups, gone) + Survivor(ids, info, gone)
  {
    ForgetMisses(groups, Elements(ids));
    RemoveSetJoin(groups, [Group(info, |ids|, Elements(ids))], gone);
    CutSurvivor(ids, info, gone);
  }

  lemma {:induction false} RunCons(m: PeerMessage, rest: seq<PeerMessage>)
    ensures m.Hello? ==> Leaving([m] + rest) == Leaving(rest)
    ensures m.Hello? ==> Surviving([m] + rest) == Survivor(m.ids, m.info, Leaving(rest)) + Surviving(rest)
    ensures m.Goodbye? ==> Leaving([m] + rest) == Elements(m.ids) + Leaving(rest)
    ensures m.Goodbye? ==> Surviving([m] + rest) == Surviving(rest)
  {
    assert ([m] + rest)[1..] == rest;
  }

  lemma {:induction false} StepSurvivors(groups: seq<Group>, m: PeerMessage, rest: seq<PeerMessage>)
    requires Sound(groups)
    requires if m.Hello? then Fresh(groups, m.ids) else Removable(groups, m.ids)
    ensures RemoveSet(Receive(groups, m), Leaving(rest)) + Surviving(rest) ==
            RemoveSet(groups, Leaving([m] + rest)) + Surviving([m] + rest)
  {
    hide Sound, RemoveSet, Add, RemoveAll, Surviving, Leaving, Survivor;
    RunCons(m, rest);
    if m.Hello? {
      HelloSurvivors(groups, m.ids, m.info, Leaving(rest));
    } else {
      RemoveAllIsSet(groups, m.ids);
      RemoveSetTwice(groups, Elements(m.ids), Leaving(rest));
    }
  }

  lemma {:induction false} ReceiveExact(groups: seq<Group>, m: PeerMessage)
    requires Sound(groups) && Exact(groups)
    requires if m.Hello? then Fresh(groups, m.ids) else Removable(groups, m.ids)
    ensures Exact(Receive(groups, m))
  {
    match m
    case Hello(ids, info) => AddExact(groups, ids, info);
    case Goodbye(ids) =>
      RemoveAllIsSet(groups, ids);
      RemoveExact(groups, Elements(ids));
  }

  lemma {:induction false} NoMessages()
    ensures Leaving([]) == {} && Surviving([]) == []
  {
  }

  /** After an orderly run the connection list has one entry for every Hello with a surviving thread, in order of
      arrival, and its count is the number of these threads. */
  lemma {:induction false} RunSurvivors(groups: seq<Group>, ms: seq<PeerMessage>)
    requires Sound(groups) && Exact(groups) && Orderly(groups, ms)
    ensures ReceiveAll(groups, ms) == RemoveSet(groups, Leaving(ms)) + Surviving(ms)
    ensures Exact(ReceiveAll(groups, ms)) && Sound(ReceiveAll(groups, ms))
    decreases |ms|
  {
    hide Sound, Exact, Fresh, Removable, Receive, Surviving, Leaving;
    if ms == [] {
      NoMessages();
      RemoveSetMisses(groups, {});
    } else {
      ReceiveKeeps(groups, ms[0]);
      ReceiveExact(groups, ms[0]);
      RunSurvivors(Receive(groups, ms[0]), ms[1..]);
      StepSurvivors(groups, ms[0], ms[1..]);
      assert [ms[0]] + ms[1..] == ms;
    }
  }

  lemma {:induction false} RemoveExact(groups: seq<Group>, ids: set<ThreadID>)
    requires Exact(groups)
    ensures Exact(RemoveSet(groups, ids))
  {
    if groups == [] {
    } else {
      var g := groups[0];
      RemoveExact(groups[1..], ids);
      SubsetSize(g.threads * ids, g.threads);
      assert g.threads - ids == g.threads - g.threads * ids;
    }
  }

  // ----- wrong counts stay wrong

  /** A group that is not right has no threads, or counts more references than it has threads. No Hello repairs it. */
  lemma {:induction false} AddKeepsWrong(groups: seq<Group>, ids: seq<ThreadID>, info: StreamInfo)
    requires Sound(groups) && !Exact(groups)
    ensures !Exact(Add(groups, ids, info))
  {
    var added := Add(groups, ids, info);
    var i :| 0 <= i < |groups| && !(groups[i].count == |groups[i].threads| > 0);
    SubsetSize(added[i].threads, groups[i].threads);
    assert added[i].count == groups[i].count;
  }

  /** ... and no Goodbye does: such a group never loses its last reference. */
  lemma {:induction false} RemoveKeepsWrong(groups: seq<Group>, ids: set<ThreadID>)
    requires Sound(groups) && !Exact(groups)
    ensures !Exact(RemoveSet(groups, ids))
  {
    hide Sound;
    var g, rest := groups[0], RemoveSet(groups[1..], ids);
    CountEnough(groups);
    HeadApart(groups);
    if g.count == |g.threads| > 0 {
      RemoveKeepsWrong(groups[1..], ids);
      ExactJoined(Cut(g, ids), rest);
    } else {
      CutWrong(g, ids);
      assert RemoveSet(groups, ids)[0] == Cut(g, ids)[0];
    }
  }

  lemma {:induction false} CutWrong(g: Group, ids: set<ThreadID>)
    requires |g.threads| <= g.count && !(g.count == |g.threads| > 0)
    ensures |Cut(g, ids)| == 1 && !(Cut(g, ids)[0].count == |Cut(g, ids)[0].threads| > 0)
  {
    SubsetSize(g.threads * ids, g.threads);
    assert g.threads - ids == g.threads - g.threads * ids;
  }

  lemma {:induction false} ExactJoined(x: seq<Group>, y: seq<Group>)
    ensures Exact(x + y) <==> Exact(x) && Exact(y)
  {
    assert forall i :: 0 <= i < |x| ==> x[i] == (x + y)[i];
    assert forall i :: 0 <= i < |y| ==> y[i] == (x + y)[|x| + i];
  }

  lemma {:induction false} SurvivorExact(ids: seq<ThreadID>, info: StreamInfo, gone: set<ThreadID>)
    ensures Exact(Survivor(ids, info, gone))
  {
    if Elements(ids) - gone != {} {
      assert |Elements(ids) - gone| > 0;
    }
  }

  lemma {:induction false} SurvivingExact(ms: seq<PeerMessage>)
    ensures Exact(Surviving(ms))
  {
    hide Survivor, Leaving;
    if ms != [] {
      SurvivingExact(ms[1..]);
      if ms[0].Hello? {
        SurvivorExact(ms[0].ids, ms[0].info, Leaving(ms[1..]));
        ExactJoined(Survivor(ms[0].ids, ms[0].info, Leaving(ms[1..])), Surviving(ms[1..]));
      } else {
        assert Surviving(ms) == Surviving(ms[1..]);
      }
    }
  }

  /** One message leaves exact counts if and only if they were exact before it and it is a Goodbye, or a Hello with
      a fresh list. */
  lemma {:induction false} ReceiveExactly(groups: seq<Group>, m: PeerMessage)
    requires Sound(groups) && (m.Goodbye? ==> Removable(groups, m.ids))
    ensures Exact(Receive(groups, m)) <==> Exact(groups) && (m.Hello? ==> Fresh(groups, m.ids))
  {
    match m
    case Hello(ids, info) =>
      if Exact(groups) {
        AddExact(groups, ids, info);
      } else {
        AddKeepsWrong(groups, ids, info);
      }
    case Goodbye(ids) =>
      RemoveAllIsSet(groups, ids);
      if Exact(groups) {
        RemoveExact(groups, Elements(ids));
      } else {
        RemoveKeepsWrong(groups, Elements(ids));
      }
  }

  /** Over a whole run the counts end exact if and only if they were exact at the start and every Hello list was
      fresh when it came: nothing that comes later makes up for one that was not. */
  lemma {:induction false} RunExactly(groups: seq<Group>, ms: seq<PeerMessage>)
    requires Sound(groups) && Legal(groups, ms)
    ensures Exact(ReceiveAll(groups, ms)) <==> Exact(groups) && Orderly(groups, ms)
    decreases |ms|
  {
    hide Sound, Exact, Fresh, Removable;
    if ms != [] {
      ReceiveKeeps(groups, ms[0]);
      ReceiveExactly(groups, ms[0]);
      RunExactly(Receive(groups, ms[0]), ms[1..]);
    }
  }

  /** From exact counts, the groups, with the threads found in each, are those of before without the threads that
      left, and those of the surviving Hellos, if and only if the run was orderly. */
  lemma {:induction false} RunSurvivorsExactly(groups: seq<Group>, ms: seq<PeerMessage>)
    requires Sound(groups) && Exact(groups) && Legal(groups, ms)
    ensures ReceiveAll(groups, ms) == RemoveSet(groups, Leaving(ms)) + Surviving(ms) <==> Orderly(groups, ms)
  {
    hide Sound, Exact, Orderly, Legal;
    if Orderly(groups, ms) {
      RunSurvivors(groups, ms);
    }
    RunExactly(groups, ms);
    RemoveExact(groups, Leaving(ms));
    SurvivingExact(ms);
    ExactJoined(RemoveSet(groups, Leaving(ms)), Surviving(ms));
  }

  // ----- message by message

  lemma {:induction false} ReceiveFirst(groups: seq<Group>, ms: seq<PeerMessage>, i: nat)
    requires 0 < i <= |ms|
    ensures ReceiveAll(groups, ms[..i]) == ReceiveAll(Receive(groups, ms[0]), ms[1..][..i - 1])
  {
    assert ms[..i][0] == ms[0] && ms[..i][1..] == ms[1..][..i - 1];
  }

  /** What makes a run legal, message by message. */
  lemma {:induction false} LegalAt(groups: seq<Group>, ms: seq<PeerMessage>)
    ensures Legal(groups, ms) <==>
            forall i :: 0 <= i < |ms| && ms[i].Goodbye? ==> Removable(ReceiveAll(groups, ms[..i]), ms[i].ids)
    decreases |ms|
  {
    hide Removable, Receive;
    if ms != [] {
      var next, rest := Receive(groups, ms[0]), ms[1..];
      LegalAt(next, rest);
      assert ReceiveAll(groups, ms[..0]) == groups;
      forall i | 0 < i < |ms|
        ensures ReceiveAll(groups, ms[..i]) == ReceiveAll(next, rest[..i - 1]) && ms[i] == rest[i - 1]
      {
        ReceiveFirst(groups, ms, i);
      }
      if forall i :: 0 <= i < |ms| && ms[i].Goodbye? ==> Removable(ReceiveAll(groups, ms[..i]), ms[i].ids) {
        forall i | 0 <= i < |rest| && rest[i].Goodbye?
          ensures Removable(ReceiveAll(next, rest[..i]), rest[i].ids)
        {
          assert ms[i + 1] == rest[i];
        }
      }
    }
  }

  /** What makes a run orderly, message by message. */
  lemma {:induction false} OrderlyAt(groups: seq<Group>, ms: seq<PeerMessage>)
    ensures Orderly(groups, ms) <==>
            && Legal(groups, ms)
            && forall i :: 0 <= i < |ms| && ms[i].Hello? ==> Fresh(ReceiveAll(groups, ms[..i]), ms[i].ids)
    decreases |ms|
  {
    hide Removable, Fresh, Receive;
    if ms != [] {
      var next, rest := Receive(groups, ms[0]), ms[1..];
      OrderlyAt(next, rest);
      assert ReceiveAll(groups, ms[..0]) == groups;
      forall i | 0 < i < |ms|
        ensures ReceiveAll(groups, ms[..i]) == ReceiveAll(next, rest[..i - 1]) && ms[i] == rest[i - 1]
      {
        ReceiveFirst(groups, ms, i);
      }
      if forall i :: 0 <= i < |ms| && ms[i].Hello? ==> Fresh(ReceiveAll(groups, ms[..i]), ms[i].ids) {
        forall i | 0 <= i < |rest| && rest[i].Hello?
          ensures Fresh(ReceiveAll(next, rest[..i]), rest[i].ids)
        {
          assert ms[i + 1] == rest[i];
        }
      }
    }
  }

  /** A thread that no message names stays as it was. */
  lemma {:induction false} NeverNamed(m: map<ThreadID, StreamInfo>, ms: seq<PeerMessage>, t: ThreadID)
    requires forall j :: 0 <= j < |ms| ==> t !in ms[j].ids
    ensures t in MapReceiveAll(m, ms) <==> t in m
    ensures t in m ==> MapReceiveAll(m, ms)[t] == m[t]
    decreases |ms|
  {
    if ms != [] {
      NeverNamed(MapReceive(m, ms[0]), ms[1..], t);
    }
  }

  /** Otherwise the last message that names it decides: after a Hello it is found at the address of that Hello, after a
      Goodbye it is not found. */
  lemma {:induction false} LastNamed(m: map<ThreadID, StreamInfo>, ms: seq<PeerMessage>, t: ThreadID, i: nat)
    requires i < |ms| && t in ms[i].ids && forall j :: i < j < |ms| ==> t !in ms[j].ids
    ensures ms[i].Hello? ==> t in MapReceiveAll(m, ms) && MapReceiveAll(m, ms)[t] == ms[i].info
    ensures ms[i].Goodbye? ==> t !in MapReceiveAll(m, ms)
    decreases |ms|
  {
    if i == 0 {
      NeverNamed(MapReceive(m, ms[0]), ms[1..], t);
    } else {
      LastNamed(MapReceive(m, ms[0]), ms[1..], t, i - 1);
    }
  }
}
