/** Which connections are left after any run of Hello and Goodbye messages, whatever the Hello lists say. */
module Fates {
  import opened Registry
  import opened RegistryRuns

  /** A Goodbye names the thread before any Hello does. */
  ghost predicate Departs(t: ThreadID, ms: seq<PeerMessage>)
    decreases |ms|
  {
    ms != [] && if t in ms[0].ids then ms[0].Goodbye? else Departs(t, ms[1..])
  }

  /** No message names the thread. */
  ghost predicate Stays(t: ThreadID, ms: seq<PeerMessage>)
    decreases |ms|
  {
    ms == [] || (t !in ms[0].ids && Stays(t, ms[1..]))
  }

  ghost function Departing(threads: set<ThreadID>, ms: seq<PeerMessage>): set<ThreadID> {
    set t | t in threads && Departs(t, ms)
  }

  ghost function Staying(threads: set<ThreadID>, ms: seq<PeerMessage>): set<ThreadID> {
    set t | t in threads && Stays(t, ms)
  }

  /** What becomes of a group: every thread that departs takes a reference with it, and the last reference the
      group. Threads that another Hello names leave their references behind. */
  ghost function Fate(g: Group, ms: seq<PeerMessage>): seq<Group> {
    var gone := Departing(g.threads, ms);
    if gone != {} && g.count == |gone| then [] else [Group(g.info, g.count - |gone|, Staying(g.threads, ms))]
  }

  ghost function AllFates(groups: seq<Group>, ms: seq<PeerMessage>): seq<Group> {
    if groups == [] then [] else Fate(groups[0], ms) + AllFates(groups[1..], ms)
  }

  /** The fates of the groups that the Hellos of a run make, in order of arrival. */
  ghost function Arrivals(ms: seq<PeerMessage>): seq<Group> {
    if ms == [] then []
    else
      (match ms[0]
       case Hello(ids, info) => Fate(Group(info, |ids|, Elements(ids)), ms[1..])
       case Goodbye(_) => []) + Arrivals(ms[1..])
  }

  // ----- one message

  lemma {:induction false} NothingComes(g: Group)
    ensures Fate(g, []) == [g]
  {
    assert Departing(g.threads, []) == {} && Staying(g.threads, []) == g.threads;
  }

  lemma {:induction false} FateAfterHello(g: Group, ms: seq<PeerMessage>)
    requires ms != [] && ms[0].Hello?
    ensures Fate(g, ms) == Fate(g.(threads := g.threads - Elements(ms[0].ids)), ms[1..])
  {
    var left := g.threads - Elements(ms[0].ids);
    assert Departing(g.threads, ms) == Departing(left, ms[1..]);
    assert Staying(g.threads, ms) == Staying(left, ms[1..]);
  }

  lemma {:induction false} FateAfterGoodbye(g: Group, ms: seq<PeerMessage>)
    requires ms != [] && ms[0].Goodbye? && |g.threads| <= g.count
    ensures Fate(g, ms) == AllFates(Cut(g, Elements(ms[0].ids)), ms[1..])
  {
    hide Departs, Stays;
    var ids := Elements(ms[0].ids);
    var hit, left := g.threads * ids, g.threads - ids;
    var gone, later := Departing(g.threads, ms), Departing(left, ms[1..]);
    ThreadsAfterGoodbye(g.threads, ms);
    SubsetSize(gone, g.threads);
    if hit != {} && g.count == |hit| {
      SubsetSize(hit, gone);
    } else {
      OneFate(Group(g.info, g.count - |hit|, left), ms[1..]);
    }
  }

  lemma {:induction false} ThreadsAfterGoodbye(threads: set<ThreadID>, ms: seq<PeerMessage>)
    requires ms != [] && ms[0].Goodbye?
    ensures var ids := Elements(ms[0].ids);
            var hit, later := threads * ids, Departing(threads - ids, ms[1..]);
            && Departing(threads, ms) == hit + later && hit !! later
            && |Departing(threads, ms)| == |hit| + |later|
            && Staying(threads, ms) == Staying(threads - ids, ms[1..])
  {
    var ids := Elements(ms[0].ids);
    assert Departing(threads, ms) == threads * ids + Departing(threads - ids, ms[1..]);
  }

  lemma {:induction false} OneFate(g: Group, ms: seq<PeerMessage>)
    ensures AllFates([g], ms) == Fate(g, ms)
  {
    hide Fate;
    assert AllFates([g], ms) == Fate(g, ms) + AllFates([], ms);
  }

  // ----- all groups

  lemma {:induction false} FatesJoined(x: seq<Group>, y: seq<Group>, ms: seq<PeerMessage>)
    ensures AllFates(x + y, ms) == AllFates(x, ms) + AllFates(y, ms)
  {
    hide Fate;
    if x == [] {
      assert x + y == y;
    } else {
      assert (x + y)[1..] == x[1..] + y;
      FatesJoined(x[1..], y, ms);
    }
  }

  lemma {:induction false} NothingComesToAll(groups: seq<Group>)
    ensures AllFates(groups, []) == groups
  {
    hide Fate;
    if groups != [] {
      NothingComes(groups[0]);
      NothingComesToAll(groups[1..]);
    }
  }

  lemma {:induction false} FatesAfterHello(groups: seq<Group>, ms: seq<PeerMessage>)
    requires ms != [] && ms[0].Hello?
    ensures AllFates(groups, ms) == AllFates(Forget(groups, Elements(ms[0].ids)), ms[1..])
  {
    hide Fate;
    if groups != [] {
      var forgot := Forget(groups, Elements(ms[0].ids));
      FateAfterHello(groups[0], ms);
      FatesAfterHello(groups[1..], ms);
      assert forgot[1..] == Forget(groups[1..], Elements(ms[0].ids));
    }
  }

  lemma {:induction false} FatesAfterGoodbye(groups: seq<Group>, ms: seq<PeerMessage>)
    requires ms != [] && ms[0].Goodbye? && Sound(groups)
    ensures AllFates(groups, ms) == AllFates(RemoveSet(groups, Elements(ms[0].ids)), ms[1..])
  {
    hide Fate, Sound, Cut;
    if groups != [] {
      var ids := Elements(ms[0].ids);
      CountEnough(groups);
      HeadApart(groups);
      FateAfterGoodbye(groups[0], ms);
      FatesAfterGoodbye(groups[1..], ms);
      FatesJoined(Cut(groups[0], ids), RemoveSet(groups[1..], ids), ms[1..]);
    }
  }

  // ----- a whole run

  lemma {:induction false} StepHello(groups: seq<Group>, ms: seq<PeerMessage>)
    requires ms != [] && ms[0].Hello?
    ensures AllFates(Receive(groups, ms[0]), ms[1..]) + Arrivals(ms[1..]) == AllFates(groups, ms) + Arrivals(ms)
  {
    hide Fate, Forget;
    var forgot, g := Forget(groups, Elements(ms[0].ids)), Group(ms[0].info, |ms[0].ids|, Elements(ms[0].ids));
    FatesAfterHello(groups, ms);
    FatesJoined(forgot, [g], ms[1..]);
    assert AllFates([g], ms[1..]) == Fate(g, ms[1..]);
    assert Arrivals(ms) == Fate(g, ms[1..]) + Arrivals(ms[1..]);
  }

  lemma {:induction false} StepGoodbye(groups: seq<Group>, ms: seq<PeerMessage>)
    requires ms != [] && ms[0].Goodbye? && Sound(groups) && Removable(groups, ms[0].ids)
    ensures AllFates(Receive(groups, ms[0]), ms[1..]) + Arrivals(ms[1..]) == AllFates(groups, ms) + Arrivals(ms)
  {
    hide Sound, Removable, RemoveSet, AllFates;
    RemoveAllIsSet(groups, ms[0].ids);
    FatesAfterGoodbye(groups, ms);
    assert Arrivals(ms) == Arrivals(ms[1..]);
  }

  /** After any run that goes through, the connections are those of before and one for each Hello, in order of
      arrival, each as its threads have left it. */
  lemma {:induction false} RunFates(groups: seq<Group>, ms: seq<PeerMessage>)
    requires Sound(groups) && Legal(groups, ms)
    ensures ReceiveAll(groups, ms) == AllFates(groups, ms) + Arrivals(ms)
    decreases |ms|
  {
    hide Sound, Removable, Receive, AllFates, Arrivals;
    if ms == [] {
      NothingComesToAll(groups);
      NoArrivals();
    } else {
      ReceiveKeeps(groups, ms[0]);
      RunFates(Receive(groups, ms[0]), ms[1..]);
      if ms[0].Hello? {
        StepHello(groups, ms);
      } else {
        StepGoodbye(groups, ms);
      }
    }
  }

  lemma {:induction false} NoArrivals()
    ensures Arrivals([]) == []
  {
  }

  /** The connection of a Hello goes if and only if its list names threads, none twice, and all of them depart. */
  lemma {:induction false} HelloGone(ids: seq<ThreadID>, info: StreamInfo, ms: seq<PeerMessage>)
    ensures Fate(Group(info, |ids|, Elements(ids)), ms) == [] <==>
            ids != [] && DistinctIDs(ids) && forall t :: t in ids ==> Departs(t, ms)
  {
    var all := Elements(ids);
    var gone := Departing(all, ms);
    ElementsSize(ids);
    SubsetSize(gone, all);
    assert ids != [] ==> ids[0] in all;
    if gone == all {
      assert forall t :: t in ids ==> t in gone;
    } else {
      assert exists t :: t in all && t !in gone;
    }
  }

  /** The list of connections alone does not tell whether a run was orderly: a thread that is announced twice makes
      wrong groups with the same addresses and counts. */
  lemma {:induction false} SameConnections(t: ThreadID, a: StreamInfo, b: StreamInfo)
    ensures var ms := [Hello([t], a), Hello([t], b)];
            && Legal([], ms) && !Orderly([], ms)
            && ReceiveAll([], ms) == [Group(a, 1, {}), Group(b, 1, {t})]
            && Surviving(ms) == [Group(a, 1, {t}), Group(b, 1, {t})]
  {
    var first, second := Hello([t], a), Hello([t], b);
    var once := [Group(a, 1, {t})];
    assert [first, second][1..] == [second] && [second][1..] == [];
    TwoHellos(t, a, b);
    assert ReceiveAll(once, [second]) == ReceiveAll(Receive(once, second), []);
    assert Legal(once, [second]) && !Fresh(once, [t]);
    TwoSurvive(t, a, b);
  }

  lemma {:induction false} TwoHellos(t: ThreadID, a: StreamInfo, b: StreamInfo)
    ensures Receive([], Hello([t], a)) == [Group(a, 1, {t})]
    ensures Receive([Group(a, 1, {t})], Hello([t], b)) == [Group(a, 1, {}), Group(b, 1, {t})]
    ensures !Fresh([Group(a, 1, {t})], [t])
  {
    var once := [Group(a, 1, {t})];
    assert Elements([t]) == {t} && Forget([], {t}) == [];
    assert {t} - {t} == {} && Forget(once, {t}) == [Group(a, 1, {})];
    assert t in Elements([t]) * Threads(once);
  }

  lemma {:induction false} TwoSurvive(t: ThreadID, a: StreamInfo, b: StreamInfo)
    ensures Surviving([Hello([t], a), Hello([t], b)]) == [Group(a, 1, {t}), Group(b, 1, {t})]
  {
    var first, second := Hello([t], a), Hello([t], b);
    assert [first, second][1..] == [second] && [second][1..] == [];
    assert Elements([t]) == {t} && {t} - {} == {t};
    assert Survivor([t], a, {}) == [Group(a, 1, {t})] && Survivor([t], b, {}) == [Group(b, 1, {t})];
    assert Leaving([second]) == {} && Surviving([second]) == [Group(b, 1, {t})];
  }
}
