/** The abstract state of the peer registry of Core/Common/ProcessPeersServer.hpp, and its laws.

    Every Hello message makes a group: the address of the peer, a reference count, and the threads that are found
    at it. The count is a field of its own in the source, so it is one here: that it equals the number of threads
    is something to prove, and does not hold after every Hello. */
module Registry {
  type ThreadID = t: nat | t < 0x1_0000_0000_0000_0000

  datatype StreamInfo = StreamInfo(first: seq<nat>, second: nat)

  datatype Group = Group(info: StreamInfo, count: int, threads: set<ThreadID>)

  function Elements(ids: seq<ThreadID>): set<ThreadID> {
    set t | t in ids
  }

  ghost predicate DistinctIDs(ids: seq<ThreadID>) {
    forall i, j :: 0 <= i < j < |ids| ==> ids[i] != ids[j]
  }

  ghost predicate IsOwner(groups: seq<Group>, t: ThreadID, i: nat) {
    && i <= |groups|
    && (forall j :: 0 <= j < i ==> t !in groups[j].threads)
    && (i < |groups| ==> t in groups[i].threads)
  }

  /** The group a thread is found in, or the number of groups when it is not registered. */
  ghost function Owner(groups: seq<Group>, t: ThreadID): (i: nat)
    ensures IsOwner(groups, t, i)
  {
    OwnerExists(groups, t);
    var i: nat :| IsOwner(groups, t, i);
    i
  }

  lemma {:induction false} OwnerExists(groups: seq<Group>, t: ThreadID)
    ensures exists i: nat :: IsOwner(groups, t, i)
  {
    if groups == [] || t in groups[0].threads {
      assert IsOwner(groups, t, 0);
    } else {
      OwnerExists(groups[1..], t);
      var i: nat :| IsOwner(groups[1..], t, i);
      assert IsOwner(groups, t, i + 1);
    }
  }

  /** All registered threads. */
  ghost function Threads(groups: seq<Group>): set<ThreadID> {
    if groups == [] then {} else groups[0].threads + Threads(groups[1..])
  }

  lemma {:induction false} OwnersInRest(groups: seq<Group>, t: ThreadID)
    requires groups != []
    ensures Owner(groups, t) == if t in groups[0].threads then 0 else 1 + Owner(groups[1..], t)
  {
    OwnerIs(groups, t, if t in groups[0].threads then 0 else 1 + Owner(groups[1..], t));
  }

  lemma {:induction false} ThreadOwned(groups: seq<Group>, t: ThreadID)
    ensures t in Threads(groups) <==> Owner(groups, t) < |groups|
  {
    if groups == [] {
    } else {
      OwnersInRest(groups, t);
      ThreadOwned(groups[1..], t);
    }
  }

  lemma {:induction false} OwnerIs(groups: seq<Group>, t: ThreadID, i: nat)
    requires IsOwner(groups, t, i)
    ensures Owner(groups, t) == i
  {
  }

  ghost predicate Apart(groups: seq<Group>, i: nat, j: nat)
    requires i < |groups| && j < |groups|
  {
    groups[i].threads !! groups[j].threads
  }

  /** What every run keeps: a thread is in one group only, and no group counts fewer references than it has threads. */
  ghost predicate Sound(groups: seq<Group>) {
    && (forall i :: 0 <= i < |groups| ==> |groups[i].threads| <= groups[i].count)
    && (forall i, j {:trigger Apart(groups, i, j)} :: 0 <= i < j < |groups| ==> Apart(groups, i, j))
  }

  /** The reference counts are right: one reference for every thread, and no group without threads. */
  ghost predicate Exact(groups: seq<Group>) {
    forall i :: 0 <= i < |groups| ==> groups[i].count == |groups[i].threads| > 0
  }

  // ----- the steps

  /** The threads are no longer found in any group; the counts stay. */
  ghost function Forget(groups: seq<Group>, ids: set<ThreadID>): (r: seq<Group>)
    ensures |r| == |groups|
    ensures forall i :: 0 <= i < |r| ==> r[i] == groups[i].(threads := groups[i].threads - ids)
  {
    seq(|groups|, i requires 0 <= i < |groups| => groups[i].(threads := groups[i].threads - ids))
  }

  /** `addThreads`, for any list of threads: empty, with repetitions, or naming threads that are registered already. */
  ghost function Add(groups: seq<Group>, ids: seq<ThreadID>, info: StreamInfo): seq<Group> {
    Forget(groups, Elements(ids)) + [Group(info, |ids|, Elements(ids))]
  }

  /** One round of `removeThreads`. */
  ghost function RemoveOne(groups: seq<Group>, t: ThreadID): seq<Group> {
    var i := Owner(groups, t);
    if i == |groups| then groups
    else if groups[i].count == 1 then groups[..i] + groups[i + 1..]
    else groups[i := Group(groups[i].info, groups[i].count - 1, groups[i].threads - {t})]
  }

  /** `removeThreads`: one round after another. */
  ghost function RemoveAll(groups: seq<Group>, ids: seq<ThreadID>): seq<Group> {
    if ids == [] then groups else RemoveOne(RemoveAll(groups, ids[..|ids| - 1]), ids[|ids| - 1])
  }

  /** When `removeThreads` finds an entry in every round. */
  ghost predicate Removable(groups: seq<Group>, ids: seq<ThreadID>) {
    DistinctIDs(ids) && Elements(ids) <= Threads(groups)
  }

  /** Removing a set of threads in one go: every group loses those it has, and goes when that was all its references. */
  ghost function RemoveSet(groups: seq<Group>, ids: set<ThreadID>): seq<Group> {
    if groups == [] then [] else Cut(groups[0], ids) + RemoveSet(groups[1..], ids)
  }

  ghost function Cut(g: Group, ids: set<ThreadID>): seq<Group> {
    var hit := g.threads * ids;
    if hit != {} && g.count == |hit| then []
    else [Group(g.info, g.count - |hit|, g.threads - ids)]
  }

  // ----- what the steps keep

  lemma {:induction false} AddSound(groups: seq<Group>, ids: seq<ThreadID>, info: StreamInfo)
    requires Sound(groups)
    ensures Sound(Add(groups, ids, info))
  {
    ElementsSize(ids);
    var added := Add(groups, ids, info);
    forall i, j | 0 <= i < j < |added|
      ensures Apart(added, i, j)
    {
      assert j < |groups| ==> Apart(groups, i, j);
    }
    forall i | 0 <= i < |groups|
      ensures |added[i].threads| <= added[i].count
    {
      SubsetSize(added[i].threads, groups[i].threads);
    }
  }

  lemma {:induction false} ElementsSize(ids: seq<ThreadID>)
    ensures |Elements(ids)| <= |ids|
    ensures |Elements(ids)| == |ids| <==> DistinctIDs(ids)
  {
    if ids == [] {
    } else {
      var rest, last := ids[..|ids| - 1], ids[|ids| - 1];
      ElementsSize(rest);
      assert Elements(ids) == Elements(rest) + {last};
    }
  }

  // ----- removal does not depend on order

  lemma {:induction false} SubsetSize(a: set<ThreadID>, b: set<ThreadID>)
    requires a <= b
    ensures |a| <= |b|
    ensures |b - a| == |b| - |a|
    ensures |a| == |b| ==> a == b
  {
    assert b == a + (b - a);
  }

  lemma {:induction false} HitSizes(threads: set<ThreadID>, a: set<ThreadID>, b: set<ThreadID>)
    ensures |threads * (a + b)| == |threads * a| + |(threads - a) * b|
    ensures threads - a - b == threads - (a + b)
  {
    assert threads * (a + b) == threads * a + (threads - a) * b;
  }

  lemma {:induction false} CutTwice(g: Group, a: set<ThreadID>, b: set<ThreadID>)
    requires |g.threads| <= g.count
    ensures RemoveSet(Cut(g, a), b) == Cut(g, a + b)
  {
    HitSizes(g.threads, a, b);
    var hit, both := g.threads * a, g.threads * (a + b);
    if hit != {} && g.count == |hit| {
      SubsetSize(hit, g.threads);
      assert both == g.threads;
    } else {
      var left := Group(g.info, g.count - |hit|, g.threads - a);
      assert Cut(g, a) == [left] && RemoveSet([left], b) == Cut(left, b);
      if left.threads * b == {} {
        assert both == hit;
      } else {
        assert both != {};
      }
    }
  }

  lemma {:induction false} RemoveSetJoin(x: seq<Group>, y: seq<Group>, ids: set<ThreadID>)
    ensures RemoveSet(x + y, ids) == RemoveSet(x, ids) + RemoveSet(y, ids)
  {
    if x == [] {
      assert x + y == y;
    } else {
      assert (x + y)[1..] == x[1..] + y;
      RemoveSetJoin(x[1..], y, ids);
    }
  }

  /** Two removals amount to one of both sets together. */
  lemma {:induction false} RemoveSetTwice(groups: seq<Group>, a: set<ThreadID>, b: set<ThreadID>)
    requires Sound(groups)
    ensures RemoveSet(RemoveSet(groups, a), b) == RemoveSet(groups, a + b)
  {
    if groups == [] {
    } else {
      CutTwice(groups[0], a, b);
      HeadApart(groups);
      RemoveSetTwice(groups[1..], a, b);
      RemoveSetJoin(Cut(groups[0], a), RemoveSet(groups[1..], a), b);
    }
  }

  lemma {:induction false} HeadApart(groups: seq<Group>)
    requires Sound(groups) && groups != []
    ensures groups[0].threads !! Threads(groups[1..])
    ensures Sound(groups[1..])
  {
    forall i, j | 0 <= i < j < |groups[1..]|
      ensures Apart(groups[1..], i, j)
    {
      assert Apart(groups, i + 1, j + 1);
    }
    forall t | t in groups[0].threads
      ensures t !in Threads(groups[1..])
    {
      ThreadOwned(groups[1..], t);
      var i := Owner(groups[1..], t);
      assert i < |groups[1..]| ==> t in groups[i + 1].threads && Apart(groups, 0, i + 1);
    }
  }

  lemma {:induction false} MembersIn(groups: seq<Group>)
    ensures forall j :: 0 <= j < |groups| ==> groups[j].threads <= Threads(groups)
  {
    if groups == [] {
    } else {
      MembersIn(groups[1..]);
      forall j | 0 <= j < |groups|
        ensures groups[j].threads <= Threads(groups)
      {
        assert j > 0 ==> groups[j] == groups[1..][j - 1];
      }
    }
  }

  lemma {:induction false} SoundCons(g: Group, rest: seq<Group>)
    requires Sound(rest) && |g.threads| <= g.count && g.threads !! Threads(rest)
    ensures Sound([g] + rest)
  {
    MembersIn(rest);
    forall i, j | 0 <= i < j < |[g] + rest|
      ensures Apart([g] + rest, i, j)
    {
      assert i > 0 ==> Apart(rest, i - 1, j - 1);
    }
  }

  lemma {:induction false} CutThreads(g: Group, ids: set<ThreadID>)
    requires |g.threads| <= g.count
    ensures Threads(Cut(g, ids)) == g.threads - ids
    ensures Cut(g, ids) != [] ==> |g.threads - ids| <= Cut(g, ids)[0].count
  {
    SubsetSize(g.threads * ids, g.threads);
    assert g.threads - ids == g.threads - g.threads * ids;
  }

  lemma {:induction false} RemoveSetThreads(groups: seq<Group>, ids: set<ThreadID>)
    requires Sound(groups)
    ensures Sound(RemoveSet(groups, ids))
    ensures Threads(RemoveSet(groups, ids)) == Threads(groups) - ids
  {
    if groups == [] {
    } else {
      var g, rest := groups[0], RemoveSet(groups[1..], ids);
      HeadApart(groups);
      RemoveSetThreads(groups[1..], ids);
      CutThreads(g, ids);
      if Cut(g, ids) == [] {
        assert RemoveSet(groups, ids) == rest;
      } else {
        SoundCons(Cut(g, ids)[0], rest);
        assert RemoveSet(groups, ids)[1..] == rest;
      }
    }
  }

  lemma {:induction false} RemoveSetMisses(groups: seq<Group>, ids: set<ThreadID>)
    requires ids !! Threads(groups)
    ensures RemoveSet(groups, ids) == groups
  {
    if groups == [] {
    } else {
      RemoveSetMisses(groups[1..], ids);
      CutMisses(groups[0], ids);
    }
  }

  lemma {:induction false} RemoveOneFromHead(groups: seq<Group>, t: ThreadID)
    requires Sound(groups) && groups != [] && t in groups[0].threads
    ensures RemoveOne(groups, t) == RemoveSet(groups, {t})
  {
    OwnerIs(groups, t, 0);
    HeadApart(groups);
    RemoveSetMisses(groups[1..], {t});
    assert groups[0].threads * {t} == {t};
    assert groups[..0] + groups[1..] == groups[1..];
  }

  lemma {:induction false} RemoveOneFromRest(groups: seq<Group>, t: ThreadID)
    requires groups != [] && t !in groups[0].threads && t in Threads(groups)
    ensures RemoveOne(groups, t) == [groups[0]] + RemoveOne(groups[1..], t)
  {
    var i, rest := Owner(groups, t), groups[1..];
    OwnersInRest(groups, t);
    ThreadOwned(groups, t);
    assert groups[..i] + groups[i + 1..] == [groups[0]] + (rest[..i - 1] + rest[i..]);
  }

  lemma {:induction false} RemoveOneIsSet(groups: seq<Group>, t: ThreadID)
    requires Sound(groups) && t in Threads(groups)
    ensures RemoveOne(groups, t) == RemoveSet(groups, {t})
  {
    if t in groups[0].threads {
      RemoveOneFromHead(groups, t);
    } else {
      HeadApart(groups);
      RemoveOneIsSet(groups[1..], t);
      RemoveOneFromRest(groups, t);
      CutMisses(groups[0], {t});
    }
  }

  lemma {:induction false} CutMisses(g: Group, ids: set<ThreadID>)
    requires g.threads !! ids
    ensures Cut(g, ids) == [g]
  {
    assert g.threads * ids == {} && g.threads - ids == g.threads;
  }

  /** However the threads are ordered, removing them one by one is removing them as a set. */
  lemma {:induction false} RemoveAllIsSet(groups: seq<Group>, ids: seq<ThreadID>)
    requires Sound(groups) && Removable(groups, ids)
    ensures RemoveAll(groups, ids) == RemoveSet(groups, Elements(ids))
  {
    if ids == [] {
      RemoveSetMisses(groups, {});
    } else {
      var rest, last := ids[..|ids| - 1], ids[|ids| - 1];
      assert Elements(ids) == Elements(rest) + {last};
      RemoveAllIsSet(groups, rest);
      RemoveSetThreads(groups, Elements(rest));
      RemoveOneIsSet(RemoveSet(groups, Elements(rest)), last);
      RemoveSetTwice(groups, Elements(rest), {last});
    }
  }

  /** `removeThreads` gives the same state for every permutation of its argument. */
  lemma {:induction false} RemoveAllPermuted(groups: seq<Group>, ids: seq<ThreadID>, permuted: seq<ThreadID>)
    requires Sound(groups) && Removable(groups, ids)
    requires multiset(ids) == multiset(permuted)
    ensures Removable(groups, permuted)
    ensures RemoveAll(groups, ids) == RemoveAll(groups, permuted)
  {
    forall t
      ensures t in ids <==> t in permuted
    {
      assert t in ids <==> t in multiset(ids);
      assert t in permuted <==> t in multiset(permuted);
    }
    assert Elements(ids) == Elements(permuted);
    assert |ids| == |multiset(ids)| == |permuted|;
    ElementsSize(ids);
    ElementsSize(permuted);
    RemoveAllIsSet(groups, ids);
    RemoveAllIsSet(groups, permuted);
  }

  /** ... and for every split of it into successive calls. */
  lemma {:induction false} RemoveAllSplit(groups: seq<Group>, ids: seq<ThreadID>, more: seq<ThreadID>)
    ensures RemoveAll(groups, ids + more) == RemoveAll(RemoveAll(groups, ids), more)
  {
    if more == [] {
      assert ids + more == ids;
    } else {
      RemoveAllSplit(groups, ids, more[..|more| - 1]);
      assert (ids + more)[..|ids + more| - 1] == ids + more[..|more| - 1];
    }
  }

  // ----- what adding does

  /** A Hello list that names threads, no thread twice, and none that is registered. */
  ghost predicate Fresh(groups: seq<Group>, ids: seq<ThreadID>) {
    ids != [] && DistinctIDs(ids) && Elements(ids) * Threads(groups) == {}
  }

  lemma {:induction false} ForgetMisses(groups: seq<Group>, ids: set<ThreadID>)
    requires ids * Threads(groups) == {}
    ensures Forget(groups, ids) == groups
  {
    MembersIn(groups);
    forall i | 0 <= i < |groups|
      ensures Forget(groups, ids)[i] == groups[i]
    {
      assert forall t :: t in groups[i].threads && t in ids ==> t in ids * Threads(groups);
      assert groups[i].threads - ids == groups[i].threads;
    }
  }

  /** A thread that is registered already keeps its old reference, so the count of its old group is now too high. */
  lemma {:induction false} AddKnown(groups: seq<Group>, ids: seq<ThreadID>, info: StreamInfo, t: ThreadID)
    requires Exact(groups) && t in ids && t in Threads(groups)
    ensures !Exact(Add(groups, ids, info))
  {
    ThreadOwned(groups, t);
    var i, added := Owner(groups, t), Add(groups, ids, info);
    var hit := groups[i].threads * Elements(ids);
    assert t in hit && added[i].threads == groups[i].threads - hit;
    SubsetSize(hit, groups[i].threads);
    assert added[i].count > |added[i].threads|;
  }

  lemma {:induction false} AddUnknown(groups: seq<Group>, ids: seq<ThreadID>, info: StreamInfo)
    requires Exact(groups) && Elements(ids) * Threads(groups) == {}
    ensures Exact(Add(groups, ids, info)) <==> ids != [] && DistinctIDs(ids)
  {
    ElementsSize(ids);
    ForgetMisses(groups, Elements(ids));
    var added := Add(groups, ids, info);
    assert added == groups + [Group(info, |ids|, Elements(ids))];
    assert added[|groups|].count == |ids|;
    assert ids != [] ==> ids[0] in Elements(ids);
  }

  /** Starting from exact counts, a Hello leaves them exact if and only if its list is fresh. */
  lemma {:induction false} AddExact(groups: seq<Group>, ids: seq<ThreadID>, info: StreamInfo)
    requires Exact(groups)
    ensures Exact(Add(groups, ids, info)) <==> Fresh(groups, ids)
  {
    var known := Elements(ids) * Threads(groups);
    if known == {} {
      AddUnknown(groups, ids, info);
    } else {
      var t :| t in known;
      AddKnown(groups, ids, info, t);
    }
  }

  /** Removing exactly what one Hello added restores the state before it. */
  lemma {:induction false} AddThenRemove(groups: seq<Group>, ids: seq<ThreadID>, info: StreamInfo)
    requires Sound(groups) && Fresh(groups, ids)
    ensures Removable(Add(groups, ids, info), ids)
    ensures RemoveAll(Add(groups, ids, info), ids) == groups
  {
    var g, s := Group(info, |ids|, Elements(ids)), Elements(ids);
    ForgetMisses(groups, s);
    assert Add(groups, ids, info) == groups + [g];
    AddSound(groups, ids, info);
    assert s <= Threads(groups + [g]) by {
      MembersIn(groups + [g]);
      assert (groups + [g])[|groups|] == g;
    }
    RemoveAllIsSet(groups + [g], ids);
    RemoveSetJoin(groups, [g], s);
    RemoveSetMisses(groups, s);
    CutWhole(g, ids);
  }

  lemma {:induction false} CutWhole(g: Group, ids: seq<ThreadID>)
    requires ids != [] && DistinctIDs(ids) && g.count == |ids| && g.threads == Elements(ids)
    ensures RemoveSet([g], Elements(ids)) == []
  {
    ElementsSize(ids);
    assert ids[0] in g.threads && g.threads * g.threads == g.threads;
    assert Cut(g, g.threads) == [];
  }

  ghost function TotalCount(groups: seq<Group>): int {
    if groups == [] then 0 else groups[0].count + TotalCount(groups[1..])
  }

  /** Exact counts sum up to the number of registered threads. */
  lemma {:induction false} CountsSumUp(groups: seq<Group>)
    requires Sound(groups) && Exact(groups)
    ensures TotalCount(groups) == |Threads(groups)|
  {
    if groups == [] {
    } else {
      HeadApart(groups);
      CountsSumUp(groups[1..]);
    }
  }
}
