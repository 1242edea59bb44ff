/** The doubly linked list of Base/LinkedList.hpp.

    Iterators of the source are node pointers, with `null` for `end()`; they are nodes of type `Node?` here.
    Every list carries the ghost sequence `Nodes` of its nodes in order, which `Valid` ties to the links.
    A node the source deletes is one that has left `Nodes`. */
module LinkedLists {

  class Node<T> {
    var data: T
    var previous: Node?<T>
    var next: Node?<T>

    constructor (previous: Node?<T>, next: Node?<T>, data: T)
      ensures this.previous == previous && this.next == next && this.data == data
    {
      this.previous, this.next, this.data := previous, next, data;
    }
  }

  /** The node at position `i`, or `end()` when there is none. */
  ghost function At<T>(nodes: seq<Node<T>>, i: int): Node?<T> {
    if 0 <= i < |nodes| then nodes[i] else null
  }

  ghost predicate NodesDiffer<T>(nodes: seq<Node<T>>, i: nat, j: nat)
    requires i < |nodes| && j < |nodes|
  {
    nodes[i] != nodes[j]
  }

  ghost predicate Distinct<T>(nodes: seq<Node<T>>) {
    forall i, j {:trigger NodesDiffer(nodes, i, j)} :: 0 <= i < j < |nodes| ==> NodesDiffer(nodes, i, j)
  }

  lemma {:induction false} Differs<T>(nodes: seq<Node<T>>, i: int)
    requires Distinct(nodes)
    ensures 0 <= i < |nodes| ==> forall j :: 0 <= j < |nodes| && j != i ==> nodes[j] != nodes[i]
  {
    forall j | 0 <= i < |nodes| && 0 <= j < |nodes| && j != i
      ensures nodes[j] != nodes[i]
    {
      assert if j < i then NodesDiffer(nodes, j, i) else NodesDiffer(nodes, i, j);
    }
  }

  ghost predicate NextLinked<T>(nodes: seq<Node<T>>, after: Node?<T>)
    reads nodes`next
  {
    forall i {:trigger nodes[i].next} :: 0 <= i < |nodes| ==>
                                           nodes[i].next == if i + 1 < |nodes| then nodes[i + 1] else after
  }

  ghost predicate PreviousLinked<T>(nodes: seq<Node<T>>, before: Node?<T>)
    reads nodes`previous
  {
    forall i {:trigger nodes[i].previous} :: 0 <= i < |nodes| ==>
                                               nodes[i].previous == if i > 0 then nodes[i - 1] else before
  }

  /** Every node's `next` is the node behind it, but for the one before position `i`, whose `next` is `x`. */
  ghost predicate NextExcept<T>(nodes: seq<Node<T>>, i: int, x: Node?<T>)
    reads nodes`next
  {
    forall j {:trigger nodes[j].next} :: 0 <= j < |nodes| ==>
                                           nodes[j].next == if j + 1 == i then x else At(nodes, j + 1)
  }

  /** Every node's `previous` is the node before it, but for the one at position `i`, whose `previous` is `x`. */
  ghost predicate PreviousExcept<T>(nodes: seq<Node<T>>, i: int, x: Node?<T>)
    reads nodes`previous
  {
    forall j {:trigger nodes[j].previous} :: 0 <= j < |nodes| ==>
                                               nodes[j].previous == if j == i then x else At(nodes, j - 1)
  }

  /** The links of the node at position `i`, and whether it is at one of the ends. */
  lemma {:induction false} Neighbours<T>(nodes: seq<Node<T>>, i: int)
    requires Distinct(nodes) && NextLinked(nodes, null) && PreviousLinked(nodes, null) && -1 <= i <= |nodes|
    ensures 0 <= i < |nodes| ==> nodes[i].next == At(nodes, i + 1) && nodes[i].previous == At(nodes, i - 1)
    ensures At(nodes, i) == At(nodes, 0) != null <==> 0 == i < |nodes|
    ensures At(nodes, i) == At(nodes, |nodes| - 1) != null <==> 0 <= i == |nodes| - 1
  {
    Differs(nodes, i);
  }

  ghost function NodesAt<T>(node: Node?<T>): set<Node<T>> {
    if node == null then {} else {node}
  }

  /** `node->next = next`, when there is such a node. */
  method LinkNext<T>(node: Node?<T>, next: Node?<T>, ghost nodes: seq<Node<T>>, ghost i: nat)
    requires i <= |nodes| && node == At(nodes, i - 1)
    requires Distinct(nodes) && NextLinked(nodes, null)
    modifies NodesAt(node)`next
    ensures NextExcept(nodes, i, next)
  {
    Differs(nodes, i - 1);
    if node != null {
      node.next := next;
    }
  }

  /** `node->previous = previous`, when there is such a node. */
  method LinkPrevious<T>(node: Node?<T>, previous: Node?<T>, ghost nodes: seq<Node<T>>, ghost i: nat)
    requires i <= |nodes| && node == At(nodes, i)
    requires Distinct(nodes) && PreviousLinked(nodes, null)
    modifies NodesAt(node)`previous
    ensures PreviousExcept(nodes, i, previous)
  {
    Differs(nodes, i);
    if node != null {
      node.previous := previous;
    }
  }

  /** A new node, and the links of its neighbours to it. */
  method LinkBetween<T>(previous: Node?<T>, next: Node?<T>, data: T, ghost nodes: seq<Node<T>>, ghost i: nat)
    returns (node: Node<T>)
    requires i <= |nodes| && previous == At(nodes, i - 1) && next == At(nodes, i)
    requires Distinct(nodes) && NextLinked(nodes, null) && PreviousLinked(nodes, null)
    modifies NodesAt(previous)`next, NodesAt(next)`previous
    ensures fresh(node) && node.data == data && node.previous == previous && node.next == next
    ensures NextExcept(nodes, i, node) && PreviousExcept(nodes, i, node)
  {
    hide Distinct, NextLinked, PreviousLinked, NextExcept, PreviousExcept;
    node := new Node(previous, next, data);
    LinkNext(previous, node, nodes, i);
    LinkPrevious(next, node, nodes, i);
  }

  lemma {:induction false} SamePosition<T>(nodes: seq<Node<T>>, i: nat, j: nat)
    requires Distinct(nodes) && i <= |nodes| && j <= |nodes|
    ensures At(nodes, i) == At(nodes, j) <==> i == j
  {
    Differs(nodes, i);
  }

  lemma {:induction false} NoneExcept<T>(nodes: seq<Node<T>>, x: Node?<T>)
    requires NextLinked(nodes, null)
    ensures NextExcept(nodes, 0, x)
    ensures PreviousLinked(nodes, null) ==> PreviousExcept(nodes, |nodes|, x)
  {
  }

  /** The list goes past the range from `lo` to `hi`: forward always, and backward unless the range is a proper
      prefix. */
  ghost predicate PastLinked<T>(nodes: seq<Node<T>>, lo: nat, hi: nat)
    requires lo < hi <= |nodes|
    reads nodes`next, nodes`previous
  {
    && NextExcept(nodes, lo, At(nodes, hi))
    && if lo > 0 || hi == |nodes| then PreviousExcept(nodes, hi, At(nodes, lo - 1))
       else nodes[hi].previous == nodes[hi - 1]
  }

  /** Link the node before a range with the node behind it. `ok` is false when that goes through `end()`. */
  method LinkPast<T>(savedCurrentPrevious: Node?<T>, end: Node?<T>, ghost nodes: seq<Node<T>>, ghost lo: nat,
                     ghost hi: nat)
    returns (ok: bool)
    requires lo < hi <= |nodes| && savedCurrentPrevious == At(nodes, lo - 1) && end == At(nodes, hi)
    requires Distinct(nodes) && NextLinked(nodes, null) && PreviousLinked(nodes, null)
    modifies NodesAt(savedCurrentPrevious)`next, NodesAt(end)`previous
    ensures ok <==> lo == 0 || hi < |nodes|
    ensures ok ==> PastLinked(nodes, lo, hi)
  {
    hide Distinct, NextLinked, PreviousLinked, NextExcept, PreviousExcept;
    Neighbours(nodes, hi);
    NoneExcept(nodes, end);
    NoneExcept(nodes, null);
    if savedCurrentPrevious != null {
      LinkNext(savedCurrentPrevious, end, nodes, lo);
      if end == null {
        return false;
      }
      LinkPrevious(end, savedCurrentPrevious, nodes, hi);
    }
    ok := true;
  }

  lemma {:induction false} NotLinked<T>(nodes: seq<Node<T>>)
    requires nodes != [] && nodes[0].previous != null
    ensures !PreviousLinked(nodes, null)
  {
  }

  /** `self->next = next`, at the end of a chain. */
  method CloseChain<T>(self: Node<T>, next: Node?<T>, ghost chain: seq<Node<T>>)
    requires Distinct(chain) && NextLinked(chain, null) && chain != [] && self == chain[|chain| - 1]
    modifies self`next
    ensures NextLinked(chain, next)
  {
    Differs(chain, |chain| - 1);
    self.next := next;
  }

  /** A node is a chain by itself. */
  lemma {:induction false} Single<T>(node: Node<T>)
    ensures Distinct([node]) && NextLinked([node], node.next) && PreviousLinked([node], node.previous)
  {
  }

  ghost predicate IsData<T>(nodes: seq<Node<T>>, s: seq<T>)
    reads nodes`data
  {
    |s| == |nodes| && forall i :: 0 <= i < |s| ==> s[i] == nodes[i].data
  }

  ghost function DataOf<T>(nodes: seq<Node<T>>): (s: seq<T>)
    reads nodes`data
    ensures IsData(nodes, s)
  {
    DataExists(nodes);
    var s :| IsData(nodes, s);
    s
  }

  lemma {:induction false} DataExists<T>(nodes: seq<Node<T>>)
    ensures exists s :: IsData(nodes, s)
  {
    if nodes == [] {
      assert IsData(nodes, []);
    } else {
      var k := |nodes| - 1;
      DataExists(nodes[..k]);
      var s :| IsData(nodes[..k], s);
      assert IsData(nodes, s + [nodes[k].data]);
    }
  }

  /** Splicing a chain in before position `i`: the chain is linked between its two neighbours, they point to its ends,
      and all other links are as they were. */
  lemma {:induction false} Spliced<T>(nodes: seq<Node<T>>, chain: seq<Node<T>>, i: nat)
    requires i <= |nodes| && |chain| > 0
    requires Distinct(nodes) && Distinct(chain) && forall j :: 0 <= j < |chain| ==> chain[j] !in nodes
    requires NextLinked(chain, At(nodes, i)) && PreviousLinked(chain, At(nodes, i - 1))
    requires NextExcept(nodes, i, chain[0])
    requires PreviousExcept(nodes, i, chain[|chain| - 1])
    ensures Distinct(nodes[..i] + chain + nodes[i..])
    ensures NextLinked(nodes[..i] + chain + nodes[i..], null)
    ensures PreviousLinked(nodes[..i] + chain + nodes[i..], null)
    ensures var longer := nodes[..i] + chain + nodes[i..];
            && At(longer, 0) == (if i == 0 then chain[0] else At(nodes, 0))
            && At(longer, |longer| - 1) == if i == |nodes| then chain[|chain| - 1] else At(nodes, |nodes| - 1)
  {
    hide Distinct, NextLinked, PreviousLinked, NextExcept, PreviousExcept;
    SplicedDistinct(nodes, chain, i);
    SplicedNext(nodes, chain, i);
    SplicedPrevious(nodes, chain, i);
  }

  lemma {:induction false} SplicedAt<T>(nodes: seq<T>, chain: seq<T>, i: nat)
    requires i <= |nodes|
    ensures var longer, k := nodes[..i] + chain + nodes[i..], |chain|;
            forall j :: 0 <= j < |longer| ==>
                          longer[j] == if j < i then nodes[j] else if j < i + k then chain[j - i] else nodes[j - k]
  {
  }

  lemma {:induction false} SplicedDistinct<T>(nodes: seq<Node<T>>, chain: seq<Node<T>>, i: nat)
    requires i <= |nodes|
    requires Distinct(nodes) && Distinct(chain) && forall j :: 0 <= j < |chain| ==> chain[j] !in nodes
    ensures Distinct(nodes[..i] + chain + nodes[i..])
  {
    var longer, k := nodes[..i] + chain + nodes[i..], |chain|;
    SplicedAt(nodes, chain, i);
    forall h, j | 0 <= h < j < |longer|
      ensures NodesDiffer(longer, h, j)
    {
      if i <= h && j < i + k {
        assert NodesDiffer(chain, h - i, j - i);
      } else if !(i <= h < i + k) && !(i <= j < i + k) {
        assert NodesDiffer(nodes, if h < i then h else h - k, if j < i then j else j - k);
      }
    }
  }

  lemma {:induction false} SplicedNext<T>(nodes: seq<Node<T>>, chain: seq<Node<T>>, i: nat)
    requires i <= |nodes| && |chain| > 0
    requires NextLinked(chain, At(nodes, i))
    requires NextExcept(nodes, i, chain[0])
    ensures NextLinked(nodes[..i] + chain + nodes[i..], null)
  {
    SplicedAt(nodes, chain, i);
  }

  lemma {:induction false} SplicedPrevious<T>(nodes: seq<Node<T>>, chain: seq<Node<T>>, i: nat)
    requires i <= |nodes| && |chain| > 0
    requires PreviousLinked(chain, At(nodes, i - 1))
    requires PreviousExcept(nodes, i, chain[|chain| - 1])
    ensures PreviousLinked(nodes[..i] + chain + nodes[i..], null)
  {
    SplicedAt(nodes, chain, i);
  }

  lemma {:induction false} Appended<T>(chain: seq<Node<T>>, node: Node<T>, before: Node?<T>)
    requires Distinct(chain) && node !in chain
    requires forall j {:trigger chain[j].next} :: 0 <= j < |chain| ==>
                                                    chain[j].next == if j + 1 < |chain| then chain[j + 1] else node
    requires PreviousLinked(chain, before)
    requires node.previous == if chain == [] then before else chain[|chain| - 1]
    ensures Distinct(chain + [node])
    ensures NextLinked(chain + [node], node.next) && PreviousLinked(chain + [node], before)
  {
    forall h, j | 0 <= h < j < |chain + [node]|
      ensures NodesDiffer(chain + [node], h, j)
    {
      assert j < |chain| ==> NodesDiffer(chain, h, j);
    }
  }

  /** Unlinking positions `lo` to `hi`: the neighbours on both sides point past the gap. */
  lemma {:induction false} UnsplicedNext<T>(nodes: seq<Node<T>>, lo: nat, hi: nat)
    requires lo <= hi <= |nodes| && Distinct(nodes)
    requires NextExcept(nodes, lo, At(nodes, hi))
    ensures Distinct(nodes[..lo] + nodes[hi..])
    ensures NextLinked(nodes[..lo] + nodes[hi..], null)
    ensures var shorter := nodes[..lo] + nodes[hi..];
            && At(shorter, 0) == (if lo == 0 then At(nodes, hi) else nodes[0])
            && At(shorter, |shorter| - 1) == if hi == |nodes| then At(nodes, lo - 1) else At(nodes, |nodes| - 1)
  {
    UnsplicedAt(nodes, lo, hi);
    var shorter := nodes[..lo] + nodes[hi..];
    forall h, j | 0 <= h < j < |shorter|
      ensures NodesDiffer(shorter, h, j)
    {
      assert NodesDiffer(nodes, if h < lo then h else h + hi - lo, if j < lo then j else j + hi - lo);
    }
  }

  lemma {:induction false} UnsplicedPrevious<T>(nodes: seq<Node<T>>, lo: nat, hi: nat)
    requires lo <= hi <= |nodes|
    requires PreviousExcept(nodes, hi, At(nodes, lo - 1))
    ensures PreviousLinked(nodes[..lo] + nodes[hi..], null)
  {
    UnsplicedAt(nodes, lo, hi);
  }

  lemma {:induction false} UnsplicedAt<T>(nodes: seq<T>, lo: nat, hi: nat)
    requires lo <= hi <= |nodes|
    ensures var shorter := nodes[..lo] + nodes[hi..];
            forall j :: 0 <= j < |shorter| ==> shorter[j] == if j < lo then nodes[j] else nodes[j + (hi - lo)]
  {
  }

  /** Both together, for the range erase. */
  lemma {:induction false} Unspliced<T>(nodes: seq<Node<T>>, lo: nat, hi: nat)
    requires lo < hi <= |nodes| && Distinct(nodes) && PastLinked(nodes, lo, hi)
    ensures var shorter := nodes[..lo] + nodes[hi..];
            && Distinct(shorter) && NextLinked(shorter, null)
            && (PreviousLinked(shorter, null) <==> lo > 0 || hi == |nodes|)
            && At(shorter, 0) == (if lo == 0 then At(nodes, hi) else nodes[0])
            && At(shorter, |shorter| - 1) == if hi == |nodes| then At(nodes, lo - 1) else At(nodes, |nodes| - 1)
  {
    hide Distinct, NextLinked, PreviousLinked, NextExcept, PreviousExcept;
    UnsplicedNext(nodes, lo, hi);
    if lo > 0 || hi == |nodes| {
      UnsplicedPrevious(nodes, lo, hi);
    } else {
      NotLinked(nodes[..lo] + nodes[hi..]);
    }
  }

  lemma {:induction false} InsertedTwice<T>(s: seq<T>, i: nat, x: T, t: seq<T>, chain: seq<T>)
    requires i <= |s| && t == s[..i] + [x] + s[i..]
    ensures i < |t| && t[i] == x
    ensures t[..i + 1] + chain + t[i + 1..] == s[..i] + ([x] + chain) + s[i..]
  {
    assert t[..i + 1] == s[..i] + [x] && t[i + 1..] == s[i..];
  }

  lemma {:induction false} InsertedMembers<T>(s: seq<T>, i: nat, x: T)
    requires i <= |s|
    ensures var t := s[..i] + [x] + s[i..];
            t[i] == x && forall j :: 0 <= j < |t| ==> t[j] in s || t[j] == x
  {
    var t := s[..i] + [x] + s[i..];
    forall j | 0 <= j < |t|
      ensures t[j] in s || t[j] == x
    {
      assert t[j] == if j < i then s[j] else if j == i then x else s[j - 1];
    }
  }

  class LinkedList<T> {
    var mBegin: Node?<T>
    var mBeforeEnd: Node?<T>
    var mSize: nat

    ghost var Nodes: seq<Node<T>>

    /** Following `next` from `mBegin` visits `mSize` distinct nodes and ends at `mBeforeEnd`. */
    ghost predicate WalksForward()
      reads this, Nodes`next
    {
      && Distinct(Nodes)
      && NextLinked(Nodes, null)
      && mBegin == At(Nodes, 0)
      && mBeforeEnd == At(Nodes, |Nodes| - 1)
      && mSize == |Nodes|
    }

    /** ... and `previous` mirrors `next`. */
    ghost predicate Valid()
      reads this, Nodes`next, Nodes`previous
    {
      WalksForward() && PreviousLinked(Nodes, null)
    }

    lemma {:induction false} WellLinked()
      requires Valid()
      ensures Distinct(Nodes) && NextLinked(Nodes, null) && PreviousLinked(Nodes, null)
      ensures mBegin == At(Nodes, 0) && mBeforeEnd == At(Nodes, |Nodes| - 1)
    {
    }

    constructor ()
      ensures Valid() && Nodes == []
    {
      mBegin, mBeforeEnd, mSize := null, null, 0;
      Nodes := [];
    }

    /** Insert before `where`, the node at position `i` or `end()`. */
    method EmplaceBefore(where: Node?<T>, data: T, ghost i: nat) returns (node: Node<T>)
      requires Valid()
      requires i <= |Nodes| && where == At(Nodes, i)
      modifies this, Nodes`next, Nodes`previous
      ensures Valid()
      ensures fresh(node) && node.data == data
      ensures Nodes == old(Nodes)[..i] + [node] + old(Nodes)[i..]
    {
      if where == null {
        node := EmplaceAfter(mBeforeEnd, data, i);
        return;
      }
      ghost var nodes := Nodes;
      hide Distinct, NextLinked, PreviousLinked, NextExcept, PreviousExcept;
      node := LinkBefore(where, data, i);
      Nodes := nodes[..i] + [node] + nodes[i..];
      Single(node);
      Spliced(nodes, [node], i);
    }

    /** The statements of that: what they do to the links. */
    method LinkBefore(where: Node<T>, data: T, ghost i: nat) returns (node: Node<T>)
      requires Valid()
      requires i < |Nodes| && where == Nodes[i]
      modifies this`mBegin, this`mSize, Nodes`next, Nodes`previous
      ensures fresh(node) && node.data == data && node.previous == At(Nodes, i - 1) && node.next == where
      ensures NextExcept(Nodes, i, node) && PreviousExcept(Nodes, i, node)
      ensures mSize == |Nodes| + 1 && mBegin == if i == 0 then node else At(Nodes, 0)
    {
      hide Distinct, NextLinked, PreviousLinked, NextExcept, PreviousExcept;
      Neighbours(Nodes, i);
      node := LinkBetween(where.previous, where, data, Nodes, i);
      mSize := mSize + 1;
      if mBegin == where {
        mBegin := node;
      }
    }

    /** Insert after `where`, and so at position `i`. When `where` is `end()` the list must be empty: otherwise a walk
        from the beginning sees the new node alone, while the size counts all, and the end and the links of the nodes
        of before stay as they were. */
    method EmplaceAfter(where: Node?<T>, data: T, ghost i: nat) returns (node: Node<T>)
      requires Valid()
      requires i <= |Nodes| && where == At(Nodes, i - 1)
      modifies this, Nodes`next, Nodes`previous
      ensures fresh(node) && node.data == data
      ensures where != null || old(Nodes) == [] ==> Valid() && Nodes == old(Nodes)[..i] + [node] + old(Nodes)[i..]
      ensures where == null && old(Nodes) != [] ==>
                && mBegin == node && node.previous == null && node.next == null && mSize == 1 + |old(Nodes)|
                && mBeforeEnd == old(mBeforeEnd) && NextLinked(old(Nodes), null) && PreviousLinked(old(Nodes), null)
    {
      ghost var nodes := Nodes;
      hide Distinct, NextLinked, PreviousLinked, NextExcept, PreviousExcept;
      node := LinkAfter(where, data, i);
      Nodes := nodes[..i] + [node] + nodes[i..];
      Single(node);
      if where != null {
        Spliced(nodes, [node], i);
      } else {
        assert nodes == [] ==> Nodes == [node];
      }
    }

    /** The statements of that: what they do to the links. */
    method LinkAfter(where: Node?<T>, data: T, ghost i: nat) returns (node: Node<T>)
      requires Valid()
      requires i <= |Nodes| && where == At(Nodes, i - 1)
      modifies this`mBegin, this`mBeforeEnd, this`mSize, Nodes`next, Nodes`previous
      ensures fresh(node) && node.data == data && node.previous == where
      ensures node.next == if where == null then null else At(Nodes, i)
      ensures if where == null then NextLinked(Nodes, null) && PreviousLinked(Nodes, null)
              else NextExcept(Nodes, i, node) && PreviousExcept(Nodes, i, node)
      ensures mSize == |Nodes| + 1 && mBegin == if where == null then node else At(Nodes, 0)
      ensures mBeforeEnd == if i == |Nodes| then node else At(Nodes, |Nodes| - 1)
    {
      hide Distinct, NextLinked, PreviousLinked, NextExcept, PreviousExcept;
      Neighbours(Nodes, i - 1);
      if where == null {
        node := new Node(null, null, data);
        mBegin := node;
      } else {
        node := LinkBetween(where, where.next, data, Nodes, i);
      }
      mSize := mSize + 1;
      if where == mBeforeEnd {
        mBeforeEnd := node;
      }
    }

    method EmplaceBack(data: T) returns (node: Node<T>)
      requires Valid()
      modifies this, Nodes`next, Nodes`previous
      ensures Valid()
      ensures fresh(node) && node.data == data
      ensures Nodes == old(Nodes) + [node] && mBeforeEnd == node
    {
      node := EmplaceAfter(mBeforeEnd, data, |Nodes|);
    }

    method EmplaceFront(data: T) returns (node: Node<T>)
      requires Valid()
      modifies this, Nodes`next, Nodes`previous
      ensures Valid()
      ensures fresh(node) && node.data == data
      ensures Nodes == [node] + old(Nodes)
    {
      node := EmplaceBefore(mBegin, data, 0);
    }

    /** Insert the values of an input range before `where`. */
    method Insert(where: Node?<T>, values: seq<T>, ghost i: nat) returns (ghost chain: seq<Node<T>>)
      requires Valid()
      requires i <= |Nodes| && where == At(Nodes, i)
      modifies this, Nodes`next, Nodes`previous
      ensures Valid()
      ensures Nodes == old(Nodes)[..i] + chain + old(Nodes)[i..]
      ensures forall j :: 0 <= j < |chain| ==> fresh(chain[j])
      ensures |chain| == |values| && forall j :: 0 <= j < |chain| ==> chain[j].data == values[j]
    {
      hide LinkedList.Valid;
      if values == [] {
        chain := [];
        return;
      }
      var newWhere := EmplaceBefore(where, values[0], i);
      ghost var once := Nodes;
      ghost var rest: seq<Node<T>> := [];
      InsertedMembers(old(Nodes), i, newWhere);
      if |values| > 1 {
        assert forall j :: 0 <= j < |once| ==> once[j] in old(Nodes) || fresh(once[j]);
        rest := InsertAfter(newWhere, values[1..], i + 1);
      }
      chain := [newWhere] + rest;
      InsertedTwice(old(Nodes), i, newWhere, once, rest);
    }

    /** Insert what is left of a range after its first element, which is at `where`. */
    method InsertAfter(where: Node<T>, values: seq<T>, ghost i: nat) returns (ghost chain: seq<Node<T>>)
      requires Valid()
      requires 0 < i <= |Nodes| && where == Nodes[i - 1]
      requires values != []
      modifies this, Nodes`next, Nodes`previous
      ensures Valid()
      ensures Nodes == old(Nodes)[..i] + chain + old(Nodes)[i..]
      ensures forall j :: 0 <= j < |chain| ==> fresh(chain[j])
      ensures |chain| == |values| && forall j :: 0 <= j < |chain| ==> chain[j].data == values[j]
    {
      ghost var nodes := Nodes;
      hide Distinct, NextLinked, PreviousLinked, NextExcept, PreviousExcept;
      chain := LinkRange(where, values, i);
      Nodes := nodes[..i] + chain + nodes[i..];
      Spliced(nodes, chain, i);
    }

    /** The statements of that: what they do to the links. */
    method LinkRange(where: Node<T>, values: seq<T>, ghost i: nat) returns (ghost chain: seq<Node<T>>)
      requires Valid()
      requires 0 < i <= |Nodes| && where == Nodes[i - 1]
      requires values != []
      modifies this`mBeforeEnd, this`mSize, Nodes`next, Nodes`previous
      ensures |chain| == |values| && forall j :: 0 <= j < |chain| ==> fresh(chain[j]) && chain[j].data == values[j]
      ensures Distinct(chain) && NextLinked(chain, At(Nodes, i)) && PreviousLinked(chain, where)
      ensures NextExcept(Nodes, i, chain[0]) && PreviousExcept(Nodes, i, chain[|chain| - 1])
      ensures mSize == |Nodes| + |chain|
      ensures mBeforeEnd == if i == |Nodes| then chain[|chain| - 1] else At(Nodes, |Nodes| - 1)
    {
      hide Distinct, NextLinked, PreviousLinked, NextExcept, PreviousExcept;
      Neighbours(Nodes, i - 1);
      var previousNext := where.next;
      var isBeforeEndUpdated := where == mBeforeEnd;
      var self;
      self, chain := ChainAfter(where, values, i);
      CloseChain(self, previousNext, chain);
      LinkPrevious(previousNext, self, Nodes, i);
      if isBeforeEndUpdated {
        mBeforeEnd := self;
      }
    }

    /** That loop, within the list. */
    method ChainAfter(where: Node<T>, values: seq<T>, ghost i: nat) returns (self: Node<T>, ghost chain: seq<Node<T>>)
      requires Distinct(Nodes) && NextLinked(Nodes, null)
      requires 0 < i <= |Nodes| && where == Nodes[i - 1] && values != []
      modifies this`mSize, where`next
      ensures |chain| == |values| && forall j :: 0 <= j < |chain| ==> fresh(chain[j]) && chain[j].data == values[j]
      ensures Distinct(chain) && NextLinked(chain, null) && PreviousLinked(chain, where)
      ensures self == chain[|chain| - 1] && NextExcept(Nodes, i, chain[0])
      ensures mSize == old(mSize) + |values|
    {
      Differs(Nodes, i - 1);
      self, chain := Chain(where, values);
    }

    /** The loop of `insertAfter`: hang a chain of new nodes off `where`. */
    method Chain(where: Node<T>, values: seq<T>) returns (self: Node<T>, ghost chain: seq<Node<T>>)
      modifies this`mSize, where`next
      ensures Distinct(chain)
      ensures forall j :: 0 <= j < |chain| ==> fresh(chain[j])
      ensures self == if chain == [] then where else chain[|chain| - 1]
      ensures self == where || fresh(self)
      ensures if chain == [] then where.next == old(where.next)
              else where.next == chain[0] && NextLinked(chain, null) && PreviousLinked(chain, where)
      ensures |chain| == |values| && forall j :: 0 <= j < |chain| ==> chain[j].data == values[j]
      ensures mSize == old(mSize) + |values|
    {
      self, chain := where, [];
      var k := 0;
      while k < |values|
        invariant 0 <= k <= |values| && |chain| == k
        invariant Distinct(chain) && forall j :: 0 <= j < |chain| ==> fresh(chain[j])
        invariant self == if k == 0 then where else chain[k - 1]
        invariant self == where || fresh(self)
        invariant if k == 0 then where.next == old(where.next)
                  else where.next == chain[0] && NextLinked(chain, null) && PreviousLinked(chain, where)
        invariant forall j :: 0 <= j < k ==> chain[j].data == values[j]
        invariant mSize == old(mSize) + k
      {
        Differs(chain, k - 1);
        var node := new Node(self, null, values[k]);
        self.next := node;
        ghost var was := chain;
        self, chain := node, chain + [node];
        mSize := mSize + 1;
        k := k + 1;
        Appended(was, node, where);
      }
    }

    /** Remove one node. For the last node of the list the result is not `end()` but the node before it. */
    method Erase(it: Node<T>, ghost i: nat) returns (r: Node?<T>)
      requires Valid()
      requires i < |Nodes| && it == Nodes[i]
      modifies this, Nodes`next, Nodes`previous
      ensures Valid()
      ensures Nodes == old(Nodes)[..i] + old(Nodes)[i + 1..]
      ensures r == At(old(Nodes), if i + 1 == |old(Nodes)| then i - 1 else i + 1)
    {
      ghost var nodes := Nodes;
      hide Distinct, NextLinked, PreviousLinked, NextExcept, PreviousExcept;
      r := Unlink(it, i);
      Nodes := nodes[..i] + nodes[i + 1..];
      UnsplicedNext(nodes, i, i + 1);
      UnsplicedPrevious(nodes, i, i + 1);
    }

    /** The statements of that: what they do to the links. */
    method Unlink(it: Node<T>, ghost i: nat) returns (r: Node?<T>)
      requires Valid()
      requires i < |Nodes| && it == Nodes[i]
      modifies this`mBegin, this`mBeforeEnd, this`mSize, Nodes`next, Nodes`previous
      ensures NextExcept(Nodes, i, At(Nodes, i + 1)) && PreviousExcept(Nodes, i + 1, At(Nodes, i - 1))
      ensures mSize == |Nodes| - 1
      ensures mBegin == (if i == 0 then At(Nodes, 1) else At(Nodes, 0))
      ensures mBeforeEnd == At(Nodes, if i + 1 == |Nodes| then |Nodes| - 2 else |Nodes| - 1)
      ensures r == At(Nodes, if i + 1 == |Nodes| then i - 1 else i + 1)
    {
      hide Distinct, NextLinked, PreviousLinked, NextExcept, PreviousExcept;
      Neighbours(Nodes, i);
      var next, previous := it.next, it.previous;
      LinkPrevious(next, previous, Nodes, i + 1);
      LinkNext(previous, next, Nodes, i);
      mSize := mSize - 1;
      if it == mBegin {
        mBegin := next;
      }
      r := next;
      if it == mBeforeEnd {
        mBeforeEnd := previous;
        r := mBeforeEnd;
      }
    }

    method PopBack()
      requires Valid() && mBeforeEnd != null
      modifies this, Nodes`next, Nodes`previous
      ensures Valid()
      ensures Nodes == old(Nodes)[..|old(Nodes)| - 1]
    {
      var _ := Erase(mBeforeEnd, |Nodes| - 1);
    }

    method PopFront()
      requires Valid() && mBegin != null
      modifies this, Nodes`next, Nodes`previous
      ensures Valid()
      ensures Nodes == old(Nodes)[1..]
    {
      var _ := Erase(mBegin, 0);
    }

    /** Remove positions `lo` to `hi`. `ok` is false when the source writes through `end()`: exactly when nodes
        remain before the range but none after it. Otherwise the list is right walking forward; walking backward it
        is right exactly when the range was empty, left nodes before it, or left none at all. A prefix leaves the
        new first node pointing back at a deleted one. */
    method EraseRange(begin: Node?<T>, end: Node?<T>, ghost lo: nat, ghost hi: nat) returns (ok: bool)
      requires Valid()
      requires lo <= hi <= |Nodes| && begin == At(Nodes, lo) && end == At(Nodes, hi)
      modifies this, Nodes`next, Nodes`previous
      ensures ok <==> lo == hi || lo == 0 || hi < |old(Nodes)|
      ensures ok ==> Nodes == old(Nodes)[..lo] + old(Nodes)[hi..] && WalksForward()
      ensures ok ==> (Valid() <==> lo == hi || lo > 0 || hi == |old(Nodes)|)
    {
      ghost var nodes := Nodes;
      hide Distinct, NextLinked, PreviousLinked, NextExcept, PreviousExcept, PastLinked;
      SamePosition(nodes, lo, hi);
      if begin == end {
        assert nodes == nodes[..lo] + nodes[hi..];
        return true;
      }
      ok := UnlinkRange(begin, end, lo, hi);
      if ok {
        Nodes := nodes[..lo] + nodes[hi..];
        Unspliced(nodes, lo, hi);
      }
    }

    /** The statements of that: what they do to the links. */
    method UnlinkRange(begin: Node<T>, end: Node?<T>, ghost lo: nat, ghost hi: nat) returns (ok: bool)
      requires Valid()
      requires lo < hi <= |Nodes| && begin == Nodes[lo] && end == At(Nodes, hi)
      modifies this`mBegin, this`mBeforeEnd, this`mSize, Nodes`next, Nodes`previous
      ensures ok <==> lo == 0 || hi < |Nodes|
      ensures ok ==> PastLinked(Nodes, lo, hi) && mSize == |Nodes| - (hi - lo)
      ensures ok ==> mBegin == (if lo == 0 then end else At(Nodes, 0))
      ensures ok ==> mBeforeEnd == if hi == |Nodes| then null else At(Nodes, |Nodes| - 1)
    {
      hide Distinct, NextLinked, PreviousLinked, NextExcept, PreviousExcept, PastLinked;
      Neighbours(Nodes, lo);
      var savedCurrentPrevious := begin.previous;
      var isBeginInvalidated, isBeforeEndInvalidated := DeleteRange(begin, end, lo, hi);
      ok := LinkPast(savedCurrentPrevious, end, Nodes, lo, hi);
      if ok {
        MoveEnds(end, isBeginInvalidated, isBeforeEndInvalidated);
      }
    }

    method MoveEnds(end: Node?<T>, isBeginInvalidated: bool, isBeforeEndInvalidated: bool)
      modifies this`mBegin, this`mBeforeEnd
      ensures mBegin == if isBeginInvalidated then end else old(mBegin)
      ensures mBeforeEnd == if isBeforeEndInvalidated then end else old(mBeforeEnd)
    {
      if isBeginInvalidated {
        mBegin := end;
      }
      if isBeforeEndInvalidated {
        mBeforeEnd := end;
      }
    }

    /** The loop of the range `erase`: go from `begin` to `end`, and note whether the ends of the list are on the
        way. */
    method DeleteRange(begin: Node<T>, end: Node?<T>, ghost lo: nat, ghost hi: nat)
      returns (isBeginInvalidated: bool, isBeforeEndInvalidated: bool)
      requires Valid()
      requires lo < hi <= |Nodes| && begin == Nodes[lo] && end == At(Nodes, hi)
      modifies this`mSize
      ensures mSize == |Nodes| - (hi - lo)
      ensures isBeginInvalidated <==> lo == 0
      ensures isBeforeEndInvalidated <==> hi == |Nodes|
    {
      Differs(Nodes, 0);
      Differs(Nodes, |Nodes| - 1);
      Differs(Nodes, hi);
      var it: Node?<T> := begin;
      isBeginInvalidated, isBeforeEndInvalidated := false, false;
      ghost var k := lo;
      while it != end
        invariant lo <= k <= hi && it == At(Nodes, k)
        invariant mSize == |Nodes| - (k - lo)
        invariant isBeginInvalidated <==> k > lo == 0
        invariant isBeforeEndInvalidated <==> k == |Nodes|
        decreases hi - k
      {
        if it == mBegin {
          isBeginInvalidated := true;
        }
        if it == mBeforeEnd {
          isBeforeEndInvalidated := true;
        }
        it := it.next;
        mSize := mSize - 1;
        k := k + 1;
      }
    }

    method Clear()
      requires Valid()
      modifies this, Nodes`next, Nodes`previous
      ensures Valid() && Nodes == []
    {
      if mBegin == null {
        return;
      }
      var _ := EraseRange(mBegin, null, 0, |Nodes|);
    }

    /** What an iteration from `begin()` to `end()` sees. */
    method Values() returns (values: seq<T>)
      requires Valid()
      ensures |values| == |Nodes| && forall j :: 0 <= j < |Nodes| ==> values[j] == Nodes[j].data
    {
      values := [];
      var it := mBegin;
      while it != null
        invariant |values| <= |Nodes| && it == At(Nodes, |values|)
        invariant forall j :: 0 <= j < |values| ==> values[j] == Nodes[j].data
        decreases |Nodes| - |values|
      {
        values := values + [it.data];
        it := it.next;
      }
    }

    /** Copy assignment. Assigning a list to itself empties it, since the source clears the list before it copies. */
    method Assign(other: LinkedList<T>)
      requires Valid() && other.Valid()
      requires other != this ==> forall j :: 0 <= j < |other.Nodes| ==> other.Nodes[j] !in Nodes
      modifies this, Nodes`next, Nodes`previous
      ensures Valid()
      ensures other == this ==> Nodes == []
      ensures other != this ==>
                && other.Valid()
                && |Nodes| == |other.Nodes|
                && forall j :: 0 <= j < |Nodes| ==> fresh(Nodes[j]) && Nodes[j].data == other.Nodes[j].data
    {
      Clear();
      var values := other.Values();
      var _ := Insert(null, values, 0);
    }

    method Swap(other: LinkedList<T>)
      requires Valid() && other.Valid()
      modifies this, other
      ensures Valid() && other.Valid()
      ensures Nodes == old(other.Nodes) && other.Nodes == old(Nodes)
    {
      hide Distinct, NextLinked, PreviousLinked;
      SwapFields(other);
    }

    /** The statements of that. */
    method SwapFields(other: LinkedList<T>)
      modifies this, other
      ensures mBegin == old(other.mBegin) && other.mBegin == old(mBegin)
      ensures mBeforeEnd == old(other.mBeforeEnd) && other.mBeforeEnd == old(mBeforeEnd)
      ensures mSize == old(other.mSize) && other.mSize == old(mSize)
      ensures Nodes == old(other.Nodes) && other.Nodes == old(Nodes)
    {
      var begin, beforeEnd, size := other.mBegin, other.mBeforeEnd, other.mSize;
      ghost var nodes := other.Nodes;
      other.mBegin, other.mBeforeEnd, other.mSize := mBegin, mBeforeEnd, mSize;
      other.Nodes := Nodes;
      mBegin, mBeforeEnd, mSize := begin, beforeEnd, size;
      Nodes := nodes;
    }
  }
}
