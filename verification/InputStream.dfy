/** `InputStreamVector` of Network/Stream.hpp and Network/Stream.cpp: a queue of received packets that looks like
    one flat sequence of bytes. */
module InputStreams {
  import opened SizeTypes
  import opened Codec
  import opened LinkedLists
  import opened ExtendedVectors

  type Buffer = s: seq<byte> | |s| < SIZE_RANGE

  /** What one call of `receiveData` gives: a packet, never empty since an empty one counts as a disconnection, or
      a failure. */
  type Packet = s: Buffer | 0 < |s| witness [0]

  datatype Received = Data(packet: Packet) | Failure

  /** `s` without its first `n` bytes. */
  ghost function After(s: seq<byte>, n: nat): (r: seq<byte>)
    requires n <= |s|
    ensures |r| == |s| - n
  {
    s[n..]
  }

  lemma {:induction false} AfterAt(s: seq<byte>, n: nat, i: nat)
    requires n + i < |s|
    ensures After(s, n)[i] == s[n + i]
  {
  }

  lemma {:induction false} AfterNothing(s: seq<byte>)
    ensures After(s, 0) == s
  {
  }

  lemma {:induction false} AfterTwice(s: seq<byte>, m: nat, n: nat)
    requires m + n <= |s|
    ensures After(After(s, m), n) == After(s, m + n)
  {
  }

  ghost function Concat(packets: seq<seq<byte>>): seq<byte> {
    if packets == [] then [] else packets[0] + Concat(packets[1..])
  }

  lemma {:induction false} ConcatLast(packets: seq<seq<byte>>, packet: seq<byte>)
    ensures Concat(packets + [packet]) == Concat(packets) + packet
  {
    if packets == [] {
      assert [packet][1..] == [];
    } else {
      ConcatLast(packets[1..], packet);
      assert (packets + [packet])[1..] == packets[1..] + [packet];
    }
  }

  lemma {:induction false} ConcatFrom(packets: seq<seq<byte>>, i: nat)
    requires i < |packets|
    ensures Concat(packets[i..]) == packets[i] + Concat(packets[i + 1..])
  {
    assert packets[i..][0] == packets[i] && packets[i..][1..] == packets[i + 1..];
  }

  /** The bytes of the packets before the first failure. */
  ghost function Arriving(network: seq<Received>): seq<byte> {
    if network == [] || network[0].Failure? then [] else network[0].packet + Arriving(network[1..])
  }

  /** What `hasLength` comes to: whether there are enough bytes, the bytes that are buffered then, and what is
      still to arrive. It receives only while there are too few, and stops at the first failure. */
  ghost function Fill(flat: seq<byte>, network: seq<Received>, length: nat): (r: (bool, seq<byte>, seq<Received>))
    ensures r.0 <==> length <= |r.1|
    decreases |network|
  {
    if length <= |flat| then (true, flat, network)
    else if network == [] then (false, flat, network)
    else if network[0].Failure? then (false, flat, network[1..])
    else Fill(flat + network[0].packet, network[1..], length)
  }

  lemma {:induction false} FillPrefix(flat: seq<byte>, network: seq<Received>, length: nat)
    ensures flat <= Fill(flat, network, length).1
    decreases |network|
  {
    if |flat| < length && network != [] && network[0].Data? {
      FillPrefix(flat + network[0].packet, network[1..], length);
    }
  }

  /** Received bytes are only ever appended, in order: what was buffered stays a prefix, and no byte is lost or
      made up. There are enough bytes exactly when enough arrive before the first failure. */
  lemma {:induction false} FillKeeps(flat: seq<byte>, network: seq<Received>, length: nat)
    ensures var (has, filled, rest) := Fill(flat, network, length);
            && flat <= filled
            && (has <==> length <= |flat + Arriving(network)|)
            && flat + Arriving(network) == if has then filled + Arriving(rest) else filled
    decreases |network|
  {
    FillPrefix(flat, network, length);
    if |flat| < length && network != [] && network[0].Data? {
      FillKeeps(flat + network[0].packet, network[1..], length);
      JoinedThree(flat, network[0].packet, Arriving(network[1..]));
    }
  }

  /** Position `f` is that of the first failure, or the length when there is none. */
  ghost predicate FirstFailure(network: seq<Received>, f: nat) {
    && f <= |network|
    && (forall j :: 0 <= j < f ==> network[j].Data?)
    && (f < |network| ==> network[f].Failure?)
  }

  /** The bytes of the first `k` packets. */
  ghost function FirstBytes(network: seq<Received>, k: nat): seq<byte>
    requires k <= |network| && forall j :: 0 <= j < k ==> network[j].Data?
  {
    Concat(seq(k, j requires 0 <= j < k => network[j].packet))
  }

  lemma {:induction false} JoinedFirst(network: seq<Received>, k: nat)
    requires 0 < k <= |network| && forall j :: 0 <= j < k ==> network[j].Data?
    ensures FirstBytes(network, k) == network[0].packet + FirstBytes(network[1..], k - 1)
  {
    var packets := seq(k, j requires 0 <= j < k => network[j].packet);
    assert packets[1..] == seq(k - 1, j requires 0 <= j < k - 1 => network[1..][j].packet);
  }

  lemma {:induction false} FirstBytesSplit(network: seq<Received>, k: nat, j: nat)
    requires k + j <= |network| && forall i :: 0 <= i < k + j ==> network[i].Data?
    ensures FirstBytes(network, k + j) == FirstBytes(network, k) + FirstBytes(network[k..], j)
    decreases k
  {
    hide FirstBytes;
    NoneJoined(network);
    if k == 0 {
      assert network[0..] == network;
    } else {
      FirstBytesSplit(network[1..], k - 1, j);
      JoinedFirst(network, k + j);
      JoinedFirst(network, k);
      assert network[1..][k - 1..] == network[k..];
      JoinedThree(network[0].packet, FirstBytes(network[1..], k - 1), FirstBytes(network[k..], j));
    }
  }

  lemma {:induction false} ArrivingJoined(network: seq<Received>, f: nat)
    requires FirstFailure(network, f)
    ensures Arriving(network) == FirstBytes(network, f)
    decreases f
  {
    if f > 0 {
      ArrivingJoined(network[1..], f - 1);
      JoinedFirst(network, f);
    }
  }

  /** How far `hasLength` goes. When it fails, it has taken everything up to the first failure, and that, and
      nothing behind it. Otherwise it has taken as many packets as were needed, and not one more. */
  lemma {:induction false} FillTakes(flat: seq<byte>, network: seq<Received>, length: nat, f: nat)
    requires FirstFailure(network, f)
    ensures var (has, filled, rest) := Fill(flat, network, length);
            && (has <==> length <= |flat + FirstBytes(network, f)|)
            && (!has ==>
                  && filled == flat + FirstBytes(network, f)
                  && rest == if f < |network| then network[f + 1..] else [])
            && (has ==>
                  var k := |network| - |rest|;
                  && 0 <= k <= f && rest == network[k..] && filled == flat + FirstBytes(network, k)
                  && (k > 0 ==> |flat + FirstBytes(network, k - 1)| < length))
    decreases f
  {
    hide Concat;
    NoneJoined(network);
    if |flat| < length && f > 0 {
      var more := flat + network[0].packet;
      FillTakes(more, network[1..], length, f - 1);
      TakenFirst(flat, network, f);
      var (has, filled, rest) := Fill(flat, network, length);
      if has {
        var k := |network| - |rest|;
        TakenFirst(flat, network, k);
        if k > 1 {
          TakenFirst(flat, network, k - 1);
        }
      }
    }
  }

  lemma {:induction false} NoneJoined(network: seq<Received>)
    ensures FirstBytes(network, 0) == []
  {
  }

  lemma {:induction false} TakenFirst(flat: seq<byte>, network: seq<Received>, k: nat)
    requires 0 < k <= |network| && forall j :: 0 <= j < k ==> network[j].Data?
    ensures flat + FirstBytes(network, k) == flat + network[0].packet + FirstBytes(network[1..], k - 1)
  {
    JoinedFirst(network, k);
    JoinedThree(flat, network[0].packet, FirstBytes(network[1..], k - 1));
  }

  /** After a failure, the next `hasLength` finds all bytes that arrive behind it. */
  lemma {:induction false} FillAgain(flat: seq<byte>, network: seq<Received>, length: nat, f: nat, more: nat)
    requires FirstFailure(network, f) && f < |network| && !Fill(flat, network, length).0
    ensures var (_, filled, rest) := Fill(flat, network, length);
            Fill(filled, rest, more).0 <==> more <= |flat + Arriving(network) + Arriving(network[f + 1..])|
  {
    FillTakes(flat, network, length, f);
    ArrivingJoined(network, f);
    FillKeeps(flat + FirstBytes(network, f), network[f + 1..], more);
  }

  lemma {:induction false} JoinedThree(a: seq<byte>, b: seq<byte>, c: seq<byte>)
    ensures a + (b + c) == a + b + c
  {
  }

  lemma {:induction false} DataAppended<T>(nodes: seq<Node<T>>, node: Node<T>)
    ensures DataOf(nodes + [node]) == DataOf(nodes) + [node.data]
  {
  }

  class InputStreamVector {
    var mCurrentVector: ExtendedVector
    const mVectors: LinkedList<Buffer>
    var mVectorsSize: nat

    /** What the calls of `receiveData` are going to give, in order; after the last of them every call fails. */
    var network: seq<Received>

    ghost predicate PartsValid()
      reads this, mCurrentVector, mVectors, mVectors.Nodes
    {
      mCurrentVector.Valid() && mVectors.Valid()
    }

    ghost predicate Valid()
      reads this, mCurrentVector, mCurrentVector.mVector, mVectors, mVectors.Nodes
    {
      PartsValid() && mVectorsSize == |Flat()|
    }

    ghost function Queued(): seq<byte>
      reads this, mVectors, mVectors.Nodes
    {
      Concat(DataOf(mVectors.Nodes))
    }

    /** The flat sequence of bytes: the current window, followed by the queue. */
    ghost function Flat(): seq<byte>
      requires mCurrentVector.Valid()
      reads this, mCurrentVector, mCurrentVector.mVector, mVectors, mVectors.Nodes
    {
      mCurrentVector.Window() + Queued()
    }

    constructor (network: seq<Received>)
      ensures Valid() && Flat() == [] && this.network == network
    {
      mCurrentVector := new ExtendedVector([]);
      mVectors := new LinkedList<Buffer>();
      mVectorsSize := 0;
      this.network := network;
    }

    /** `operator[]`: the flat byte, wherever it is. An index out of range gives 0, after a report. */
    method Get(index: nat) returns (value: byte)
      requires Valid()
      ensures value == if index < |Flat()| then Flat()[index] else 0
    {
      var size := mCurrentVector.Size();
      if size <= index {
        var rest: nat := index - size;
        ghost var packets, i: nat := DataOf(mVectors.Nodes), 0;
        var it := mVectors.mBegin;
        assert packets[0..] == packets;
        while it != null
          invariant i <= |packets| && it == At(mVectors.Nodes, i)
          invariant rest < |Concat(packets[i..])| <==> index < |Flat()|
          invariant index < |Flat()| ==> Concat(packets[i..])[rest] == Flat()[index]
          decreases |packets| - i
        {
          ConcatFrom(packets, i);
          if |it.data| > rest {
            return it.data[rest];
          }
          rest := rest - |it.data|;
          it := it.next;
          i := i + 1;
        }
        return 0;
      } else {
        value := mCurrentVector.Get(index);
      }
    }

    /** Take the front of the queue as the current window. `ok` is false when there is none. */
    method SwitchToNextVector() returns (ok: bool)
      requires PartsValid()
      modifies this`mCurrentVector, mVectors, mVectors.Nodes
      ensures PartsValid()
      ensures ok <==> old(mVectors.Nodes) != []
      ensures ok ==>
                && fresh(mCurrentVector) && fresh(mCurrentVector.mVector)
                && mVectors.Nodes == old(mVectors.Nodes)[1..]
                && Flat() == old(Queued())
      ensures !ok ==> old(Queued()) == []
    {
      hide Distinct, NextLinked, PreviousLinked;
      if mVectors.mBegin == null {
        return false;
      }
      mCurrentVector := new ExtendedVector(mVectors.mBegin.data);
      mVectors.PopFront();
      assert DataOf(mVectors.Nodes) == old(DataOf(mVectors.Nodes))[1..];
      ok := true;
    }

    /** Drop `howMuch` bytes, over any number of packets. `ok` is false when the source takes the front of an empty
        queue: exactly when nothing would be left. */
    method IncreaseBegin(howMuch: nat) returns (ok: bool)
      requires Valid()
      modifies this, mCurrentVector, mVectors, mVectors.Nodes
      ensures ok <==> howMuch < |old(Flat())|
      ensures ok ==> Valid() && Flat() == After(old(Flat()), howMuch)
      ensures network == old(network)
      ensures ok ==> mCurrentVector == old(mCurrentVector) || fresh(mCurrentVector)
      ensures ok ==> forall n :: n in mVectors.Nodes ==> n in old(mVectors.Nodes)
    {
      hide LinkedList.Valid, ExtendedVector.Valid, ExtendedVector.Window, InputStreamVector.Flat, After;
      ghost var flat := Flat();
      AfterNothing(flat);
      var rest: nat := howMuch;
      var size := CurrentSize();
      while rest >= size
        invariant Valid() && size == |mCurrentVector.Window()| <= |Flat()|
        invariant rest <= howMuch <= |flat| + rest && Flat() == After(flat, howMuch - rest)
        invariant mCurrentVector == old(mCurrentVector) || fresh(mCurrentVector)
        invariant network == old(network)
        invariant forall j :: 0 <= j < |mVectors.Nodes| ==> mVectors.Nodes[j] in old(mVectors.Nodes)
        decreases |mVectors.Nodes|
      {
        AfterTwice(flat, howMuch - rest, size);
        rest := rest - size;
        ok := DropCurrent();
        if !ok {
          return;
        }
        size := CurrentSize();
      }
      AfterTwice(flat, howMuch - rest, rest);
      MoveBegin(rest);
      ok := true;
    }

    method CurrentSize() returns (size: nat)
      requires PartsValid()
      ensures mCurrentVector.Valid() && size == |mCurrentVector.Window()| <= |Flat()|
    {
      size := mCurrentVector.Size();
    }

    /** One round of the loop: the current window goes, and the next vector takes its place. */
    method DropCurrent() returns (ok: bool)
      requires Valid()
      modifies this`mCurrentVector, this`mVectorsSize, mVectors, mVectors.Nodes
      ensures ok <==> old(mVectors.Nodes) != []
      ensures ok ==> Valid() && Flat() == After(old(Flat()), |old(mCurrentVector.Window())|)
      ensures ok ==> fresh(mCurrentVector) && mVectors.Nodes == old(mVectors.Nodes)[1..]
      ensures !ok ==> old(|Flat()| == |mCurrentVector.Window()|)
    {
      hide LinkedList.Valid, Concat;
      var size := mCurrentVector.Size();
      assert Queued() == Flat()[size..];
      mVectorsSize := mVectorsSize - size;
      ok := SwitchToNextVector();
    }

    /** Move the offset within the current window. */
    method MoveBegin(howMuch: nat)
      requires PartsValid() && mVectorsSize == |Flat()|
      requires howMuch < |mCurrentVector.Window()|
      modifies this`mVectorsSize, mCurrentVector`mIndexBegin
      ensures Valid() && Flat() == After(old(Flat()), howMuch)
    {
      var _ := mCurrentVector.IncreaseBegin(howMuch);
      mVectorsSize := mVectorsSize - howMuch;
    }

    method ReceiveNewData() returns (ok: bool)
      requires Valid()
      modifies this`mVectorsSize, this`network, mVectors, mVectors.Nodes
      ensures Valid()
      ensures network == if old(network) == [] then [] else old(network)[1..]
      ensures ok <==> old(network) != [] && old(network)[0].Data?
      ensures Flat() == if ok then old(Flat()) + old(network)[0].packet else old(Flat())
      ensures mCurrentVector == old(mCurrentVector)
      ensures forall n :: n in mVectors.Nodes ==> n in old(mVectors.Nodes) || fresh(n)
    {
      hide Concat, LinkedList.Valid, IsData;
      var newData := ReceiveData();
      if newData.Data? {
        Append(newData.packet);
        return true;
      } else {
        return false;
      }
    }

    /** The packet at the end of the queue. */
    method Append(packet: Packet)
      requires Valid()
      modifies this`mVectorsSize, mVectors, mVectors.Nodes
      ensures Valid() && Flat() == old(Flat()) + packet
      ensures forall n :: n in mVectors.Nodes ==> n in old(mVectors.Nodes) || fresh(n)
    {
      hide Concat, LinkedList.Valid, IsData;
      mVectorsSize := mVectorsSize + |packet|;
      ghost var nodes, queue := mVectors.Nodes, DataOf(mVectors.Nodes);
      var node := mVectors.EmplaceBack(packet);
      DataAppended(nodes, node);
      ConcatLast(queue, packet);
      assert mCurrentVector.Window() == old(mCurrentVector.Window());
    }

    /** The call of the network. */
    method ReceiveData() returns (newData: Received)
      modifies this`network
      ensures newData == if old(network) == [] then Failure else old(network)[0]
      ensures network == if old(network) == [] then [] else old(network)[1..]
    {
      if network == [] {
        return Failure;
      }
      newData := network[0];
      network := network[1..];
    }

    method HasLength(length: nat) returns (has: bool)
      requires Valid()
      modifies this`mVectorsSize, this`network, mVectors, mVectors.Nodes
      ensures Valid()
      ensures (has, Flat(), network) == Fill(old(Flat()), old(network), length)
      ensures forall f: nat :: !has && FirstFailure(old(network), f) ==>
                                 network == if f < |old(network)| then old(network)[f + 1..] else []
      ensures forall n :: n in mVectors.Nodes ==> n in old(mVectors.Nodes) || fresh(n)
    {
      ghost var flat, calls := Flat(), network;
      forall f: nat | FirstFailure(calls, f)
        ensures var (has, _, rest) := Fill(flat, calls, length);
                !has ==> rest == if f < |calls| then calls[f + 1..] else []
      {
        FillTakes(flat, calls, length, f);
      }
      hide FirstFailure;
      while mVectorsSize < length
        invariant Valid()
        invariant Fill(Flat(), network, length) == Fill(flat, calls, length)
        invariant forall n :: n in mVectors.Nodes ==> n in old(mVectors.Nodes) || fresh(n)
        decreases length - mVectorsSize
      {
        ghost var nodes := mVectors.Nodes;
        assert forall j :: 0 <= j < |nodes| ==> nodes[j] in old(mVectors.Nodes) || fresh(nodes[j]);
        var result := ReceiveNewData();
        if !result {
          return false;
        }
      }
      return true;
    }
  }
}
