/** `FieldReader` of Base/FieldReader.hpp over an `InputStreamVector`. */
module StreamReaders {
  import opened Codec
  import opened Fields
  import opened FieldReaders
  import opened LinkedLists
  import opened InputStreams

  /** The first `n` bytes, with zeros for those that are not there. */
  ghost function Head(flat: seq<byte>, n: nat): (r: seq<byte>)
    ensures |r| == n
    ensures n <= |flat| ==> r == flat[..n]
  {
    seq(n, i requires 0 <= i < n => if i < |flat| then flat[i] else 0)
  }

  lemma {:induction false} StreamNext(order: ByteOrder, w: Width, n: nat, flat: seq<byte>, xs: seq<Integer>, i: nat)
    requires i < n && |xs| == i && i * w.Size() <= |flat|
    requires n * w.Size() <= |flat| ==> ReadSoFar(order, w, n, flat, xs, i)
    ensures i * w.Size() + w.Size() == (i + 1) * w.Size() <= n * w.Size()
    ensures (i + 1) * w.Size() <= |flat| ==>
              && After(After(flat, i * w.Size()), w.Size()) == After(flat, (i + 1) * w.Size())
              && (n * w.Size() <= |flat| ==>
                    ReadSoFar(order, w, n, flat, xs + [Decode(order, w, After(flat, i * w.Size())[..w.Size()])], i + 1))
  {
    hide Decode, ReadSoFar;
    var k := w.Size();
    assert n * k == (n - i - 1) * k + (i + 1) * k && (i + 1) * k == i * k + k;
    if (i + 1) * k <= |flat| {
      AfterTwice(flat, i * k, k);
      if n * k <= |flat| {
        ReadNext(order, w, n, flat, xs, i);
      }
    }
  }

  function AsField<T>(r: Outcome<T>, field: T -> Field): Outcome<Field> {
    match r
    case Value(x) => Value(field(x))
    case NoEnoughLength => NoEnoughLength
    case Fault => Fault
  }

  /** What trying to read a field comes to: the outcome, and what is buffered and still to arrive after it. */
  ghost function TryRead(order: ByteOrder, shape: Shape, flat: seq<byte>, network: seq<Received>):
    (r: (Outcome<Field>, seq<byte>, seq<Received>))
    ensures r.0.Value? ==> ShapeOf(r.0.value) == shape
  {
    var (has, filled, rest) := Fill(flat, network, shape.Size());
    if !has then (NoEnoughLength, filled, rest)
    else if 0 < shape.Size() == |filled| then (Fault, filled, rest)
    else (Value(DecodeField(order, shape, filled)), After(filled, shape.Size()), rest)
  }

  ghost function Run(order: ByteOrder, shapes: seq<Shape>, flat: seq<byte>,
                     network: seq<Received>): seq<Outcome<Field>> {
    if shapes == [] then []
    else
      var (outcome, left, rest) := TryRead(order, shapes[0], flat, network);
      [outcome] + if outcome.Value? then Run(order, shapes[1..], left, rest) else []
  }

  lemma {:induction false} PickedNothing(order: ByteOrder, s: seq<byte>)
    ensures Picked(order, s, [])
  {
  }

  class StreamReader {
    const mVector: InputStreamVector
    const mOrder: ByteOrder

    constructor (vector: InputStreamVector, order: ByteOrder)
      ensures mVector == vector && mOrder == order
    {
      mVector, mOrder := vector, order;
    }

    /** `readValue`, overloaded by the width of the integer. */
    method ReadValue(w: Width) returns (x: Integer)
      requires mVector.Valid()
      ensures x == Decode(mOrder, w, Head(mVector.Flat(), w.Size()))
    {
      hide Decode, Assembled, Picked, Head;
      ghost var head := Head(mVector.Flat(), w.Size());
      PickedNothing(mOrder, head);
      var parts;
      match w {
        case W8 =>
          parts := Pick(1, [], head);
        case W16 =>
          parts := Pick(2, [], head);
          parts := Pick(2, parts, head);
        case W32 =>
          parts := PickFour(4, [], head);
        case W64 =>
          parts := PickFour(8, [], head);
          parts := PickFour(8, parts, head);
      }
      PickedRight(mOrder, w, head, parts);
      return Assembled(w, parts);
    }

    method PickFour(n: nat, parts: seq<byte>, ghost head: seq<byte>) returns (longer: seq<byte>)
      requires mVector.Valid() && |parts| + 4 <= n && head == Head(mVector.Flat(), n)
      requires Picked(mOrder, head, parts)
      ensures Picked(mOrder, head, longer) && |longer| == |parts| + 4
    {
      hide Picked, InputStreamVector.Valid;
      longer := Pick(n, parts, head);
      longer := Pick(n, longer, head);
      longer := Pick(n, longer, head);
      longer := Pick(n, longer, head);
    }

    /** The next of `n` bytes, counted from the highest. */
    method Pick(n: nat, parts: seq<byte>, ghost head: seq<byte>) returns (longer: seq<byte>)
      requires mVector.Valid() && |parts| < n && head == Head(mVector.Flat(), n)
      requires Picked(mOrder, head, parts)
      ensures Picked(mOrder, head, longer) && |longer| == |parts| + 1
    {
      var b := mVector.Get(Index(mOrder, |parts|, n));
      return parts + [b];
    }

    /** `ok` is false when the read takes all that is buffered, or more: it then goes through the front of an empty
        queue. */
    method ReadT(w: Width) returns (ok: bool, x: Integer)
      requires mVector.Valid()
      modifies mVector, mVector.mCurrentVector, mVector.mVectors, mVector.mVectors.Nodes
      ensures ok <==> w.Size() < |old(mVector.Flat())|
      ensures ok ==> mVector.Valid() && mVector.Flat() == After(old(mVector.Flat()), w.Size())
      ensures ok ==> x == Decode(mOrder, w, old(mVector.Flat())[..w.Size()])
      ensures mVector.network == old(mVector.network)
      ensures ok ==> mVector.mCurrentVector == old(mVector.mCurrentVector) || fresh(mVector.mCurrentVector)
      ensures ok ==> forall n :: n in mVector.mVectors.Nodes ==> n in old(mVector.mVectors.Nodes)
    {
      hide Decode, InputStreamVector.Flat;
      x := ReadValue(w);
      ok := mVector.IncreaseBegin(w.Size());
    }

    /** `ok` is false when a read of an element does not go through: unless there are no elements to read, exactly
        when they take all that is buffered, or more. */
    method ReadTVector(w: Width, n: nat) returns (ok: bool, xs: seq<Integer>)
      requires mVector.Valid()
      modifies mVector, mVector.mCurrentVector, mVector.mVectors, mVector.mVectors.Nodes
      ensures ok <==> n == 0 || n * w.Size() < |old(mVector.Flat())|
      ensures ok ==> mVector.Valid() && n * w.Size() <= |old(mVector.Flat())|
      ensures ok ==> mVector.Flat() == After(old(mVector.Flat()), n * w.Size())
      ensures ok ==> xs == DecodeIntegers(mOrder, w, n, old(mVector.Flat()))
      ensures mVector.network == old(mVector.network)
      ensures ok ==> mVector.mCurrentVector == old(mVector.mCurrentVector) || fresh(mVector.mCurrentVector)
      ensures ok ==> forall n :: n in mVector.mVectors.Nodes ==> n in old(mVector.mVectors.Nodes)
    {
      hide Decode, DecodeIntegers, ReadSoFar, After, LinkedList.Valid, InputStreamVector.Flat;
      ghost var flat := mVector.Flat();
      xs := [];
      AfterNothing(flat);
      if n * w.Size() <= |flat| {
        ReadAllSoFar(mOrder, w, n, flat, []);
      }
      for i := 0 to n
        invariant mVector.Valid()
        invariant |xs| == i && i * w.Size() <= |flat| && mVector.Flat() == After(flat, i * w.Size())
        invariant i > 0 ==> i * w.Size() < |flat|
        invariant n * w.Size() <= |flat| ==> ReadSoFar(mOrder, w, n, flat, xs, i)
        invariant mVector.network == old(mVector.network)
        invariant mVector.mCurrentVector == old(mVector.mCurrentVector) || fresh(mVector.mCurrentVector)
        invariant forall n :: n in mVector.mVectors.Nodes ==> n in old(mVector.mVectors.Nodes)
      {
        ghost var nodes := mVector.mVectors.Nodes;
        assert forall j :: 0 <= j < |nodes| ==> nodes[j] in old(mVector.mVectors.Nodes);
        StreamNext(mOrder, w, n, flat, xs, i);
        var x;
        ok, x := ReadT(w);
        if !ok {
          return;
        }
        xs := xs + [x];
      }
      ok := true;
      if n * w.Size() <= |flat| {
        ReadAllSoFar(mOrder, w, n, flat, xs);
      }
    }

    method TryReadT(w: Width) returns (r: Outcome<Integer>)
      requires mVector.Valid()
      modifies mVector, mVector.mCurrentVector, mVector.mVectors, mVector.mVectors.Nodes
      ensures var (outcome, flat, network) := TryRead(mOrder, OneOf(w), old(mVector.Flat()), old(mVector.network));
              && outcome == AsField(r, x => One(x))
              && (!r.Fault? ==> mVector.Valid() && mVector.Flat() == flat && mVector.network == network)
      ensures !r.Fault? ==> mVector.mCurrentVector == old(mVector.mCurrentVector) || fresh(mVector.mCurrentVector)
      ensures !r.Fault? ==> forall n :: n in mVector.mVectors.Nodes ==> n in old(mVector.mVectors.Nodes) || fresh(n)
    {
      hide Decode, LinkedList.Valid, InputStreamVector.Flat;
      var can := mVector.HasLength(w.Size());
      if !can {
        return NoEnoughLength;
      }
      ghost var nodes := mVector.mVectors.Nodes;
      assert forall j :: 0 <= j < |nodes| ==> nodes[j] in old(mVector.mVectors.Nodes) || fresh(nodes[j]);
      var ok, x := ReadT(w);
      return if ok then Value(x) else Fault;
    }

    method TryReadTVector(w: Width, n: nat) returns (r: Outcome<seq<Integer>>)
      requires mVector.Valid()
      modifies mVector, mVector.mCurrentVector, mVector.mVectors, mVector.mVectors.Nodes
      ensures var (outcome, flat, network) := TryRead(mOrder, ManyOf(w, n), old(mVector.Flat()), old(mVector.network));
              && outcome == AsField(r, xs => Many(w, xs))
              && (!r.Fault? ==> mVector.Valid() && mVector.Flat() == flat && mVector.network == network)
      ensures !r.Fault? ==> mVector.mCurrentVector == old(mVector.mCurrentVector) || fresh(mVector.mCurrentVector)
      ensures !r.Fault? ==> forall n :: n in mVector.mVectors.Nodes ==> n in old(mVector.mVectors.Nodes) || fresh(n)
    {
      hide Decode, DecodeIntegers, LinkedList.Valid, InputStreamVector.Flat;
      var can := mVector.HasLength(n * w.Size());
      if !can {
        return NoEnoughLength;
      }
      ghost var nodes := mVector.mVectors.Nodes;
      assert forall j :: 0 <= j < |nodes| ==> nodes[j] in old(mVector.mVectors.Nodes) || fresh(nodes[j]);
      assert n * w.Size() == 0 <==> n == 0;
      var ok, xs := ReadTVector(w, n);
      return if ok then Value(xs) else Fault;
    }

    /** One field after another, until one cannot be read. */
    method TryReadFields(shapes: seq<Shape>) returns (outcomes: seq<Outcome<Field>>)
      requires mVector.Valid()
      modifies mVector, mVector.mCurrentVector, mVector.mVectors, mVector.mVectors.Nodes
      ensures outcomes == Run(mOrder, shapes, old(mVector.Flat()), old(mVector.network))
    {
      hide DecodeField, LinkedList.Valid, InputStreamVector.Flat, TryRead;
      if shapes == [] {
        return [];
      }
      var outcome;
      match shapes[0] {
        case OneOf(w) =>
          var r := TryReadT(w);
          outcome := AsField(r, x => One(x));
        case ManyOf(w, n) =>
          var r := TryReadTVector(w, n);
          outcome := AsField(r, xs => Many(w, xs));
      }
      if !outcome.Value? {
        return [outcome];
      }
      ghost var nodes := mVector.mVectors.Nodes;
      assert forall j :: 0 <= j < |nodes| ==> nodes[j] in old(mVector.mVectors.Nodes) || fresh(nodes[j]);
      var rest := TryReadFields(shapes[1..]);
      return [outcome] + rest;
    }
  }
}
