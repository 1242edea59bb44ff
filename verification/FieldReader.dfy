/** `FieldReader` of Base/FieldReader.hpp over an `ExtendedVector`, for both byte orders. */
module FieldReaders {
  import opened Codec
  import opened Fields
  import opened ExtendedVectors

  /** `parts` are the highest bytes of `s`, read in the order of the reader. */
  ghost predicate Picked(order: ByteOrder, s: seq<byte>, parts: seq<byte>) {
    && |parts| <= |s|
    && forall k :: 0 <= k < |parts| ==> parts[k] == s[Index(order, k, |s|)]
  }

  lemma {:induction false} PickedRight(order: ByteOrder, w: Width, s: seq<byte>, parts: seq<byte>)
    requires |s| == w.Size() == |parts| && Picked(order, s, parts)
    ensures Assembled(w, parts) == Decode(order, w, s)
  {
    hide Decode, Assembled;
    AssembledRight(w, parts);
    if order.BigEndian? {
      assert parts == s;
    } else {
      assert Reverse(parts) == s;
    }
  }

  /** `xs` are the first `i` of `n` integers that the bytes `s` hold. */
  ghost predicate ReadSoFar(order: ByteOrder, w: Width, n: nat, s: seq<byte>, xs: seq<Integer>, i: nat)
    requires n * w.Size() <= |s|
  {
    && |xs| == i <= n
    && (n - i) * w.Size() <= |s| - i * w.Size() <= |s|
    && xs + DecodeIntegers(order, w, n - i, s[i * w.Size()..]) == DecodeIntegers(order, w, n, s)
  }

  lemma {:induction false} Products(m: nat, k: nat)
    ensures (m + 1) * k == m * k + k
  {
  }

  lemma {:induction false} ReadNext(order: ByteOrder, w: Width, n: nat, s: seq<byte>, xs: seq<Integer>, i: nat)
    requires n * w.Size() <= |s| && i < n && ReadSoFar(order, w, n, s, xs, i)
    ensures i * w.Size() + w.Size() == (i + 1) * w.Size() <= |s|
    ensures ReadSoFar(order, w, n, s, xs + [Decode(order, w, s[i * w.Size()..][..w.Size()])], i + 1)
  {
    hide Decode, DecodeIntegers;
    var k := w.Size();
    Products(n - i - 1, k);
    Products(i, k);
    var rest := s[i * k..];
    assert rest == rest[..k] + rest[k..] && rest[k..] == s[(i + 1) * k..];
    DecodeIntegersStep(order, w, n - i - 1, rest[..k], rest[k..]);
  }

  lemma {:induction false} ReadAllSoFar(order: ByteOrder, w: Width, n: nat, flat: seq<byte>, xs: seq<Integer>)
    requires n * w.Size() <= |flat|
    ensures ReadSoFar(order, w, n, flat, [], 0)
    ensures ReadSoFar(order, w, n, flat, xs, n) ==> xs == DecodeIntegers(order, w, n, flat)
  {
    hide Decode;
    assert flat[0..] == flat;
  }

  /** `Expected`, and for a stream whose read takes all that is buffered, the fault that comes of it. */
  datatype Outcome<+T> = Value(value: T) | NoEnoughLength | Fault

  class FieldReader {
    const mVector: ExtendedVector
    const mOrder: ByteOrder

    constructor (vector: ExtendedVector, order: ByteOrder)
      ensures mVector == vector && mOrder == order
    {
      mVector, mOrder := vector, order;
    }

    ghost predicate Valid()
      reads this, mVector
    {
      mVector.Valid()
    }

    ghost function Window(): seq<byte>
      requires Valid()
      reads this, mVector, mVector.mVector
    {
      mVector.Window()
    }

    /** `readValue`, overloaded by the width of the integer: its bytes, the highest first, put together. */
    method ReadValue(w: Width) returns (x: Integer)
      requires Valid() && w.Size() <= |Window()|
      ensures x == Decode(mOrder, w, Window()[..w.Size()])
    {
      hide Decode, Assembled;
      var n := w.Size();
      var parts := seq(n, k requires 0 <= k < n && mVector.mIndexBegin + n <= mVector.mVector.Length
                          reads mVector, mVector.mVector => mVector.Get(Index(mOrder, k, n)));
      PickedRight(mOrder, w, Window()[..n], parts);
      return Assembled(w, parts);
    }

    method ReadT(w: Width) returns (x: Integer)
      requires Valid() && w.Size() <= |Window()|
      modifies mVector`mIndexBegin
      ensures Valid() && Window() == old(Window())[w.Size()..]
      ensures x == Decode(mOrder, w, old(Window())[..w.Size()])
    {
      hide Decode;
      x := ReadValue(w);
      var _ := mVector.IncreaseBegin(w.Size());
    }

    method ReadTVector(w: Width, n: nat) returns (xs: seq<Integer>)
      requires Valid() && n * w.Size() <= |Window()|
      modifies mVector`mIndexBegin
      ensures Valid() && Window() == old(Window())[n * w.Size()..]
      ensures xs == DecodeIntegers(mOrder, w, n, old(Window()))
    {
      hide Decode, DecodeIntegers, ReadSoFar;
      ghost var window := Window();
      xs := [];
      ReadAllSoFar(mOrder, w, n, window, []);
      for i := 0 to n
        invariant Valid() && i * w.Size() <= |window| && Window() == window[i * w.Size()..]
        invariant ReadSoFar(mOrder, w, n, window, xs, i)
      {
        ReadNext(mOrder, w, n, window, xs, i);
        var x := ReadT(w);
        xs := xs + [x];
      }
      ReadAllSoFar(mOrder, w, n, window, xs);
    }

    method TryReadT(w: Width) returns (r: Outcome<Integer>)
      requires Valid()
      modifies mVector`mIndexBegin
      ensures Valid()
      ensures r == if w.Size() <= |old(Window())| then Value(Decode(mOrder, w, old(Window())[..w.Size()]))
              else NoEnoughLength
      ensures Window() == if r.Value? then old(Window())[w.Size()..] else old(Window())
    {
      hide Decode;
      var can := mVector.HasLength(w.Size());
      if !can {
        return NoEnoughLength;
      }
      var x := ReadT(w);
      return Value(x);
    }

    method TryReadTVector(w: Width, n: nat) returns (r: Outcome<seq<Integer>>)
      requires Valid()
      modifies mVector`mIndexBegin
      ensures Valid()
      ensures r == if n * w.Size() <= |old(Window())| then Value(DecodeIntegers(mOrder, w, n, old(Window())))
              else NoEnoughLength
      ensures Window() == if r.Value? then old(Window())[n * w.Size()..] else old(Window())
    {
      hide Decode, DecodeIntegers;
      var can := mVector.HasLength(n * w.Size());
      if !can {
        return NoEnoughLength;
      }
      var xs := ReadTVector(w, n);
      return Value(xs);
    }

    /** Reading a list of fields, one after another. */
    method ReadFields(shapes: seq<Shape>) returns (fs: seq<Field>)
      requires Valid() && SizeOf(shapes) <= |Window()|
      modifies mVector`mIndexBegin
      ensures Valid() && Window() == old(Window())[SizeOf(shapes)..]
      ensures fs == DecodeAll(mOrder, shapes, old(Window()))
    {
      hide Decode, DecodeIntegers;
      if shapes == [] {
        return [];
      }
      ghost var window := Window();
      ghost var k := shapes[0].Size();
      var f;
      match shapes[0] {
        case OneOf(w) =>
          var x := ReadT(w);
          f := One(x);
        case ManyOf(w, n) =>
          var xs := ReadTVector(w, n);
          f := Many(w, xs);
      }
      assert Window() == window[k..];
      var rest := ReadFields(shapes[1..]);
      return [f] + rest;
    }
  }
}
