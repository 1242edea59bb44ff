/** `FieldWriter` of Base/FieldWriter.hpp over an `ExtendedVector`, for both byte orders. */
module FieldWriters {
  import opened SizeTypes
  import opened Codec
  import opened Fields
  import opened ExtendedVectors

  lemma {:induction false} IntegersFrom(order: ByteOrder, xs: seq<Integer>, i: nat)
    requires i < |xs|
    ensures EncodeIntegers(order, xs[i..]) == Encode(order, xs[i]) + EncodeIntegers(order, xs[i + 1..])
  {
    assert xs[i..][0] == xs[i] && xs[i..][1..] == xs[i + 1..];
  }

  lemma {:induction false} FieldsFrom(order: ByteOrder, fs: seq<Field>, i: nat)
    requires i < |fs|
    ensures EncodeAll(order, fs[i..]) == EncodeField(order, fs[i]) + EncodeAll(order, fs[i + 1..])
    ensures MySizeOfArgs(fs[i..]) == ShapeOf(fs[i]).Size() + MySizeOfArgs(fs[i + 1..])
  {
    assert fs[i..][0] == fs[i] && fs[i..][1..] == fs[i + 1..];
  }

  /** The first `n` of the bytes `p` are stored at position `at`, in the order of the writer. */
  ghost predicate Stored(order: ByteOrder, before: seq<byte>, after: seq<byte>, at: nat, p: seq<byte>, n: nat) {
    && |after| == |before|
    && forall j :: 0 <= j < |after| ==>
                     after[j] == if at <= j < at + |p| && Index(order, j - at, |p|) < n
                                 then p[Index(order, j - at, |p|)] else before[j]
  }

  lemma {:induction false} StoreOne(order: ByteOrder, before: seq<byte>, after: seq<byte>, at: nat, p: seq<byte>,
                                    n: nat)
    requires Stored(order, before, after, at, p, n) && at + |p| <= |before| && n < |p|
    ensures Stored(order, before, after[at + Index(order, n, |p|) := p[n]], at, p, n + 1)
  {
  }

  lemma {:induction false} StoredOrder(order: ByteOrder, before: seq<byte>, after: seq<byte>, at: nat, p: seq<byte>)
    requires Stored(order, before, after, at, p, |p|) && at + |p| <= |before|
    ensures after == Overwrite(before, at, if order.BigEndian? then p else Reverse(p))
  {
    hide Overwrite;
    var q := if order.BigEndian? then p else Reverse(p);
    OverwriteAt(before, at, q);
    forall j | 0 <= j < |after|
      ensures after[j] == Overwrite(before, at, q)[j]
    {
      assert at <= j < at + |p| ==> q[j - at] == p[Index(order, j - at, |p|)];
    }
  }

  lemma {:induction false} OverwriteAt(s: seq<byte>, at: nat, bytes: seq<byte>)
    requires at + |bytes| <= |s|
    ensures var r := Overwrite(s, at, bytes);
            forall j {:trigger r[j]} :: 0 <= j < |r| ==> r[j] == if at <= j < at + |bytes| then bytes[j - at] else s[j]
  {
  }

  lemma {:induction false} StoredBytes(order: ByteOrder, before: seq<byte>, after: seq<byte>, at: nat, x: Integer)
    requires Stored(order, before, after, at, Parts(x), x.Width().Size()) && at + x.Width().Size() <= |before|
    ensures after == Overwrite(before, at, Encode(order, x))
  {
    hide Encode, Parts, Stored, Overwrite;
    PartsRight(x);
    StoredOrder(order, before, after, at, Parts(x));
  }

  class FieldWriter {
    const mVector: ExtendedVector
    const mOrder: ByteOrder

    constructor (vector: ExtendedVector, order: ByteOrder)
      ensures mVector == vector && mOrder == order
    {
      mVector, mOrder := vector, order;
    }

    /** The bytes of an integer, at the beginning of the window. */
    method Write(x: Integer)
      requires mVector.mIndexBegin + x.Width().Size() <= mVector.mVector.Length
      modifies mVector.mVector
      ensures mVector.Bytes() == Overwrite(old(mVector.Bytes()), mVector.mIndexBegin, Encode(mOrder, x))
    {
      hide Encode, Parts, Stored, Overwrite;
      Store(x);
      StoredBytes(mOrder, old(mVector.Bytes()), mVector.Bytes(), mVector.mIndexBegin, x);
    }

    /** `write` of the byte writers, overloaded by the width of the integer. */
    method Store(x: Integer)
      requires mVector.mIndexBegin + x.Width().Size() <= mVector.mVector.Length
      modifies mVector.mVector
      ensures Stored(mOrder, old(mVector.Bytes()), mVector.Bytes(), mVector.mIndexBegin, Parts(x), x.Width().Size())
    {
      hide Parts, Stored;
      match x
      case U8(_) => Write8(Parts(x));
      case U16(_) => Write16(Parts(x));
      case U32(_) => Write32(Parts(x));
      case U64(_) => Write64(Parts(x));
    }

    method Write8(p: seq<byte>)
      requires |p| == 1 && mVector.mIndexBegin + 1 <= mVector.mVector.Length
      modifies mVector.mVector
      ensures Stored(mOrder, old(mVector.Bytes()), mVector.Bytes(), mVector.mIndexBegin, p, 1)
    {
      Put(p, 0, old(mVector.Bytes()));
    }

    method Write16(p: seq<byte>)
      requires |p| == 2 && mVector.mIndexBegin + 2 <= mVector.mVector.Length
      modifies mVector.mVector
      ensures Stored(mOrder, old(mVector.Bytes()), mVector.Bytes(), mVector.mIndexBegin, p, 2)
    {
      Put(p, 0, old(mVector.Bytes()));
      Put(p, 1, old(mVector.Bytes()));
    }

    method Write32(p: seq<byte>)
      requires |p| == 4 && mVector.mIndexBegin + 4 <= mVector.mVector.Length
      modifies mVector.mVector
      ensures Stored(mOrder, old(mVector.Bytes()), mVector.Bytes(), mVector.mIndexBegin, p, 4)
    {
      Put(p, 0, old(mVector.Bytes()));
      Put(p, 1, old(mVector.Bytes()));
      Put(p, 2, old(mVector.Bytes()));
      Put(p, 3, old(mVector.Bytes()));
    }

    method Write64(p: seq<byte>)
      requires |p| == 8 && mVector.mIndexBegin + 8 <= mVector.mVector.Length
      modifies mVector.mVector
      ensures Stored(mOrder, old(mVector.Bytes()), mVector.Bytes(), mVector.mIndexBegin, p, 8)
    {
      Put(p, 0, old(mVector.Bytes()));
      Put(p, 1, old(mVector.Bytes()));
      Put(p, 2, old(mVector.Bytes()));
      Put(p, 3, old(mVector.Bytes()));
      Put(p, 4, old(mVector.Bytes()));
      Put(p, 5, old(mVector.Bytes()));
      Put(p, 6, old(mVector.Bytes()));
      Put(p, 7, old(mVector.Bytes()));
    }

    /** `vector[Index(k)] = p[k]`. */
    method Put(p: seq<byte>, k: nat, ghost before: seq<byte>)
      requires k < |p| && mVector.mIndexBegin + |p| <= mVector.mVector.Length
      requires Stored(mOrder, before, mVector.Bytes(), mVector.mIndexBegin, p, k)
      modifies mVector.mVector
      ensures Stored(mOrder, before, mVector.Bytes(), mVector.mIndexBegin, p, k + 1)
    {
      StoreOne(mOrder, before, mVector.Bytes(), mVector.mIndexBegin, p, k);
      mVector.Set(Index(mOrder, k, |p|), p[k]);
    }

    /** `writeOneT` of an integer. `ok` is false when the end of the window is passed. */
    method WriteInteger(x: Integer) returns (ok: bool)
      requires mVector.mIndexBegin + x.Width().Size() <= mVector.mVector.Length
      modifies mVector`mIndexBegin, mVector.mVector
      ensures mVector.mIndexBegin == old(mVector.mIndexBegin) + x.Width().Size()
      ensures mVector.Bytes() == Overwrite(old(mVector.Bytes()), old(mVector.mIndexBegin), Encode(mOrder, x))
      ensures ok <==> mVector.mIndexBegin <= mVector.mIndexEnd
    {
      hide Encode;
      Write(x);
      ok := mVector.IncreaseBegin(x.Width().Size());
    }

    /** `writeOneT` of a vector. */
    method WriteVector(w: Width, xs: seq<Integer>) returns (ok: bool)
      requires Typed(Many(w, xs))
      requires mVector.mIndexBegin + |xs| * w.Size() <= mVector.mVector.Length
      modifies mVector`mIndexBegin, mVector.mVector
      ensures mVector.mIndexBegin == old(mVector.mIndexBegin) + |xs| * w.Size()
      ensures |EncodeIntegers(mOrder, xs)| == |xs| * w.Size()
      ensures mVector.Bytes() == Overwrite(old(mVector.Bytes()), old(mVector.mIndexBegin), EncodeIntegers(mOrder, xs))
      ensures ok <==> xs == [] || mVector.mIndexBegin <= mVector.mIndexEnd
    {
      hide Encode, Overwrite, EncodeIntegers;
      ghost var before, at, all := mVector.Bytes(), mVector.mIndexBegin, EncodeIntegers(mOrder, xs);
      EncodedIntegers(mOrder, w, xs);
      ok := true;
      assert xs[0..] == xs;
      for i := 0 to |xs|
        invariant mVector.mVector.Length == |before|
        invariant mVector.mIndexBegin == at + i * w.Size()
        invariant |EncodeIntegers(mOrder, xs[i..])| == |xs| * w.Size() - i * w.Size()
        invariant Overwrite(mVector.Bytes(), mVector.mIndexBegin, EncodeIntegers(mOrder, xs[i..])) ==
                  Overwrite(before, at, all)
        invariant ok <==> i == 0 || mVector.mIndexBegin <= mVector.mIndexEnd
      {
        assert xs[i].Width() == w && (i + 1) * w.Size() == i * w.Size() + w.Size();
        IntegersFrom(mOrder, xs, i);
        OverwriteTwice(mVector.Bytes(), mVector.mIndexBegin, Encode(mOrder, xs[i]),
                       EncodeIntegers(mOrder, xs[i + 1..]));
        var within := WriteInteger(xs[i]);
        ok := within;
      }
      assert EncodeIntegers(mOrder, xs[|xs|..]) == [];
      OverwriteNothing(mVector.Bytes(), mVector.mIndexBegin);
    }

    method WriteOneT(f: Field) returns (ok: bool)
      requires Typed(f)
      requires mVector.mIndexBegin + ShapeOf(f).Size() <= mVector.mVector.Length
      modifies mVector`mIndexBegin, mVector.mVector
      ensures mVector.mIndexBegin == old(mVector.mIndexBegin) + ShapeOf(f).Size()
      ensures |EncodeField(mOrder, f)| == ShapeOf(f).Size()
      ensures mVector.Bytes() == Overwrite(old(mVector.Bytes()), old(mVector.mIndexBegin), EncodeField(mOrder, f))
      ensures ok <==> ShapeOf(f).Size() == 0 || mVector.mIndexBegin <= mVector.mIndexEnd
    {
      hide Encode, Overwrite, EncodeIntegers;
      match f
      case One(x) => ok := WriteInteger(x);
      case Many(w, xs) =>
        ok := WriteVector(w, xs);
        assert |xs| * w.Size() == 0 <==> xs == [];
    }

    /** `writeT`. The bytes of the fields always go where the window begins, in a vector that is made long enough;
        every other byte stays. `ok` is false when the end of the window is passed, which leaves it unusable. The
        window is meant to be extended when it is too short. That comes out right if and only if half of the
        underlying vector is enough. */
    method WriteT(fs: seq<Field>) returns (ok: bool)
      requires mVector.Valid() && forall i :: 0 <= i < |fs| ==> Typed(fs[i])
      requires MySizeOfArgs(fs) <= |mVector.Window()| || mVector.mVector.Length + MySizeOfArgs(fs) < SIZE_RANGE
      modifies mVector, mVector.mVector
      ensures mVector.mIndexBegin == old(mVector.mIndexBegin) + MySizeOfArgs(fs)
      ensures |EncodeAll(mOrder, fs)| == MySizeOfArgs(fs) && old(|mVector.Bytes()|) <= mVector.mVector.Length
      ensures mVector.mIndexBegin <= mVector.mVector.Length
      ensures mVector.Bytes() == Overwrite(old(mVector.Bytes()) +
                                           Zeros(mVector.mVector.Length - old(mVector.mVector.Length)),
                                           old(mVector.mIndexBegin), EncodeAll(mOrder, fs))
      ensures ok <==> || MySizeOfArgs(fs) <= |old(mVector.Window())|
                      || 2 * mVector.mIndexBegin <= old(mVector.mVector.Length)
      ensures ok <==> mVector.Valid()
      ensures var length, begin, end := old(mVector.mVector.Length), old(mVector.mIndexBegin), old(mVector.mIndexEnd);
              var missing := MySizeOfArgs(fs) - (end - begin);
              && mVector.mVector.Length - length ==
                 (if missing > 0 && (begin < end || length - end < missing) then missing else 0)
              && mVector.mIndexEnd ==
                 if missing <= 0 || end == length then end
                 else if missing < length - end then length - end - missing
                 else 0
      ensures MySizeOfArgs(fs) <= |old(mVector.Window())| ==>
                mVector.mVector == old(mVector.mVector) && mVector.mIndexEnd == old(mVector.mIndexEnd)
    {
      hide Overwrite, EncodeAll, MySizeOfArgs, RoomEnd, RoomLength;
      RoomEnough(mVector.mVector.Length, mVector.mIndexBegin, mVector.mIndexEnd, MySizeOfArgs(fs));
      RoomExactly(mVector.mVector.Length, mVector.mIndexBegin, mVector.mIndexEnd, MySizeOfArgs(fs));
      MakeRoom(MySizeOfArgs(fs));
      ok := WriteAll(fs);
    }

    /** What `writeT` does first, for as many bytes as its arguments take. */
    method MakeRoom(argsSize: nat)
      requires mVector.mIndexBegin <= mVector.mVector.Length && mVector.mIndexEnd <= mVector.mVector.Length < SIZE_RANGE
      requires mVector.mVector.Length + argsSize < SIZE_RANGE || mVector.mIndexBegin + argsSize <= mVector.mIndexEnd
      modifies mVector`mVector, mVector`mIndexEnd
      ensures mVector.mIndexEnd ==
              old(RoomEnd(mVector.mVector.Length, mVector.mIndexBegin, mVector.mIndexEnd, argsSize))
      ensures mVector.mVector.Length ==
              old(RoomLength(mVector.mVector.Length, mVector.mIndexBegin, mVector.mIndexEnd, argsSize))
      ensures mVector.Bytes() == old(mVector.Bytes()) + Zeros(mVector.mVector.Length - old(mVector.mVector.Length))
      ensures mVector.mIndexEnd <= mVector.mVector.Length
      ensures mVector.mVector == old(mVector.mVector) || fresh(mVector.mVector)
      ensures old(mVector.mIndexBegin + argsSize <= mVector.mIndexEnd) ==> mVector.mVector == old(mVector.mVector)
    {
      var size := mVector.Size();
      if size < argsSize {
        mVector.Expand(argsSize - size);
      } else {
        assert mVector.Bytes() + Zeros(0) == mVector.Bytes();
      }
    }

    /** The `pack_foreach` of `writeT`. */
    method WriteAll(fs: seq<Field>) returns (ok: bool)
      requires forall i :: 0 <= i < |fs| ==> Typed(fs[i])
      requires mVector.mIndexBegin + MySizeOfArgs(fs) <= mVector.mVector.Length
      modifies mVector`mIndexBegin, mVector.mVector
      ensures mVector.mIndexBegin == old(mVector.mIndexBegin) + MySizeOfArgs(fs)
      ensures |EncodeAll(mOrder, fs)| == MySizeOfArgs(fs)
      ensures mVector.Bytes() == Overwrite(old(mVector.Bytes()), old(mVector.mIndexBegin), EncodeAll(mOrder, fs))
      ensures ok <==> MySizeOfArgs(fs) == 0 || mVector.mIndexBegin <= mVector.mIndexEnd
    {
      hide EncodeField, EncodeAll, Overwrite, Typed, ShapeOf, Shape.Size;
      ghost var before, at, all := mVector.Bytes(), mVector.mIndexBegin, EncodeAll(mOrder, fs);
      EncodedSize(mOrder, fs);
      ok := true;
      assert fs[0..] == fs;
      for i := 0 to |fs|
        invariant mVector.mVector.Length == |before|
        invariant at <= mVector.mIndexBegin == at + MySizeOfArgs(fs) - MySizeOfArgs(fs[i..])
        invariant |EncodeAll(mOrder, fs[i..])| == MySizeOfArgs(fs[i..])
        invariant Overwrite(mVector.Bytes(), mVector.mIndexBegin, EncodeAll(mOrder, fs[i..])) ==
                  Overwrite(before, at, all)
        invariant ok <==> mVector.mIndexBegin == at || mVector.mIndexBegin <= mVector.mIndexEnd
      {
        FieldsFrom(mOrder, fs, i);
        EncodedSize(mOrder, fs[i + 1..]);
        EncodedField(mOrder, fs[i]);
        OverwriteTwice(mVector.Bytes(), mVector.mIndexBegin, EncodeField(mOrder, fs[i]),
                       EncodeAll(mOrder, fs[i + 1..]));
        var within := WriteOneT(fs[i]);
        ok := ok && within;
      }
      assert fs[|fs|..] == [] && EncodeAll(mOrder, []) == [];
      OverwriteNothing(mVector.Bytes(), mVector.mIndexBegin);
    }
  }
}
