/** The offset window of Base/ExtendedVector.hpp over a vector of bytes.

    A failed `ZQ_ASSERT` of the source logs and goes on; methods with one return `ok`, false when it would log. */
module ExtendedVectors {
  import opened SizeTypes
  import opened Codec

  /** `s` with the bytes from position `at` on replaced. */
  function Overwrite(s: seq<byte>, at: nat, bytes: seq<byte>): (r: seq<byte>)
    requires at + |bytes| <= |s|
    ensures |r| == |s| && r[at..at + |bytes|] == bytes
  {
    s[..at] + bytes + s[at + |bytes|..]
  }

  lemma {:induction false} OverwriteTwice(s: seq<byte>, at: nat, a: seq<byte>, b: seq<byte>)
    requires at + |a| + |b| <= |s|
    ensures Overwrite(Overwrite(s, at, a), at + |a|, b) == Overwrite(s, at, a + b)
  {
  }

  lemma {:induction false} OverwriteOneMore(s: seq<byte>, at: nat, bytes: seq<byte>, b: byte)
    requires at + |bytes| < |s|
    ensures Overwrite(s, at, bytes)[at + |bytes| := b] == Overwrite(s, at, bytes + [b])
  {
  }

  lemma {:induction false} OverwriteNothing(s: seq<byte>, at: nat)
    requires at <= |s|
    ensures Overwrite(s, at, []) == s
  {
  }

  function Zeros(n: nat): (r: seq<byte>)
    ensures |r| == n && forall i :: 0 <= i < n ==> r[i] == 0
  {
    seq(n, _ => 0)
  }

  lemma {:induction false} ZerosJoined(s: seq<byte>, m: nat, n: nat)
    ensures s + Zeros(m) + Zeros(n) == s + Zeros(m + n)
  {
  }

  function Min(a: nat, b: nat): nat {
    if a < b then a else b
  }

  /** The end of the window that `expand` leaves. */
  function ExpandedEnd(length: nat, indexEnd: nat, howMuch: nat): nat
    requires indexEnd <= length
  {
    if indexEnd == length then indexEnd else length - indexEnd - Min(howMuch, length - indexEnd)
  }

  /** The length of the underlying vector that `expand` leaves. */
  function ExpandedLength(length: nat, indexBegin: nat, indexEnd: nat, howMuch: nat): nat
    requires indexBegin <= indexEnd <= length
  {
    if indexEnd - indexBegin + howMuch > (if indexEnd == length then 0 else Min(howMuch, length - indexEnd))
    then length + howMuch else length
  }

  /** The end of the window, and the length of the underlying vector, once there is room for `argsSize` bytes: as
      they were when the window is long enough, or so far out of order that its length wraps around. */
  function RoomEnd(length: nat, indexBegin: nat, indexEnd: nat, argsSize: nat): nat
    requires indexEnd <= length
  {
    if indexBegin <= indexEnd < indexBegin + argsSize then
      ExpandedEnd(length, indexEnd, argsSize - (indexEnd - indexBegin))
    else indexEnd
  }

  function RoomLength(length: nat, indexBegin: nat, indexEnd: nat, argsSize: nat): nat
    requires indexEnd <= length
  {
    if indexBegin <= indexEnd < indexBegin + argsSize
    then ExpandedLength(length, indexBegin, indexEnd, argsSize - (indexEnd - indexBegin))
    else length
  }

  lemma {:induction false} RoomEnough(length: nat, indexBegin: nat, indexEnd: nat, argsSize: nat)
    requires indexBegin <= indexEnd <= length
    ensures indexBegin + argsSize <= RoomLength(length, indexBegin, indexEnd, argsSize) <= length + argsSize
    ensures argsSize <= indexEnd - indexBegin ==>
              && RoomLength(length, indexBegin, indexEnd, argsSize) == length
              && RoomEnd(length, indexBegin, indexEnd, argsSize) == indexEnd
    ensures indexBegin + argsSize <= RoomEnd(length, indexBegin, indexEnd, argsSize) <==>
            argsSize <= indexEnd - indexBegin || 2 * (indexBegin + argsSize) <= length
  {
  }

  /** The vector grows by the bytes that are missing from the window, or not at all; and where the window ends then. */
  lemma {:induction false} RoomExactly(length: nat, indexBegin: nat, indexEnd: nat, argsSize: nat)
    requires indexBegin <= indexEnd <= length
    ensures var missing := argsSize - (indexEnd - indexBegin);
            && RoomLength(length, indexBegin, indexEnd, argsSize) ==
               (if missing > 0 && (indexBegin < indexEnd || length - indexEnd < missing) then length + missing
                else length)
            && RoomEnd(length, indexBegin, indexEnd, argsSize) ==
               if missing <= 0 || indexEnd == length then indexEnd
               else if missing < length - indexEnd then length - indexEnd - missing
               else 0
  {
  }

  /** `expand` is meant to make the window longer by `howMuch`. It does if and only if there was nothing to do at
      the end of the vector, or the bytes before the new end happen to be as many as those behind it. */
  lemma {:induction false} ExpandUsable(length: nat, indexBegin: nat, indexEnd: nat, howMuch: nat)
    requires indexBegin <= indexEnd <= length
    ensures ExpandedEnd(length, indexEnd, howMuch) == indexEnd + howMuch <==>
            if indexEnd == length then howMuch == 0 else length == 2 * (indexEnd + howMuch)
    ensures indexEnd + howMuch <= ExpandedLength(length, indexBegin, indexEnd, howMuch)
  {
  }

  class ExtendedVector {
    var mVector: array<byte>
    var mIndexBegin: nat
    var mIndexEnd: nat

    ghost predicate Valid()
      reads this
    {
      mIndexBegin <= mIndexEnd <= mVector.Length < SIZE_RANGE
    }

    /** The whole underlying vector. */
    ghost function Bytes(): seq<byte>
      reads this`mVector, mVector
    {
      mVector[..]
    }

    /** The bytes in the window. */
    ghost function Window(): (s: seq<byte>)
      requires Valid()
      reads this, mVector
      ensures |s| == mIndexEnd - mIndexBegin
    {
      mVector[mIndexBegin..mIndexEnd]
    }

    constructor (data: seq<byte>)
      requires |data| < SIZE_RANGE
      ensures Valid() && fresh(mVector) && mIndexBegin == 0 && Window() == Bytes() == data
    {
      mVector := new byte[|data|](i requires 0 <= i < |data| => data[i]);
      mIndexBegin, mIndexEnd := 0, |data|;
    }

    /** The window of a vector from one position to another. */
    constructor Of(vector: array<byte>, indexBegin: nat, indexEnd: nat)
      requires indexBegin <= indexEnd <= vector.Length < SIZE_RANGE
      ensures Valid() && mVector == vector && mIndexBegin == indexBegin && mIndexEnd == indexEnd
    {
      mVector, mIndexBegin, mIndexEnd := vector, indexBegin, indexEnd;
    }

    /** `operator[]`: a byte of the window, or behind its end if the underlying vector goes on. */
    function Get(index: nat): (value: byte)
      requires mIndexBegin + index < mVector.Length
      reads this, mVector
      ensures value == Bytes()[mIndexBegin + index]
      ensures Valid() && index < |Window()| ==> value == Window()[index]
    {
      mVector[mIndexBegin + index]
    }

    method Set(index: nat, value: byte)
      requires mIndexBegin + index < mVector.Length
      modifies mVector
      ensures Bytes() == old(Bytes())[mIndexBegin + index := value]
    {
      mVector[mIndexBegin + index] := value;
    }

    /** The difference wraps around when the end is before the beginning, as `expand` may leave it. */
    method Size() returns (size: nat)
      requires mIndexBegin < SIZE_RANGE && mIndexEnd < SIZE_RANGE
      ensures size == (mIndexEnd - mIndexBegin) % 0x1_0000_0000_0000_0000
      ensures mIndexBegin <= mIndexEnd ==> size == mIndexEnd - mIndexBegin
    {
      return (mIndexEnd - mIndexBegin) % SIZE_RANGE;
    }

    method HasLength(length: nat) returns (has: bool)
      requires Valid()
      ensures has <==> length <= |Window()|
    {
      var size := Size();
      return size >= length;
    }

    method IncreaseBegin(howMuch: nat) returns (ok: bool)
      modifies this`mIndexBegin
      ensures mIndexBegin == old(mIndexBegin) + howMuch
      ensures ok <==> mIndexBegin <= mIndexEnd
      ensures ok && old(Valid()) ==> Valid() && Window() == old(Window())[howMuch..]
    {
      ok := mIndexBegin + howMuch <= mIndexEnd;
      mIndexBegin := mIndexBegin + howMuch;
    }

    method InsertVectorAtBegin(vector: seq<byte>)
      requires Valid() && |vector| <= |Window()|
      modifies this`mIndexBegin, mVector
      ensures Valid() && mIndexBegin == old(mIndexBegin) + |vector|
      ensures Bytes() == Overwrite(old(Bytes()), old(mIndexBegin), vector)
    {
      hide Overwrite;
      OverwriteNothing(Bytes(), mIndexBegin);
      for i := 0 to |vector|
        modifies mVector
        invariant Bytes() == Overwrite(old(Bytes()), mIndexBegin, vector[..i])
      {
        Set(i, vector[i]);
        OverwriteOneMore(old(Bytes()), mIndexBegin, vector[..i], vector[i]);
        assert vector[..i + 1] == vector[..i] + [vector[i]];
      }
      assert vector[..|vector|] == vector;
      var _ := IncreaseBegin(|vector|);
    }

    method Expand(howMuch: nat)
      requires Valid()
      modifies this`mVector, this`mIndexEnd
      ensures mIndexEnd == ExpandedEnd(old(mVector.Length), old(mIndexEnd), howMuch)
      ensures mVector.Length == ExpandedLength(old(mVector.Length), mIndexBegin, old(mIndexEnd), howMuch)
      ensures mVector.Length - old(mVector.Length) ==
              if mIndexBegin < old(mIndexEnd) || old(mVector.Length - mIndexEnd) < howMuch then howMuch else 0
      ensures mIndexEnd ==
              if old(mIndexEnd == mVector.Length) then old(mIndexEnd)
              else if howMuch < old(mVector.Length - mIndexEnd) then old(mVector.Length - mIndexEnd) - howMuch
              else 0
      ensures Bytes() == old(Bytes()) + Zeros(mVector.Length - old(mVector.Length))
      ensures mVector == old(mVector) || fresh(mVector)
    {
      var newSize := mIndexEnd - mIndexBegin + howMuch;
      var currentUnderlyingVectorSize := mVector.Length;
      if mIndexEnd != currentUnderlyingVectorSize {
        var sizeVaildableForVirtualExpand := currentUnderlyingVectorSize - mIndexEnd;
        var virtualExpandSize := Min(howMuch, sizeVaildableForVirtualExpand);
        newSize := newSize - virtualExpandSize;
        mIndexEnd := sizeVaildableForVirtualExpand - virtualExpandSize;
      }
      if newSize > 0 && howMuch > 0 {
        var vector := mVector;
        mVector := new byte[vector.Length + howMuch](i requires 0 <= i < vector.Length + howMuch reads vector =>
          if i < vector.Length then vector[i] else 0);
      }
    }
  }
}
