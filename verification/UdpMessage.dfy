/** The header of Network/UdpMessage.cpp: two 16-bit integers in big-endian order. */
module UdpMessages {
  import opened SizeTypes
  import opened Codec
  import opened Fields
  import opened ExtendedVectors
  import opened FieldWriters
  import opened FieldReaders

  datatype UdpMessage = UdpMessage(mFlags: bv16, mMessageNumber: bv16) {
    function Fields(): (fs: seq<Field>)
      ensures forall i :: 0 <= i < |fs| ==> Typed(fs[i])
    {
      [One(U16(mFlags)), One(U16(mMessageNumber))]
    }
  }

  /** Reading a header, and what is left of the bytes. Flags that are read stay read when the number is missing. */
  ghost function Parse(bytes: seq<byte>): (Outcome<UdpMessage>, seq<byte>) {
    if |bytes| < 2 then (NoEnoughLength, bytes)
    else if |bytes| < 4 then (NoEnoughLength, bytes[2..])
    else (Value(UdpMessage(Decode(BigEndian, W16, bytes[..2]).h, Decode(BigEndian, W16, bytes[2..4]).h)), bytes[4..])
  }

  lemma {:induction false} HeaderBytes(m: UdpMessage)
    ensures EncodeAll(BigEndian, m.Fields()) == Encode(BigEndian, U16(m.mFlags)) +
            Encode(BigEndian, U16(m.mMessageNumber))
    ensures |EncodeAll(BigEndian, m.Fields())| == MySizeOfArgs(m.Fields()) == 4
  {
    hide Encode;
    var fs := m.Fields();
    FieldsFrom(BigEndian, fs, 0);
    FieldsFrom(BigEndian, fs, 1);
    assert fs[0..] == fs && fs[2..] == [];
  }

  /** A header that is written is read back, whatever follows it. */
  lemma {:induction false} HeaderRoundTrip(m: UdpMessage, more: seq<byte>)
    ensures Parse(EncodeAll(BigEndian, m.Fields()) + more) == (Value(m), more)
  {
    hide Encode, Decode, EncodeAll;
    HeaderBytes(m);
    IntegerRoundTrip(BigEndian, U16(m.mFlags));
    IntegerRoundTrip(BigEndian, U16(m.mMessageNumber));
    var bytes := EncodeAll(BigEndian, m.Fields()) + more;
    assert bytes[..2] == Encode(BigEndian, U16(m.mFlags)) && bytes[2..4] == Encode(BigEndian, U16(m.mMessageNumber));
  }

  /** ... and four bytes that are read as a header are the bytes of that header. */
  lemma {:induction false} HeaderBack(bytes: seq<byte>)
    ensures var (r, left) := Parse(bytes);
            && (r.Value? <==> |bytes| >= 4)
            && (r.Value? ==> bytes == EncodeAll(BigEndian, r.value.Fields()) + left)
            && (!r.Value? ==> r == NoEnoughLength && left == if |bytes| < 2 then bytes else bytes[2..])
  {
    hide Encode, Decode, EncodeAll;
    if |bytes| >= 4 {
      HeaderBytes(Parse(bytes).0.value);
      BytesRoundTrip(BigEndian, W16, bytes[..2]);
      BytesRoundTrip(BigEndian, W16, bytes[2..4]);
      assert bytes == bytes[..2] + bytes[2..4] + bytes[4..];
    }
  }

  method WriteTo(m: UdpMessage, vector: ExtendedVector) returns (ok: bool)
    requires vector.Valid() && (4 <= |vector.Window()| || vector.mVector.Length + 4 < SIZE_RANGE)
    modifies vector, vector.mVector
    ensures vector.mIndexBegin == old(vector.mIndexBegin) + 4 <= vector.mVector.Length
    ensures |EncodeAll(BigEndian, m.Fields())| == 4 && old(|vector.Bytes()|) <= vector.mVector.Length
    ensures vector.Bytes() == Overwrite(old(vector.Bytes()) + Zeros(vector.mVector.Length - old(vector.mVector.Length)),
                                        old(vector.mIndexBegin), EncodeAll(BigEndian, m.Fields()))
    ensures ok <==> 4 <= |old(vector.Window())| || 2 * vector.mIndexBegin <= old(vector.mVector.Length)
    ensures ok <==> vector.Valid()
    ensures var length, begin, end := old(vector.mVector.Length), old(vector.mIndexBegin), old(vector.mIndexEnd);
            var missing := 4 - (end - begin);
            vector.mVector.Length - length ==
            if missing > 0 && (begin < end || length - end < missing) then missing else 0
  {
    hide EncodeAll;
    HeaderBytes(m);
    var writer := new FieldWriter(vector, BigEndian);
    ok := writer.WriteT(m.Fields());
  }

  method ReadFrom(vector: ExtendedVector) returns (r: Outcome<UdpMessage>)
    requires vector.Valid()
    modifies vector`mIndexBegin
    ensures vector.Valid() && (r, vector.Window()) == Parse(old(vector.Window()))
  {
    hide Decode;
    ghost var bytes := vector.Window();
    assert |bytes| >= 4 ==> bytes[2..][..2] == bytes[2..4] && bytes[2..][2..] == bytes[4..];
    var reader := new FieldReader(vector, BigEndian);
    var flags := reader.TryReadT(W16);
    if !flags.Value? {
      return NoEnoughLength;
    }
    var messageNumber := reader.TryReadT(W16);
    if !messageNumber.Value? {
      return NoEnoughLength;
    }
    return Value(UdpMessage(flags.value.h, messageNumber.value.h));
  }
}
