/** A writer and a reader on the same bytes. */
module WriteThenReads {
  import opened SizeTypes
  import opened Codec
  import opened Fields
  import opened ExtendedVectors
  import opened FieldWriters
  import opened FieldReaders

  lemma {:induction false} Overwritten(s: seq<byte>, at: nat, bytes: seq<byte>, end: nat)
    requires at + |bytes| <= end <= |s|
    ensures var after, next := Overwrite(s, at, bytes), at + |bytes|;
            && after[..at] == s[..at] && after[next..] == s[next..]
            && after[at..end] == bytes + s[next..end]
  {
  }

  method Written(vector: array<byte>, begin: nat, end: nat, order: ByteOrder, fs: seq<Field>) returns (written: nat)
    requires begin <= end <= vector.Length < SIZE_RANGE
    requires MySizeOfArgs(fs) <= end - begin && forall i :: 0 <= i < |fs| ==> Typed(fs[i])
    modifies vector
    ensures written == |EncodeAll(order, fs)| == MySizeOfArgs(fs)
    ensures vector[..] == Overwrite(old(vector[..]), begin, EncodeAll(order, fs))
  {
    hide Encode, EncodeAll, MySizeOfArgs, Overwrite;
    EncodedSize(order, fs);
    ghost var was := vector[..];
    var output := new ExtendedVector.Of(vector, begin, end);
    var writer := new FieldWriter(output, order);
    assert was + Zeros(0) == was;
    var _ := writer.WriteT(fs);
    written := output.mIndexBegin - begin;
  }

  /** Fields of any kind, written into a window that is long enough and read from there in the same byte order,
      come back as they were. Both windows advance by as many bytes as the fields have, and bytes outside of these
      keep their values. */
  method WriteThenRead(vector: array<byte>, begin: nat, end: nat, order: ByteOrder, fs: seq<Field>)
    returns (back: seq<Field>, written: nat, read: nat)
    requires begin <= end <= vector.Length < SIZE_RANGE
    requires MySizeOfArgs(fs) <= end - begin && forall i :: 0 <= i < |fs| ==> Typed(fs[i])
    modifies vector
    ensures back == fs && written == read == MySizeOfArgs(fs)
    ensures vector[..begin] == old(vector[..begin])
    ensures vector[begin + MySizeOfArgs(fs)..] == old(vector[begin + MySizeOfArgs(fs)..])
  {
    hide Encode, Decode, EncodeAll, DecodeAll, MySizeOfArgs, ShapesOf, Overwrite;
    ghost var was, next := vector[..], begin + MySizeOfArgs(fs);
    var input := new ExtendedVector.Of(vector, begin, end);
    written := Written(vector, begin, end, order, fs);
    Overwritten(was, begin, EncodeAll(order, fs), end);
    RoundTrip(order, fs, was[next..end]);
    assert vector[begin..end] == vector[..][begin..end] && vector[..begin] == vector[..][..begin] &&
           vector[next..] == vector[..][next..];
    var reader := new FieldReader(input, order);
    back := reader.ReadFields(ShapesOf(fs));
    read := input.mIndexBegin - begin;
  }
}
