/** The messages that carry thread IDs: `MessageWithThreadIDs` of Core/Protocol/Message.hpp. */
module Messages {
  import opened SizeTypes
  import opened Codec
  import opened CodecNumbers
  import opened ArraySizes
  import opened Fields
  import opened ExtendedVectors
  import opened FieldWriters
  import opened FieldReaders
  import opened InputStreams
  import opened StreamReaders
  import opened StreamRuns
  import opened LinkedLists

  const MAX_THREAD_IDS: nat := 0xffff

  datatype MessageWithThreadIDs = MessageWithThreadIDs(messageType: bv16, threadIDs: seq<bv64>) {
    function WritableSize(): nat {
      2 + 2 + |threadIDs| * 8
    }

    /** The fields that are written. The number of threads is cut to 16 bits. */
    function Fields(): (fs: seq<Field>)
      ensures forall i :: 0 <= i < |fs| ==> Typed(fs[i])
    {
      [One(U16(messageType)), One(U16(ArraySize(|threadIDs|))), Many(W64, Integers(threadIDs))]
    }
  }

  function Integers(ids: seq<bv64>): (xs: seq<Integer>)
    ensures |xs| == |ids| && forall i :: 0 <= i < |xs| ==> xs[i] == U64(ids[i])
  {
    seq(|ids|, i requires 0 <= i < |ids| => U64(ids[i]))
  }

  function ThreadIDs(xs: seq<Integer>): (ids: seq<bv64>)
    ensures |ids| == |xs| && forall i :: 0 <= i < |ids| ==> ids[i] == xs[i].Raw()
  {
    seq(|xs|, i requires 0 <= i < |xs| => xs[i].Raw())
  }

  /** Reading the number of threads, and then so many IDs; also what is left of the bytes. */
  ghost function Parse(order: ByteOrder, bytes: seq<byte>): (Outcome<seq<bv64>>, seq<byte>) {
    if |bytes| < 2 then (NoEnoughLength, bytes)
    else
      var n := Elements(Decode(order, W16, bytes[..2]).h);
      if |bytes| - 2 < n * 8 then (NoEnoughLength, bytes[2..])
      else (Value(ThreadIDs(DecodeIntegers(order, W64, n, bytes[2..]))), bytes[2 + n * 8..])
  }

  /** Reading the type before that. */
  ghost function ParseMessage(order: ByteOrder, bytes: seq<byte>): (Outcome<MessageWithThreadIDs>, seq<byte>) {
    if |bytes| < 2 then (NoEnoughLength, bytes)
    else
      match Parse(order, bytes[2..])
      case (Value(ids), left) => (Value(MessageWithThreadIDs(Decode(order, W16, bytes[..2]).h, ids)), left)
      case (_, left) => (NoEnoughLength, left)
  }

  lemma {:induction false} MessageBytes(order: ByteOrder, m: MessageWithThreadIDs)
    ensures |EncodeAll(order, m.Fields())| == MySizeOfArgs(m.Fields()) == m.WritableSize()
    ensures EncodeAll(order, m.Fields()) ==
            Encode(order, U16(m.messageType)) + Encode(order, U16(ArraySize(|m.threadIDs|))) +
            EncodeIntegers(order, Integers(m.threadIDs))
  {
    hide Encode, EncodeIntegers, ArraySize;
    var fs := m.Fields();
    EncodedSize(order, fs);
    assert fs[1..] == [fs[1], fs[2]] && fs[2..] == [fs[2]];
    FieldsFrom(order, fs, 0);
    FieldsFrom(order, fs, 1);
    FieldsFrom(order, fs, 2);
    assert fs[0..] == fs && fs[3..] == [];
  }

  lemma {:induction false} IntegersJoined(order: ByteOrder, xs: seq<Integer>, ys: seq<Integer>)
    ensures EncodeIntegers(order, xs + ys) == EncodeIntegers(order, xs) + EncodeIntegers(order, ys)
  {
    hide Encode;
    if xs == [] {
      assert xs + ys == ys;
    } else {
      assert (xs + ys)[1..] == xs[1..] + ys;
      IntegersJoined(order, xs[1..], ys);
    }
  }

  lemma {:induction false} Split(a: seq<byte>, b: seq<byte>, c: seq<byte>)
    ensures (a + (b + c))[..|a|] == a
    ensures (a + (b + c))[|a|..] == b + c
    ensures (a + (b + c))[|a| + |b|..] == c
  {
  }

  /** A number of threads, and so many IDs, are read back, and the bytes behind them are left. */
  lemma {:induction false} ParsedBack(order: ByteOrder, size: bv16, ids: seq<bv64>, more: seq<byte>)
    requires Elements(size) == |ids|
    ensures Parse(order, Encode(order, U16(size)) + (EncodeIntegers(order, Integers(ids)) + more)) == (Value(ids), more)
  {
    hide Encode, Decode, EncodeIntegers, DecodeIntegers, Elements;
    var head, body := Encode(order, U16(size)), EncodeIntegers(order, Integers(ids));
    IntegerRoundTrip(order, U16(size));
    IntegersRoundTrip(order, W64, Integers(ids), more);
    Split(head, body, more);
    assert ThreadIDs(Integers(ids)) == ids;
  }

  /** The threads that are left when their number is cut to 16 bits. */
  ghost function Kept(ids: seq<bv64>): seq<bv64> {
    ids[..|ids| % 0x1_0000]
  }

  /** A message is read back as it was written, whatever follows it, if and only if it has no more than 65535
      threads. With more, the number of threads is cut, and so is the list. */
  lemma {:induction false} MessageRoundTrip(order: ByteOrder, m: MessageWithThreadIDs, more: seq<byte>)
    ensures var (read, left) := ParseMessage(order, EncodeAll(order, m.Fields()) + more);
            && read == Value(m.(threadIDs := Kept(m.threadIDs)))
            && (read == Value(m) <==> |m.threadIDs| <= MAX_THREAD_IDS)
            && (read == Value(m) ==> left == more)
  {
    hide Encode, Decode, EncodeAll, EncodeIntegers, Parse, ArraySize, Elements;
    var k := |m.threadIDs| % 0x1_0000;
    var kept, cut := m.threadIDs[..k], m.threadIDs[k..];
    var head, size := Encode(order, U16(m.messageType)), Encode(order, U16(ArraySize(|m.threadIDs|)));
    var tail := EncodeIntegers(order, Integers(cut)) + more;
    var body := EncodeIntegers(order, Integers(kept)) + tail;
    MessageBytes(order, m);
    ArraySizeBack(|m.threadIDs|);
    IntegerRoundTrip(order, U16(m.messageType));
    IntegersCut(order, m.threadIDs, k);
    ParsedBack(order, ArraySize(|m.threadIDs|), kept, tail);
    assert EncodeAll(order, m.Fields()) + more == head + (size + body);
    Split(head, size, body);
    if |m.threadIDs| <= MAX_THREAD_IDS {
      assert kept == m.threadIDs && EncodeIntegers(order, Integers(cut)) == [];
      assert tail == more;
    }
  }

  lemma {:induction false} IntegersCut(order: ByteOrder, ids: seq<bv64>, k: nat)
    requires k <= |ids|
    ensures EncodeIntegers(order, Integers(ids)) == EncodeIntegers(order, Integers(ids[..k])) +
            EncodeIntegers(order, Integers(ids[k..]))
    ensures |ids| == k ==> EncodeIntegers(order, Integers(ids[k..])) == []
  {
    hide Encode;
    IntegersJoined(order, Integers(ids[..k]), Integers(ids[k..]));
    assert Integers(ids[..k]) + Integers(ids[k..]) == Integers(ids);
  }

  /** What is read as a number of threads and so many IDs is exactly what would be written for them. */
  lemma {:induction false} ParsedOnly(order: ByteOrder, bytes: seq<byte>)
    ensures var (read, left) := Parse(order, bytes);
            read.Value? ==>
              && |read.value| <= MAX_THREAD_IDS
              && bytes == Encode(order, U16(ArraySize(|read.value|))) +
                 (EncodeIntegers(order, Integers(read.value)) + left)
  {
    hide Encode, Decode, EncodeIntegers, DecodeIntegers, ArraySize, Elements;
    if Parse(order, bytes).0.Value? {
      var size := Decode(order, W16, bytes[..2]).h;
      var n := Elements(size);
      var xs := DecodeIntegers(order, W64, n, bytes[2..]);
      ElementsBack(size);
      BytesRoundTrip(order, W16, bytes[..2]);
      IntegersBack(order, W64, n, bytes[2..]);
      assert xs == Integers(ThreadIDs(xs));
      assert bytes == bytes[..2] + (bytes[2..][..n * 8] + bytes[2 + n * 8..]);
    }
  }

  /** What is read as a message is exactly what would be written for it, and it has no more than 65535 threads. */
  lemma {:induction false} MessageOnly(order: ByteOrder, bytes: seq<byte>)
    ensures var (read, left) := ParseMessage(order, bytes);
            read.Value? ==>
              |read.value.threadIDs| <= MAX_THREAD_IDS && bytes == EncodeAll(order, read.value.Fields()) + left
  {
    hide Encode, Decode, EncodeAll, EncodeIntegers, Parse, ArraySize;
    if ParseMessage(order, bytes).0.Value? {
      var (m, left) := (ParseMessage(order, bytes).0.value, ParseMessage(order, bytes).1);
      BytesRoundTrip(order, W16, bytes[..2]);
      ParsedOnly(order, bytes[2..]);
      MessageBytes(order, m);
      assert bytes == bytes[..2] + bytes[2..];
    }
  }

  /** A message that is written as `MessageStream` writes it, and read as it reads, is read back if and only if it
      has no more than 65535 threads, and its type, their number and all their IDs have the same bytes in both
      directions. */
  lemma {:induction false} MixedMessage(m: MessageWithThreadIDs, more: seq<byte>)
    ensures ParseMessage(LittleEndian, EncodeAll(BigEndian, m.Fields()) + more).0 == Value(m) <==>
            |m.threadIDs| <= MAX_THREAD_IDS && forall i :: 0 <= i < |m.Fields()| ==> Symmetric(m.Fields()[i])
  {
    hide EncodeAll, ParseMessage, Symmetric, MessageWithThreadIDs.Fields;
    var big, little := EncodeAll(BigEndian, m.Fields()), EncodeAll(LittleEndian, m.Fields());
    var (read, left) := ParseMessage(LittleEndian, big + more);
    MessageBytes(BigEndian, m);
    MessageBytes(LittleEndian, m);
    MessageOnly(LittleEndian, big + more);
    MessageRoundTrip(LittleEndian, m, more);
    SymmetricFields(m.Fields());
    SameParts(big, more, little, left);
  }

  /** A body that is too short for its number of threads is rejected. */
  lemma {:induction false} CutShort(order: ByteOrder, m: MessageWithThreadIDs, bytes: seq<byte>)
    requires |m.threadIDs| <= MAX_THREAD_IDS
    requires bytes < EncodeAll(order, m.Fields())[2..]
    ensures Parse(order, bytes).0 == NoEnoughLength
  {
    hide Encode, Decode, EncodeAll, EncodeIntegers, DecodeIntegers, ArraySize, Elements;
    MessageBytes(order, m);
    var n := ArraySize(|m.threadIDs|);
    ArraySizeBack(|m.threadIDs|);
    IntegerRoundTrip(order, U16(n));
    var body := EncodeAll(order, m.Fields())[2..];
    assert body == Encode(order, U16(n)) + EncodeIntegers(order, Integers(m.threadIDs));
    if |bytes| >= 2 {
      assert bytes[..2] == body[..2] == Encode(order, U16(n));
    }
  }

  /** What reading a message body gives, by the number that its first two bytes make. */
  lemma {:induction false} ParsedCount(order: ByteOrder, bytes: seq<byte>)
    ensures var (read, left) := Parse(order, bytes);
            if |bytes| < 2 then read == NoEnoughLength && left == bytes
            else
              var n := BigNumber(if order.BigEndian? then bytes[..2] else Reverse(bytes[..2]));
              if |bytes| < 2 + n * 8 then read == NoEnoughLength && left == bytes[2..]
              else read.Value? && |read.value| == n && left == bytes[2 + n * 8..]
  {
    hide Decode, DecodeIntegers, Elements, BigNumber, AsNumber;
    if |bytes| >= 2 {
      ReadNumber(W16, bytes[..2]);
      ElementsAsNumber(Decode(order, W16, bytes[..2]).h);
    }
  }

  lemma {:induction false} ElementsAsNumber(size: bv16)
    ensures Elements(size) == AsNumber(U16(size))
  {
    hide Elements;
    ElementsNumber(size);
  }

  /** The bytes of a message: its type, the two bytes of the number of its threads modulo 65536, and the IDs. */
  lemma {:induction false} MessageLayout(order: ByteOrder, m: MessageWithThreadIDs)
    ensures var bytes, n := EncodeAll(order, m.Fields()), |m.threadIDs|;
            && |bytes| == 4 + n * 8
            && bytes[..2] == Encode(order, U16(m.messageType))
            && Number8(bytes[if order.BigEndian? then 2 else 3]) == n / 0x100 % 0x100
            && Number8(bytes[if order.BigEndian? then 3 else 2]) == n % 0x100
            && forall i :: 0 <= i < n ==> bytes[4 + i * 8..4 + i * 8 + 8] == Encode(order, U64(m.threadIDs[i]))
  {
    hide Encode, EncodeAll, EncodeIntegers, ArraySize, Number8;
    var n := |m.threadIDs|;
    var head, count := Encode(order, U16(m.messageType)), Encode(order, U16(ArraySize(n)));
    var body, bytes := EncodeIntegers(order, Integers(m.threadIDs)), EncodeAll(order, m.Fields());
    MessageBytes(order, m);
    CountBytes(order, n);
    assert bytes == head + (count + body);
    Split(head, count, body);
    assert bytes[2] == count[0] && bytes[3] == count[1];
    forall i | 0 <= i < n
      ensures bytes[4 + i * 8..4 + i * 8 + 8] == Encode(order, U64(m.threadIDs[i]))
    {
      IntegerAt(order, W64, Integers(m.threadIDs), i);
      assert bytes[4 + i * 8..4 + i * 8 + 8] == body[i * 8..i * 8 + 8];
    }
  }

  lemma {:induction false} CountBytes(order: ByteOrder, n: nat)
    ensures var count := Encode(order, U16(ArraySize(n)));
            && Number8(count[if order.BigEndian? then 0 else 1]) == n / 0x100 % 0x100
            && Number8(count[if order.BigEndian? then 1 else 0]) == n % 0x100
  {
    hide Encode, ArraySize, Number8, AsNumber, BigNumber;
    var count := Encode(order, U16(ArraySize(n)));
    WrittenNumber(U16(ArraySize(n)));
    ArraySizeAsNumber(n);
    TwoBytes(if order.BigEndian? then count else Reverse(count));
    TwoDigits(n);
  }

  lemma {:induction false} TwoDigits(n: nat)
    ensures n % 0x1_0000 / 0x100 == n / 0x100 % 0x100 && n % 0x1_0000 % 0x100 == n % 0x100
  {
  }

  lemma {:induction false} TwoBytes(bytes: seq<byte>)
    requires |bytes| == 2
    ensures Number8(bytes[0]) == BigNumber(bytes) / 0x100 && Number8(bytes[1]) == BigNumber(bytes) % 0x100
  {
    hide Number8;
    assert bytes[..1][..0] == [] && bytes[..1] == [bytes[0]];
    assert BigNumber(bytes[..1]) == BigNumber([]) * 0x100 + Number8(bytes[0]);
    assert BigNumber(bytes) == BigNumber(bytes[..1]) * 0x100 + Number8(bytes[1]);
    ByteRange(bytes[0]);
    ByteRange(bytes[1]);
  }

  lemma {:induction false} ByteRange(b: byte)
    ensures Number8(b) < 0x100
  {
  }

  lemma {:induction false} ArraySizeAsNumber(n: nat)
    ensures AsNumber(U16(ArraySize(n))) == n % 0x1_0000
  {
    hide ArraySize;
    ArraySizeNumber(n);
  }

  /** Whether a message of `size` bytes ends up in a usable window: it was long enough, or half of the underlying
      vector is, or making room leaves one byte or none, and the room that is then made for the type alone happens
      to be enough for all. */
  predicate MessageFits(length: nat, indexBegin: nat, indexEnd: nat, size: nat)
    requires indexBegin <= indexEnd <= length
  {
    || size <= indexEnd - indexBegin
    || 2 * (indexBegin + size) <= length
    || var howMuch := size - (indexEnd - indexBegin);
       && indexBegin <= ExpandedEnd(length, indexEnd, howMuch) <= indexBegin + 1
       && 2 * indexBegin + size + 2 <= ExpandedLength(length, indexBegin, indexEnd, howMuch)
  }

  lemma {:induction false} RoomTwice(length: nat, indexBegin: nat, indexEnd: nat, size: nat)
    requires indexBegin <= indexEnd <= length && size >= 4
    ensures var l, e := RoomLength(length, indexBegin, indexEnd, size), RoomEnd(length, indexBegin, indexEnd, size);
            && e <= l && indexBegin + size <= l <= length + size && l <= RoomLength(l, indexBegin, e, 2) <= l + 2
            && RoomEnd(l, indexBegin, e, 2) <= RoomLength(l, indexBegin, e, 2)
            && (indexBegin + size <= RoomEnd(l, indexBegin, e, 2) <==> MessageFits(length, indexBegin, indexEnd, size))
            && (size <= indexEnd - indexBegin ==>
                  && l == RoomLength(l, indexBegin, e, 2) == length
                  && e == RoomEnd(l, indexBegin, e, 2) == indexEnd)
  {
  }

  lemma {:induction false} RoomTwiceExactly(length: nat, indexBegin: nat, indexEnd: nat, size: nat)
    requires indexBegin <= indexEnd <= length && size >= 4
    ensures var missing := size - (indexEnd - indexBegin);
            var grown := if missing > 0 && (indexBegin < indexEnd || length - indexEnd < missing) then missing else 0;
            var once := if missing <= 0 || indexEnd == length then indexEnd
                        else if missing < length - indexEnd then length - indexEnd - missing
                        else 0;
            var l, e := RoomLength(length, indexBegin, indexEnd, size), RoomEnd(length, indexBegin, indexEnd, size);
            && l == length + grown && e == once
            && RoomLength(l, indexBegin, e, 2) == l + (if once == indexBegin + 1 then 1 else 0)
            && RoomEnd(l, indexBegin, e, 2) ==
               if once == indexBegin || once == indexBegin + 1 then l - indexBegin - 2 else once
  {
  }

  /** `writeToWriter`: `WritableSize` bytes are written where the window begins, in a vector that is made long
      enough, and no other byte changes. Room is made for all of them, and then for the type, since the base
      message writes that by a `writeT` of its own. `ok` is false when the end of the window is passed, which
      leaves it unusable. */
  method WriteToWriter(m: MessageWithThreadIDs, writer: FieldWriter) returns (ok: bool)
    requires writer.mVector.Valid()
    requires || m.WritableSize() <= |writer.mVector.Window()|
             || writer.mVector.mVector.Length + m.WritableSize() + 2 < SIZE_RANGE
    modifies writer.mVector, writer.mVector.mVector
    ensures writer.mVector.mIndexBegin == old(writer.mVector.mIndexBegin) + m.WritableSize()
    ensures writer.mVector.mIndexBegin <= writer.mVector.mVector.Length
    ensures |EncodeAll(writer.mOrder, m.Fields())| == m.WritableSize()
    ensures old(|writer.mVector.Bytes()|) <= writer.mVector.mVector.Length
    ensures writer.mVector.Bytes() ==
            Overwrite(old(writer.mVector.Bytes()) +
                      Zeros(writer.mVector.mVector.Length - old(writer.mVector.mVector.Length)),
                      old(writer.mVector.mIndexBegin), EncodeAll(writer.mOrder, m.Fields()))
    ensures ok <==> old(MessageFits(writer.mVector.mVector.Length, writer.mVector.mIndexBegin, writer.mVector.mIndexEnd,
                                    m.WritableSize()))
    ensures ok <==> writer.mVector.Valid()
    ensures var length, begin, end :=
              old(writer.mVector.mVector.Length), old(writer.mVector.mIndexBegin), old(writer.mVector.mIndexEnd);
            var missing := m.WritableSize() - (end - begin);
            var grown := if missing > 0 && (begin < end || length - end < missing) then missing else 0;
            var once := if missing <= 0 || end == length then end
                        else if missing < length - end then length - end - missing
                        else 0;
            && writer.mVector.mVector.Length == length + grown + (if once == begin + 1 then 1 else 0)
            && writer.mVector.mIndexEnd ==
               if once == begin || once == begin + 1 then length + grown - begin - 2 else once
    ensures m.WritableSize() <= |old(writer.mVector.Window())| ==>
              && writer.mVector.mVector == old(writer.mVector.mVector)
              && writer.mVector.mIndexEnd == old(writer.mVector.mIndexEnd)
  {
    hide Encode, EncodeAll, EncodeIntegers, ArraySize, MySizeOfArgs, Overwrite, MessageFits;
    MessageBytes(writer.mOrder, m);
    MakeRoomTwice(m.WritableSize(), writer);
    ok := writer.WriteAll(m.Fields());
  }

  /** The room that is made: for the whole message, and then for its type. */
  method MakeRoomTwice(size: nat, writer: FieldWriter)
    requires writer.mVector.Valid() && size >= 4
    requires size <= |writer.mVector.Window()| || writer.mVector.mVector.Length + size + 2 < SIZE_RANGE
    modifies writer.mVector`mVector, writer.mVector`mIndexEnd
    ensures writer.mVector.mVector == old(writer.mVector.mVector) || fresh(writer.mVector.mVector)
    ensures writer.mVector.mIndexBegin + size <= writer.mVector.mVector.Length < SIZE_RANGE
    ensures writer.mVector.mIndexEnd <= writer.mVector.mVector.Length
    ensures old(writer.mVector.mVector.Length) <= writer.mVector.mVector.Length
    ensures writer.mVector.Bytes() ==
            old(writer.mVector.Bytes()) + Zeros(writer.mVector.mVector.Length - old(writer.mVector.mVector.Length))
    ensures writer.mVector.mIndexBegin + size <= writer.mVector.mIndexEnd <==>
            old(MessageFits(writer.mVector.mVector.Length, writer.mVector.mIndexBegin, writer.mVector.mIndexEnd, size))
    ensures var length, begin, end :=
              old(writer.mVector.mVector.Length), old(writer.mVector.mIndexBegin), old(writer.mVector.mIndexEnd);
            var missing := size - (end - begin);
            var grown := if missing > 0 && (begin < end || length - end < missing) then missing else 0;
            var once := if missing <= 0 || end == length then end
                        else if missing < length - end then length - end - missing
                        else 0;
            && writer.mVector.mVector.Length == length + grown + (if once == begin + 1 then 1 else 0)
            && writer.mVector.mIndexEnd ==
               if once == begin || once == begin + 1 then length + grown - begin - 2 else once
    ensures size <= |old(writer.mVector.Window())| ==>
              && writer.mVector.mVector == old(writer.mVector.mVector)
              && writer.mVector.mIndexEnd == old(writer.mVector.mIndexEnd)
  {
    hide RoomEnd, RoomLength, MessageFits;
    ghost var length, begin, end := writer.mVector.mVector.Length, writer.mVector.mIndexBegin, writer.mVector.mIndexEnd;
    RoomTwice(length, begin, end, size);
    RoomTwiceExactly(length, begin, end, size);
    ghost var bytes := writer.mVector.Bytes();
    writer.MakeRoom(size);
    ghost var once := writer.mVector.mVector.Length;
    writer.MakeRoom(2);
    ZerosJoined(bytes, once - |bytes|, writer.mVector.mVector.Length - once);
  }

  /** `ReadFrom`, over a vector. `NoEnoughLength` is the error `TooShort`. */
  method ReadFrom(reader: FieldReader) returns (r: Outcome<seq<bv64>>)
    requires reader.Valid()
    modifies reader.mVector`mIndexBegin
    ensures reader.Valid() && (r, reader.Window()) == Parse(reader.mOrder, old(reader.Window()))
  {
    hide Decode, DecodeIntegers;
    var can := reader.mVector.HasLength(2);
    if !can {
      return NoEnoughLength;
    }
    var arraySize := reader.ReadT(W16);
    var vector := reader.TryReadTVector(W64, Elements(arraySize.h));
    if !vector.Value? {
      return NoEnoughLength;
    }
    return Value(ThreadIDs(vector.value));
  }

  // ----- over a stream

  /** What reading a message body from a stream comes to, and what is buffered and still to arrive after it. */
  ghost function StreamParse(order: ByteOrder, flat: seq<byte>, network: seq<Received>):
    (Outcome<seq<bv64>>, seq<byte>, seq<Received>)
  {
    var (size, left, rest) := TryRead(order, OneOf(W16), flat, network);
    match size
    case NoEnoughLength => (NoEnoughLength, left, rest)
    case Fault => (Fault, left, rest)
    case Value(f) =>
      var (vector, left, rest) := TryRead(order, ManyOf(W64, Elements(f.x.h)), left, rest);
      match vector
      case NoEnoughLength => (NoEnoughLength, left, rest)
      case Fault => (Fault, left, rest)
      case Value(g) => (Value(ThreadIDs(g.xs)), left, rest)
  }

  /** `ReadFrom`, over a stream. */
  method ReadFromStream(reader: StreamReader) returns (r: Outcome<seq<bv64>>)
    requires reader.mVector.Valid()
    modifies reader.mVector, reader.mVector.mCurrentVector, reader.mVector.mVectors, reader.mVector.mVectors.Nodes
    ensures var (outcome, flat, network) := StreamParse(reader.mOrder, old(reader.mVector.Flat()),
                                                        old(reader.mVector.network));
            && r == outcome
            && (!r.Fault? ==>
                  reader.mVector.Valid() && reader.mVector.Flat() == flat && reader.mVector.network == network)
  {
    hide Decode, DecodeField, LinkedList.Valid, InputStreamVector.Flat, TryRead, Elements, ThreadIDs;
    var arraySize := reader.TryReadT(W16);
    if !arraySize.Value? {
      return if arraySize.Fault? then Fault else NoEnoughLength;
    }
    ghost var nodes := reader.mVector.mVectors.Nodes;
    assert forall j :: 0 <= j < |nodes| ==> nodes[j] in old(reader.mVector.mVectors.Nodes) || fresh(nodes[j]);
    var vector := reader.TryReadTVector(W64, Elements(arraySize.value.h));
    if !vector.Value? {
      return if vector.Fault? then Fault else NoEnoughLength;
    }
    return Value(ThreadIDs(vector.value));
  }

  /** A message body that arrives in packets of any sizes is read if and only if no packet ends right behind the
      number of threads or, when there are threads, right behind the last. */
  lemma {:induction false} MessageOverStream(order: ByteOrder, ids: seq<bv64>, more: seq<byte>, flat: seq<byte>,
                                             network: seq<Received>)
    requires |ids| <= MAX_THREAD_IDS
    requires flat + Arriving(network) == Encode(order, U16(ArraySize(|ids|))) +
             (EncodeIntegers(order, Integers(ids)) + more)
    ensures var (outcome, left, rest) := StreamParse(order, flat, network);
            && (outcome == Value(ids) <==>
                !PacketEnds(|flat|, network, 2) && (ids == [] || !PacketEnds(|flat|, network, 2 + |ids| * 8)))
            && (outcome == Value(ids) || outcome == Fault)
            && (outcome == Value(ids) ==> left + Arriving(rest) == more)
  {
    hide Encode, Decode, EncodeIntegers, DecodeIntegers, ArraySize, Elements, TryRead, PacketEnds, Arriving;
    var head, body := Encode(order, U16(ArraySize(|ids|))), EncodeIntegers(order, Integers(ids));
    EncodedIntegers(order, W64, Integers(ids));
    IntegerRoundTrip(order, U16(ArraySize(|ids|)));
    ArraySizeBack(|ids|);
    Split(head, body, more);
    ReadEnds(order, OneOf(W16), flat, network, |ids| * 8);
    var (size, left, rest) := TryRead(order, OneOf(W16), flat, network);
    if !size.Fault? {
      assert size == Value(One(U16(ArraySize(|ids|))));
      IntegersRoundTrip(order, W64, Integers(ids), more);
      ReadEnds(order, ManyOf(W64, |ids|), left, rest, 0);
      assert ThreadIDs(Integers(ids)) == ids;
    }
  }

  /** The same with the read of the IDs that the source names, `readTVector`, which does not wait for their bytes. */
  ghost function StreamParseUnchecked(order: ByteOrder, flat: seq<byte>, network: seq<Received>):
    (Outcome<seq<bv64>>, seq<byte>, seq<Received>)
  {
    var (size, left, rest) := TryRead(order, OneOf(W16), flat, network);
    match size
    case NoEnoughLength => (NoEnoughLength, left, rest)
    case Fault => (Fault, left, rest)
    case Value(f) =>
      var n := Elements(f.x.h);
      if n == 0 || n * 8 < |left| then (Value(ThreadIDs(DecodeIntegers(order, W64, n, left))), After(left, n * 8), rest)
      else (Fault, left, rest)
  }

  method ReadFromStreamUnchecked(reader: StreamReader) returns (r: Outcome<seq<bv64>>)
    requires reader.mVector.Valid()
    modifies reader.mVector, reader.mVector.mCurrentVector, reader.mVector.mVectors, reader.mVector.mVectors.Nodes
    ensures var (outcome, flat, network) :=
              StreamParseUnchecked(reader.mOrder, old(reader.mVector.Flat()), old(reader.mVector.network));
            && r == outcome
            && (!r.Fault? ==>
                  reader.mVector.Valid() && reader.mVector.Flat() == flat && reader.mVector.network == network)
  {
    hide Decode, DecodeField, DecodeIntegers, LinkedList.Valid, InputStreamVector.Flat, TryRead, Elements, ThreadIDs;
    var arraySize := reader.TryReadT(W16);
    if !arraySize.Value? {
      return if arraySize.Fault? then Fault else NoEnoughLength;
    }
    ghost var nodes := reader.mVector.mVectors.Nodes;
    assert forall j :: 0 <= j < |nodes| ==> nodes[j] in old(reader.mVector.mVectors.Nodes) || fresh(nodes[j]);
    var ok, vector := reader.ReadTVector(W64, Elements(arraySize.value.h));
    return if ok then Value(ThreadIDs(vector)) else Fault;
  }

  /** As the source has it, then, a message body is read if and only if all of it, and a byte more, is buffered as
      soon as the number of threads is; otherwise the read faults. */
  lemma {:induction false} MessageUnchecked(order: ByteOrder, ids: seq<bv64>, more: seq<byte>, flat: seq<byte>,
                                            network: seq<Received>)
    requires |ids| <= MAX_THREAD_IDS
    requires flat + Arriving(network) == Encode(order, U16(ArraySize(|ids|))) +
             (EncodeIntegers(order, Integers(ids)) + more)
    ensures var (outcome, left, rest) := StreamParseUnchecked(order, flat, network);
            && (outcome == Value(ids) <==> 2 + |ids| * 8 < |Fill(flat, network, 2).1|)
            && (outcome == Value(ids) || outcome == Fault)
            && (outcome == Value(ids) ==> left + Arriving(rest) == more)
  {
    hide Encode, Decode, EncodeIntegers, DecodeIntegers, ArraySize, Elements, Fill, PacketEnds, Arriving;
    var head, body := Encode(order, U16(ArraySize(|ids|))), EncodeIntegers(order, Integers(ids));
    EncodedIntegers(order, W64, Integers(ids));
    IntegerRoundTrip(order, U16(ArraySize(|ids|)));
    ArraySizeBack(|ids|);
    Split(head, body, more);
    FillKeeps(flat, network, 2);
    ReadEnds(order, OneOf(W16), flat, network, 0);
    var (size, left, rest) := TryRead(order, OneOf(W16), flat, network);
    if !size.Fault? && |ids| * 8 < |left| {
      BufferedIDs(order, ids, more, left, Arriving(rest));
    }
  }

  lemma {:induction false} BufferedIDs(order: ByteOrder, ids: seq<bv64>, more: seq<byte>, left: seq<byte>,
                                       arriving: seq<byte>)
    requires left + arriving == EncodeIntegers(order, Integers(ids)) + more && |ids| * 8 <= |left|
    ensures ThreadIDs(DecodeIntegers(order, W64, |ids|, left)) == ids
    ensures After(left, |ids| * 8) + arriving == more
  {
    hide Decode, EncodeIntegers, DecodeIntegers;
    IntegersRoundTrip(order, W64, Integers(ids), more);
    IntegersPrefix(order, W64, |ids|, left, arriving);
    assert ThreadIDs(Integers(ids)) == ids;
    assert After(left, |ids| * 8) + arriving == (left + arriving)[|ids| * 8..];
  }

  /** What is buffered and still to arrive after a message body is read from a stream: nothing behind the packets
      it needs is taken, and when it is found too short, nothing behind the first failure. */
  lemma {:induction false} ParseTakes(order: ByteOrder, flat: seq<byte>, network: seq<Received>, f: nat)
    requires FirstFailure(network, f)
    ensures var (outcome, left, rest) := StreamParse(order, flat, network);
            && (outcome == NoEnoughLength ==>
                  var all := flat + FirstBytes(network, f);
                  && left == (if |all| < 2 then all else all[2..])
                  && rest == if f < |network| then network[f + 1..] else [])
            && (outcome.Value? ==>
                  var k, size := |network| - |rest|, 2 + |outcome.value| * 8;
                  && 0 <= k <= f && rest == network[k..]
                  && (k > 0 ==> |flat + FirstBytes(network, k - 1)| < size)
                  && size <= |flat + FirstBytes(network, k)|
                  && left == (flat + FirstBytes(network, k))[size..])
  {
    hide DecodeField, Fill, FirstBytes, TryRead, Elements, ThreadIDs;
    var (size, once, later) := TryRead(order, OneOf(W16), flat, network);
    ReadTakes(order, OneOf(W16), flat, network, f);
    if size.Value? {
      SecondTakes(order, Elements(size.value.x.h), flat, network, f, |network| - |later|);
    }
  }

  lemma {:induction false} SecondTakes(order: ByteOrder, n: nat, flat: seq<byte>, network: seq<Received>, f: nat,
                                       k: nat)
    requires FirstFailure(network, f) && k <= f
    requires 2 <= |flat + FirstBytes(network, k)| && (k > 0 ==> |flat + FirstBytes(network, k - 1)| < 2)
    ensures var once, size := (flat + FirstBytes(network, k))[2..], 2 + n * 8;
            var (vector, left, rest) := TryRead(order, ManyOf(W64, n), once, network[k..]);
            && (vector == NoEnoughLength ==>
                  && 2 <= |flat + FirstBytes(network, f)| && left == (flat + FirstBytes(network, f))[2..]
                  && rest == if f < |network| then network[f + 1..] else [])
            && (vector.Value? ==>
                  var taken := |network| - |rest|;
                  && 0 <= taken <= f && rest == network[taken..]
                  && (taken > 0 ==> |flat + FirstBytes(network, taken - 1)| < size)
                  && size <= |flat + FirstBytes(network, taken)|
                  && left == (flat + FirstBytes(network, taken))[size..])
  {
    hide DecodeField, Fill, FirstBytes, TryRead;
    var once := (flat + FirstBytes(network, k))[2..];
    var (vector, left, rest) := TryRead(order, ManyOf(W64, n), once, network[k..]);
    ReadTakes(order, ManyOf(W64, n), once, network[k..], f - k);
    TwoReads(flat, network, k, f - k);
    if vector.Value? {
      var j := |network[k..]| - |rest|;
      TwoReads(flat, network, k, j);
      if j > 0 {
        TwoReads(flat, network, k, j - 1);
      }
    }
  }

  lemma {:induction false} TwoReads(flat: seq<byte>, network: seq<Received>, k: nat, j: nat)
    requires k + j <= |network| && forall i :: 0 <= i < k + j ==> network[i].Data?
    requires 2 <= |flat + FirstBytes(network, k)|
    ensures var once := (flat + FirstBytes(network, k))[2..];
            && 2 <= |flat + FirstBytes(network, k + j)|
            && once + FirstBytes(network[k..], j) == (flat + FirstBytes(network, k + j))[2..]
            && |once + FirstBytes(network[k..], j)| == |flat + FirstBytes(network, k + j)| - 2
  {
    hide FirstBytes;
    FirstBytesSplit(network, k, j);
  }

  /** A message body of which only a part arrives is never read. Without its number of threads it is found too short.
      With it, the checked read finds it too short unless a packet ends right behind the number, and faults then; the
      unchecked read always faults. */
  lemma {:induction false} CutOverStream(order: ByteOrder, ids: seq<bv64>, flat: seq<byte>, network: seq<Received>)
    requires |ids| <= MAX_THREAD_IDS
    requires flat + Arriving(network) < Encode(order, U16(ArraySize(|ids|))) + EncodeIntegers(order, Integers(ids))
    ensures var short := |flat + Arriving(network)| < 2;
            && StreamParse(order, flat, network).0 ==
               (if !short && PacketEnds(|flat|, network, 2) then Fault else NoEnoughLength)
            && StreamParseUnchecked(order, flat, network).0 == if short then NoEnoughLength else Fault
  {
    hide Encode, Decode, EncodeIntegers, DecodeIntegers, ArraySize, Elements, TryRead, PacketEnds, Arriving;
    var bytes, head := flat + Arriving(network), Encode(order, U16(ArraySize(|ids|)));
    if |bytes| < 2 {
      ReadShort(order, OneOf(W16), flat, network);
    } else {
      EncodedIntegers(order, W64, Integers(ids));
      IntegerRoundTrip(order, U16(ArraySize(|ids|)));
      ArraySizeBack(|ids|);
      assert bytes[..2] == head;
      ReadEnds(order, OneOf(W16), flat, network, 0);
      var (size, left, rest) := TryRead(order, OneOf(W16), flat, network);
      if !size.Fault? {
        ReadShort(order, ManyOf(W64, |ids|), left, rest);
      }
    }
  }

  /** In particular a message is never read when its last byte is the last to arrive before a failure. */
  lemma {:induction false} LastMessage(order: ByteOrder, ids: seq<bv64>, flat: seq<byte>, network: seq<Received>)
    requires |ids| <= MAX_THREAD_IDS
    requires flat + Arriving(network) == Encode(order, U16(ArraySize(|ids|))) + EncodeIntegers(order, Integers(ids))
    ensures StreamParse(order, flat, network).0 == Fault
  {
    hide Encode, EncodeIntegers, ArraySize, StreamParse, PacketEnds;
    var body := EncodeIntegers(order, Integers(ids));
    assert body + [] == body;
    MessageOverStream(order, ids, [], flat, network);
    EndsLast(|flat|, network);
    EncodedIntegers(order, W64, Integers(ids));
  }
}
