/** What a run of reads from a stream gives does not depend on how the bytes were split into packets. */
module StreamRuns {
  import opened Codec
  import opened Fields
  import opened FieldReaders
  import opened InputStreams
  import opened StreamReaders

  /** What the run gives when all bytes are there at once, in one piece. */
  ghost function Reference(order: ByteOrder, shapes: seq<Shape>, bytes: seq<byte>): seq<Outcome<Field>> {
    if shapes == [] then []
    else if |bytes| < shapes[0].Size() then [NoEnoughLength]
    else [Value(DecodeField(order, shapes[0], bytes))] + Reference(order, shapes[1..], After(bytes, shapes[0].Size()))
  }

  /** A packet, or what is buffered to begin with, ends at position `p`; `at` bytes are buffered. */
  ghost predicate PacketEnds(at: nat, network: seq<Received>, p: nat)
    decreases |network|
  {
    p == at || (network != [] && network[0].Data? && PacketEnds(at + |network[0].packet|, network[1..], p))
  }

  /** The first field, if any, that ends where a packet ends, or the number of fields; `done` bytes were read before
      them. */
  ghost function FirstEnd(shapes: seq<Shape>, done: nat, at: nat, network: seq<Received>): (i: nat)
    ensures i <= |shapes|
    decreases |shapes|
  {
    if shapes == [] || (shapes[0].Size() > 0 && PacketEnds(at, network, done + shapes[0].Size())) then 0
    else 1 + FirstEnd(shapes[1..], done + shapes[0].Size(), at, network)
  }

  /** One of the fields ends where a packet ends. */
  ghost predicate FieldEnds(shapes: seq<Shape>, done: nat, at: nat, network: seq<Received>) {
    FirstEnd(shapes, done, at, network) < |shapes|
  }

  /** No packet ends behind the bytes that arrive. */
  lemma {:induction false} EndsArrived(at: nat, network: seq<Received>, p: nat)
    requires PacketEnds(at, network, p)
    ensures p <= at + |Arriving(network)|
    decreases |network|
  {
    if p != at {
      EndsArrived(at + |network[0].packet|, network[1..], p);
    }
  }

  lemma {:induction false} NoEndBehind(shapes: seq<Shape>, done: nat, at: nat, network: seq<Received>)
    requires shapes != [] && at + |Arriving(network)| < done + shapes[0].Size()
    ensures FirstEnd(shapes, done, at, network) == |shapes|
    decreases |shapes|
  {
    hide PacketEnds, Arriving;
    var p := done + shapes[0].Size();
    if PacketEnds(at, network, p) {
      EndsArrived(at, network, p);
    }
    if |shapes| > 1 {
      NoEndBehind(shapes[1..], p, at, network);
    }
  }

  lemma {:induction false} EndsLater(at: nat, network: seq<Received>, p: nat)
    requires PacketEnds(at, network, p)
    ensures at <= p
    decreases |network|
  {
    if p != at {
      EndsLater(at + |network[0].packet|, network[1..], p);
    }
  }

  lemma {:induction false} EndsShifted(at: nat, network: seq<Received>, p: nat, k: nat)
    ensures PacketEnds(at + k, network, p + k) <==> PacketEnds(at, network, p)
    decreases |network|
  {
    if network != [] && network[0].Data? {
      EndsShifted(at + |network[0].packet|, network[1..], p, k);
    }
  }

  /** After `hasLength` a packet ends at its argument exactly when no more is buffered, and no packet end from
      there on is lost. */
  lemma {:induction false} FillEnds(flat: seq<byte>, network: seq<Received>, k: nat, p: nat)
    requires Fill(flat, network, k).0 && k <= p
    ensures var (_, filled, rest) := Fill(flat, network, k);
            && (PacketEnds(|flat|, network, k) <==> |filled| == k)
            && (PacketEnds(|filled|, rest, p) <==> PacketEnds(|flat|, network, p))
    decreases |network|
  {
    if k <= |flat| {
      if PacketEnds(|flat|, network, k) {
        EndsLater(|flat|, network, k);
      }
    } else {
      FillEnds(flat + network[0].packet, network[1..], k, p);
    }
  }

  /** One read: it faults exactly when a packet ends where the field ends, and otherwise the packet ends behind the
      field are those of before. */
  lemma {:induction false} ReadEnds(order: ByteOrder, shape: Shape, flat: seq<byte>, network: seq<Received>, q: nat)
    requires shape.Size() <= |flat + Arriving(network)|
    ensures var (outcome, left, rest) := TryRead(order, shape, flat, network);
            var k := shape.Size();
            && (outcome.Fault? <==> k > 0 && PacketEnds(|flat|, network, k))
            && (!outcome.Fault? ==>
                  && outcome == Value(DecodeField(order, shape, flat + Arriving(network)))
                  && left + Arriving(rest) == After(flat + Arriving(network), k)
                  && (PacketEnds(|left|, rest, q) <==> PacketEnds(|flat|, network, k + q)))
  {
    hide DecodeField;
    var k := shape.Size();
    var (has, filled, rest) := Fill(flat, network, k);
    FillKeeps(flat, network, k);
    FillEnds(flat, network, k, k + q);
    FieldPrefix(order, shape, filled, Arriving(rest));
    EndsShifted(|filled| - k, rest, q, k);
    assert After(filled, k) + Arriving(rest) == After(filled + Arriving(rest), k);
  }

  /** What one read leaves, exactly. When there are too few bytes, all that arrive before the first failure are
      buffered, and what is behind the failure is still to arrive. Otherwise no more packets are taken than the
      read needs. */
  lemma {:induction false} ReadTakes(order: ByteOrder, shape: Shape, flat: seq<byte>, network: seq<Received>, f: nat)
    requires FirstFailure(network, f)
    ensures var (outcome, left, rest) := TryRead(order, shape, flat, network);
            && (outcome == NoEnoughLength <==> |flat + FirstBytes(network, f)| < shape.Size())
            && (outcome == NoEnoughLength ==>
                  left == flat + FirstBytes(network, f) && rest == if f < |network| then network[f + 1..] else [])
            && (outcome != NoEnoughLength ==>
                  var k := |network| - |rest|;
                  && 0 <= k <= f && rest == network[k..]
                  && (k > 0 ==> |flat + FirstBytes(network, k - 1)| < shape.Size())
                  && shape.Size() <= |flat + FirstBytes(network, k)|
                  && (outcome.Value? ==> left == (flat + FirstBytes(network, k))[shape.Size()..]))
  {
    hide DecodeField, Fill, FirstBytes;
    FillTakes(flat, network, shape.Size(), f);
  }

  ghost predicate SameEnds(flat: seq<byte>, network: seq<Received>, done: nat, at: nat, all: seq<Received>) {
    && done + |flat + Arriving(network)| == at + |Arriving(all)|
    && forall q: nat :: PacketEnds(|flat|, network, q) <==> PacketEnds(at, all, done + q)
  }

  lemma {:induction false} ReadShort(order: ByteOrder, shape: Shape, flat: seq<byte>, network: seq<Received>)
    requires |flat + Arriving(network)| < shape.Size()
    ensures TryRead(order, shape, flat, network).0 == NoEnoughLength
  {
    FillKeeps(flat, network, shape.Size());
  }

  /** The first `i` outcomes, and a fault; all of them when there are no more than `i` fields. */
  ghost function Faulted(reference: seq<Outcome<Field>>, i: nat, fields: nat): seq<Outcome<Field>> {
    if i < fields && i <= |reference| then reference[..i] + [Fault] else reference
  }

  lemma {:induction false} FaultedLater(x: Outcome<Field>, reference: seq<Outcome<Field>>, i: nat, fields: nat)
    ensures Faulted([x] + reference, i + 1, fields + 1) == [x] + Faulted(reference, i, fields)
  {
    assert i <= |reference| ==> ([x] + reference)[..i + 1] == [x] + reference[..i];
  }

  lemma {:induction false} RunFrom(order: ByteOrder, shapes: seq<Shape>, flat: seq<byte>, network: seq<Received>,
                                   done: nat, at: nat, all: seq<Received>)
    requires SameEnds(flat, network, done, at, all)
    ensures var first := FirstEnd(shapes, done, at, all);
            && (first < |shapes| ==> first < |Reference(order, shapes, flat + Arriving(network))|)
            && Run(order, shapes, flat, network) ==
               Faulted(Reference(order, shapes, flat + Arriving(network)), first, |shapes|)
    decreases |shapes|
  {
    hide DecodeField, TryRead, Arriving, PacketEnds, Faulted;
    if shapes == [] {
      NoFault([], 0, 0);
    } else {
      var k := shapes[0].Size();
      var bytes := flat + Arriving(network);
      var (outcome, left, rest) := TryRead(order, shapes[0], flat, network);
      assert PacketEnds(|flat|, network, k) <==> PacketEnds(at, all, done + k);
      if |bytes| < k {
        ReadShort(order, shapes[0], flat, network);
        NoEndBehind(shapes, done, at, all);
        NoFault(Reference(order, shapes, bytes), |shapes|, |shapes|);
      } else {
        ReadEnds(order, shapes[0], flat, network, 0);
        if outcome.Value? {
          forall q: nat
            ensures PacketEnds(|left|, rest, q) <==> PacketEnds(at, all, done + k + q)
          {
            ReadEnds(order, shapes[0], flat, network, q);
            assert PacketEnds(|flat|, network, k + q) <==> PacketEnds(at, all, done + (k + q));
          }
          RunFrom(order, shapes[1..], left, rest, done + k, at, all);
          FaultedLater(outcome, Reference(order, shapes[1..], left + Arriving(rest)),
                       FirstEnd(shapes[1..], done + k, at, all), |shapes| - 1);
        } else {
          FaultNow(Reference(order, shapes, bytes), |shapes|);
        }
      }
    }
  }

  lemma {:induction false} NoFault(reference: seq<Outcome<Field>>, i: nat, fields: nat)
    requires i >= fields
    ensures Faulted(reference, i, fields) == reference
  {
  }

  lemma {:induction false} FaultNow(reference: seq<Outcome<Field>>, fields: nat)
    requires fields > 0
    ensures Faulted(reference, 0, fields) == [Fault]
  {
  }

  lemma {:induction false} ReferenceNoFault(order: ByteOrder, shapes: seq<Shape>, bytes: seq<byte>, i: nat)
    requires i < |Reference(order, shapes, bytes)|
    ensures !Reference(order, shapes, bytes)[i].Fault?
    decreases |shapes|
  {
    hide DecodeField;
    if i > 0 {
      ReferenceNoFault(order, shapes[1..], After(bytes, shapes[0].Size()), i - 1);
    }
  }

  /** What a run of reads gives, exactly: what it would give if all bytes that arrive before the first failure were
      there at once, up to the first field that ends where a packet ends. There the read takes all that is buffered,
      and faults. */
  lemma {:induction false} RunExactly(order: ByteOrder, shapes: seq<Shape>, flat: seq<byte>, network: seq<Received>)
    ensures var first := FirstEnd(shapes, 0, |flat|, network);
            && (first < |shapes| ==> first < |Reference(order, shapes, flat + Arriving(network))|)
            && Run(order, shapes, flat, network) ==
               Faulted(Reference(order, shapes, flat + Arriving(network)), first, |shapes|)
  {
    RunFrom(order, shapes, flat, network, 0, |flat|, network);
  }

  /** So it is the same as in one piece if and only if no field ends where a packet ends. */
  lemma {:induction false} RunIsReference(order: ByteOrder, shapes: seq<Shape>, flat: seq<byte>, network: seq<Received>)
    ensures Run(order, shapes, flat, network) == Reference(order, shapes, flat + Arriving(network)) <==>
            !FieldEnds(shapes, 0, |flat|, network)
  {
    hide Run, Reference;
    var bytes, first := flat + Arriving(network), FirstEnd(shapes, 0, |flat|, network);
    RunExactly(order, shapes, flat, network);
    if first < |shapes| {
      ReferenceNoFault(order, shapes, bytes, first);
      assert Run(order, shapes, flat, network)[first] == Fault;
    }
  }

  /** Two streams with the same bytes, split into packets in different ways, give the same outcomes if and only if
      the first field that ends where a packet ends is the same in both, if there is one at all. */
  lemma {:induction false} ChunkingIndependence(order: ByteOrder, shapes: seq<Shape>, flat: seq<byte>,
                                                network: seq<Received>,
                                                otherFlat: seq<byte>, otherNetwork: seq<Received>)
    requires flat + Arriving(network) == otherFlat + Arriving(otherNetwork)
    ensures Run(order, shapes, flat, network) == Run(order, shapes, otherFlat, otherNetwork) <==>
            FirstEnd(shapes, 0, |flat|, network) == FirstEnd(shapes, 0, |otherFlat|, otherNetwork)
  {
    hide Run, Reference;
    var bytes, n := flat + Arriving(network), |shapes|;
    var reference := Reference(order, shapes, bytes);
    var i, j := FirstEnd(shapes, 0, |flat|, network), FirstEnd(shapes, 0, |otherFlat|, otherNetwork);
    RunExactly(order, shapes, flat, network);
    RunExactly(order, shapes, otherFlat, otherNetwork);
    if i < j {
      ReferenceNoFault(order, shapes, bytes, i);
      assert Faulted(reference, i, n)[i] == Fault && Faulted(reference, j, n)[i] == reference[i];
    } else if j < i {
      ReferenceNoFault(order, shapes, bytes, j);
      assert Faulted(reference, j, n)[j] == Fault && Faulted(reference, i, n)[j] == reference[j];
    }
  }

  /** With a fault or without, every value that is read is the right one. */
  lemma {:induction false} RunAgrees(order: ByteOrder, shapes: seq<Shape>, flat: seq<byte>, network: seq<Received>)
    ensures var run, reference := Run(order, shapes, flat, network), Reference(order, shapes, flat + Arriving(network));
            && |run| <= |reference|
            && forall i :: 0 <= i < |run| ==> run[i] == reference[i] || (run[i].Fault? && i == |run| - 1)
    decreases |shapes|
  {
    hide DecodeField;
    if shapes != [] {
      var k := shapes[0].Size();
      var (outcome, left, rest) := TryRead(order, shapes[0], flat, network);
      if |flat + Arriving(network)| < k {
        FillKeeps(flat, network, k);
      } else {
        ReadEnds(order, shapes[0], flat, network, 0);
        if outcome.Value? {
          RunAgrees(order, shapes[1..], left, rest);
        }
      }
    }
  }

  /** A packet ends where everything ends that arrives before the first failure. */
  lemma {:induction false} EndsLast(at: nat, network: seq<Received>)
    ensures PacketEnds(at, network, at + |Arriving(network)|)
    decreases |network|
  {
    if network != [] && network[0].Data? {
      EndsLast(at + |network[0].packet|, network[1..]);
    }
  }

  ghost function Values(fs: seq<Field>): (r: seq<Outcome<Field>>)
    ensures |r| == |fs| && forall i :: 0 <= i < |r| ==> r[i] == Value(fs[i])
  {
    seq(|fs|, i requires 0 <= i < |fs| => Value(fs[i]))
  }

  lemma {:induction false} ReferenceValues(order: ByteOrder, shapes: seq<Shape>, bytes: seq<byte>)
    requires SizeOf(shapes) <= |bytes|
    ensures Reference(order, shapes, bytes) == Values(DecodeAll(order, shapes, bytes))
  {
    hide DecodeField;
    if shapes != [] {
      ReferenceValues(order, shapes[1..], bytes[shapes[0].Size()..]);
    }
  }

  /** Fields that are written, sent in packets of any sizes, and read from a stream in the same byte order come out
      as they went in if and only if no field ends where a packet ends. */
  lemma {:induction false} StreamRoundTrip(order: ByteOrder, fs: seq<Field>, more: seq<byte>, flat: seq<byte>,
                                           network: seq<Received>)
    requires forall i :: 0 <= i < |fs| ==> Typed(fs[i])
    requires flat + Arriving(network) == EncodeAll(order, fs) + more
    ensures Run(order, ShapesOf(fs), flat, network) == Values(fs) <==> !FieldEnds(ShapesOf(fs), 0, |flat|, network)
  {
    hide Run, EncodeAll, DecodeAll;
    RoundTrip(order, fs, more);
    ReferenceValues(order, ShapesOf(fs), EncodeAll(order, fs) + more);
    RunIsReference(order, ShapesOf(fs), flat, network);
  }
}
