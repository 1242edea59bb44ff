/** Lists of fields: integers of any width, and vectors of integers of one width. */
module Fields {
  import opened Codec

  datatype Field = One(x: Integer) | Many(w: Width, xs: seq<Integer>)

  /** The type of a field, as the reader names it: a width, or a width and a number of elements. */
  datatype Shape = OneOf(w: Width) | ManyOf(w: Width, n: nat) {
    /** The bytes of such a field. */
    function Size(): nat {
      match this
      case OneOf(w) => w.Size()
      case ManyOf(w, n) => n * w.Size()
    }
  }

  /** The elements of a vector have one type. */
  ghost predicate Typed(f: Field) {
    f.Many? ==> forall i :: 0 <= i < |f.xs| ==> f.xs[i].Width() == f.w
  }

  function ShapeOf(f: Field): Shape {
    match f
    case One(x) => OneOf(x.Width())
    case Many(w, xs) => ManyOf(w, |xs|)
  }

  function ShapesOf(fs: seq<Field>): (r: seq<Shape>)
    ensures |r| == |fs|
  {
    if fs == [] then [] else [ShapeOf(fs[0])] + ShapesOf(fs[1..])
  }

  /** `mySizeOfArgs`. */
  function MySizeOfArgs(fs: seq<Field>): nat {
    if fs == [] then 0 else ShapeOf(fs[0]).Size() + MySizeOfArgs(fs[1..])
  }

  function SizeOf(shapes: seq<Shape>): nat {
    if shapes == [] then 0 else shapes[0].Size() + SizeOf(shapes[1..])
  }

  ghost function EncodeIntegers(order: ByteOrder, xs: seq<Integer>): seq<byte> {
    if xs == [] then [] else Encode(order, xs[0]) + EncodeIntegers(order, xs[1..])
  }

  ghost function EncodeField(order: ByteOrder, f: Field): seq<byte> {
    match f
    case One(x) => Encode(order, x)
    case Many(_, xs) => EncodeIntegers(order, xs)
  }

  ghost function EncodeAll(order: ByteOrder, fs: seq<Field>): seq<byte> {
    if fs == [] then [] else EncodeField(order, fs[0]) + EncodeAll(order, fs[1..])
  }

  ghost function DecodeIntegers(order: ByteOrder, w: Width, n: nat, bytes: seq<byte>): (xs: seq<Integer>)
    requires n * w.Size() <= |bytes|
    ensures |xs| == n && forall i :: 0 <= i < n ==> xs[i].Width() == w
  {
    if n == 0 then []
    else [Decode(order, w, bytes[..w.Size()])] + DecodeIntegers(order, w, n - 1, bytes[w.Size()..])
  }

  ghost function DecodeField(order: ByteOrder, shape: Shape, bytes: seq<byte>): (f: Field)
    requires shape.Size() <= |bytes|
    ensures Typed(f) && ShapeOf(f) == shape
  {
    match shape
    case OneOf(w) => One(Decode(order, w, bytes[..w.Size()]))
    case ManyOf(w, n) => Many(w, DecodeIntegers(order, w, n, bytes))
  }

  ghost function DecodeAll(order: ByteOrder, shapes: seq<Shape>, bytes: seq<byte>): (fs: seq<Field>)
    requires SizeOf(shapes) <= |bytes|
    ensures |fs| == |shapes|
  {
    if shapes == [] then []
    else [DecodeField(order, shapes[0], bytes)] + DecodeAll(order, shapes[1..], bytes[shapes[0].Size()..])
  }

  // ----- sizes

  lemma {:induction false} EncodedIntegers(order: ByteOrder, w: Width, xs: seq<Integer>)
    requires Typed(Many(w, xs))
    ensures |EncodeIntegers(order, xs)| == |xs| * w.Size()
  {
    if xs != [] {
      EncodedIntegers(order, w, xs[1..]);
      assert xs[0].Width() == w;
      assert (|xs| - 1) * w.Size() + w.Size() == |xs| * w.Size();
    }
  }

  lemma {:induction false} EncodedField(order: ByteOrder, f: Field)
    requires Typed(f)
    ensures |EncodeField(order, f)| == ShapeOf(f).Size()
  {
    if f.Many? {
      EncodedIntegers(order, f.w, f.xs);
    }
  }

  /** `mySizeOfArgs` is the number of bytes that are written. */
  lemma {:induction false} EncodedSize(order: ByteOrder, fs: seq<Field>)
    requires forall i :: 0 <= i < |fs| ==> Typed(fs[i])
    ensures |EncodeAll(order, fs)| == MySizeOfArgs(fs) == SizeOf(ShapesOf(fs))
  {
    if fs != [] {
      EncodedField(order, fs[0]);
      EncodedSize(order, fs[1..]);
    }
  }

  // ----- places

  /** Where the bytes of an element of a vector are. */
  lemma {:induction false} IntegerAt(order: ByteOrder, w: Width, xs: seq<Integer>, i: nat)
    requires Typed(Many(w, xs)) && i < |xs|
    ensures i * w.Size() + w.Size() <= |EncodeIntegers(order, xs)| == |xs| * w.Size()
    ensures EncodeIntegers(order, xs)[i * w.Size()..i * w.Size() + w.Size()] == Encode(order, xs[i])
    decreases i
  {
    hide Encode, Width.Size;
    var k := w.Size();
    EncodedIntegers(order, w, xs);
    Multiples(|xs|, i, k);
    FirstInteger(order, w, xs);
    if i > 0 {
      IntegerAt(order, w, xs[1..], i - 1);
      Later(Encode(order, xs[0]), EncodeIntegers(order, xs[1..]), (i - 1) * k, k);
    }
  }

  lemma {:induction false} FirstInteger(order: ByteOrder, w: Width, xs: seq<Integer>)
    requires Typed(Many(w, xs)) && xs != []
    ensures |Encode(order, xs[0])| == w.Size() <= |EncodeIntegers(order, xs)|
    ensures EncodeIntegers(order, xs)[..w.Size()] == Encode(order, xs[0])
  {
    assert xs[0].Width() == w;
  }

  lemma {:induction false} Multiples(n: nat, i: nat, k: nat)
    requires i < n
    ensures i * k + k <= n * k && (i > 0 ==> (i - 1) * k + k == i * k)
  {
    assert (n - 1 - i) * k + i * k + k == n * k;
  }

  lemma {:induction false} Later(head: seq<byte>, rest: seq<byte>, from: nat, k: nat)
    requires from + k <= |rest|
    ensures (head + rest)[|head| + from..|head| + from + k] == rest[from..from + k]
  {
  }

  /** Where the bytes of a field are. */
  lemma {:induction false} FieldAt(order: ByteOrder, fs: seq<Field>, i: nat)
    requires i < |fs| && forall j :: 0 <= j < |fs| ==> Typed(fs[j])
    ensures var from, k := MySizeOfArgs(fs[..i]), ShapeOf(fs[i]).Size();
            && from + k <= |EncodeAll(order, fs)|
            && EncodeAll(order, fs)[from..from + k] == EncodeField(order, fs[i])
    decreases i
  {
    hide EncodeField, Typed, ShapeOf, Shape.Size;
    EncodedField(order, fs[0]);
    if i == 0 {
      assert fs[..0] == [];
    } else {
      FieldAt(order, fs[1..], i - 1);
      assert fs[..i][0] == fs[0] && fs[..i][1..] == fs[1..][..i - 1];
      Later(EncodeField(order, fs[0]), EncodeAll(order, fs[1..]), MySizeOfArgs(fs[1..][..i - 1]),
            ShapeOf(fs[i]).Size());
    }
  }

  // ----- round trips

  lemma {:induction false} DecodeIntegersStep(order: ByteOrder, w: Width, n: nat, head: seq<byte>, rest: seq<byte>)
    requires |head| == w.Size() && n * w.Size() <= |rest|
    ensures (n + 1) * w.Size() <= |head + rest|
    ensures DecodeIntegers(order, w, n + 1, head + rest) == [Decode(order, w, head)] + DecodeIntegers(order, w, n, rest)
  {
    hide Decode;
    assert (n + 1) * w.Size() == n * w.Size() + w.Size();
    assert (head + rest)[..w.Size()] == head && (head + rest)[w.Size()..] == rest;
  }

  lemma {:induction false} DecodeAllStep(order: ByteOrder, shape: Shape, shapes: seq<Shape>, head: seq<byte>,
                                         rest: seq<byte>)
    requires |head| == shape.Size() && SizeOf(shapes) <= |rest|
    ensures SizeOf([shape] + shapes) == shape.Size() + SizeOf(shapes)
    ensures DecodeAll(order, [shape] + shapes, head + rest) ==
            [DecodeField(order, shape, head + rest)] + DecodeAll(order, shapes, rest)
  {
    hide DecodeField;
    assert ([shape] + shapes)[1..] == shapes;
    assert (head + rest)[shape.Size()..] == rest;
  }

  lemma {:induction false} IntegersRoundTrip(order: ByteOrder, w: Width, xs: seq<Integer>, more: seq<byte>)
    requires Typed(Many(w, xs))
    ensures |EncodeIntegers(order, xs)| == |xs| * w.Size()
    ensures DecodeIntegers(order, w, |xs|, EncodeIntegers(order, xs) + more) == xs
  {
    hide Decode, Encode, DecodeIntegers;
    EncodedIntegers(order, w, xs);
    if xs == [] {
      assert DecodeIntegers(order, w, 0, EncodeIntegers(order, xs) + more) == [];
    } else {
      var head, rest := Encode(order, xs[0]), EncodeIntegers(order, xs[1..]);
      assert xs[0].Width() == w;
      IntegerRoundTrip(order, xs[0]);
      IntegersRoundTrip(order, w, xs[1..], more);
      DecodeIntegersStep(order, w, |xs| - 1, head, rest + more);
      assert EncodeIntegers(order, xs) + more == head + (rest + more);
    }
  }

  lemma {:induction false} FieldRoundTrip(order: ByteOrder, f: Field, more: seq<byte>)
    requires Typed(f)
    ensures |EncodeField(order, f)| == ShapeOf(f).Size()
    ensures DecodeField(order, ShapeOf(f), EncodeField(order, f) + more) == f
  {
    hide Decode, Encode;
    EncodedField(order, f);
    match f
    case One(x) =>
      IntegerRoundTrip(order, x);
      assert (Encode(order, x) + more)[..x.Width().Size()] == Encode(order, x);
    case Many(w, xs) =>
      IntegersRoundTrip(order, w, xs, more);
  }

  /** Fields written and read in the same byte order are the same, whatever bytes follow. */
  lemma {:induction false} RoundTrip(order: ByteOrder, fs: seq<Field>, more: seq<byte>)
    requires forall i :: 0 <= i < |fs| ==> Typed(fs[i])
    ensures |EncodeAll(order, fs)| == SizeOf(ShapesOf(fs))
    ensures DecodeAll(order, ShapesOf(fs), EncodeAll(order, fs) + more) == fs
  {
    hide DecodeField, EncodeField, DecodeAll, Typed, Shape.Size, ShapeOf;
    EncodedSize(order, fs);
    if fs != [] {
      var head, rest := EncodeField(order, fs[0]), EncodeAll(order, fs[1..]);
      EncodedSize(order, fs[1..]);
      FieldRoundTrip(order, fs[0], rest + more);
      RoundTrip(order, fs[1..], more);
      DecodeAllStep(order, ShapeOf(fs[0]), ShapesOf(fs[1..]), head, rest + more);
      assert EncodeAll(order, fs) + more == head + (rest + more);
    }
  }

  lemma {:induction false} IntegersBack(order: ByteOrder, w: Width, n: nat, bytes: seq<byte>)
    requires n * w.Size() <= |bytes|
    ensures EncodeIntegers(order, DecodeIntegers(order, w, n, bytes)) == bytes[..n * w.Size()]
  {
    hide Decode, Encode, EncodeIntegers, DecodeIntegers, Width.Size;
    if n == 0 {
      NoIntegers(order);
    } else {
      var k, m := w.Size(), (n - 1) * w.Size();
      var head, rest := bytes[..k], bytes[k..];
      assert n * k == k + m && bytes == head + rest;
      DecodeIntegersStep(order, w, n - 1, head, rest);
      EncodeIntegersStep(order, Decode(order, w, head), DecodeIntegers(order, w, n - 1, rest));
      BytesRoundTrip(order, w, head);
      IntegersBack(order, w, n - 1, rest);
      SplitAt(bytes, k, m);
    }
  }

  lemma {:induction false} NoIntegers(order: ByteOrder)
    ensures EncodeIntegers(order, []) == []
  {
  }

  lemma {:induction false} EncodeIntegersStep(order: ByteOrder, x: Integer, xs: seq<Integer>)
    ensures EncodeIntegers(order, [x] + xs) == Encode(order, x) + EncodeIntegers(order, xs)
  {
    assert ([x] + xs)[1..] == xs;
  }

  lemma {:induction false} SplitAt<T>(s: seq<T>, k: nat, m: nat)
    requires k + m <= |s|
    ensures s[..k] + s[k..][..m] == s[..k + m]
  {
  }

  lemma {:induction false} FieldBack(order: ByteOrder, shape: Shape, bytes: seq<byte>)
    requires shape.Size() <= |bytes|
    ensures EncodeField(order, DecodeField(order, shape, bytes)) == bytes[..shape.Size()]
  {
    match shape
    case OneOf(w) => BytesRoundTrip(order, w, bytes[..w.Size()]);
    case ManyOf(w, n) => IntegersBack(order, w, n, bytes);
  }

  /** Bytes that are read, and the values written again, are the same bytes: so reading loses nothing. */
  lemma {:induction false} RoundTripBack(order: ByteOrder, shapes: seq<Shape>, bytes: seq<byte>)
    requires SizeOf(shapes) <= |bytes|
    ensures EncodeAll(order, DecodeAll(order, shapes, bytes)) == bytes[..SizeOf(shapes)]
  {
    hide DecodeField, EncodeField;
    if shapes != [] {
      var k, m := shapes[0].Size(), SizeOf(shapes[1..]);
      var fs := DecodeAll(order, shapes, bytes);
      FieldBack(order, shapes[0], bytes);
      RoundTripBack(order, shapes[1..], bytes[k..]);
      assert fs[0] == DecodeField(order, shapes[0], bytes) && fs[1..] == DecodeAll(order, shapes[1..], bytes[k..]);
      SplitAt(bytes, k, m);
    }
  }

  // ----- a writer and a reader of different byte orders

  /** All integers of the field have the same bytes in both directions. */
  ghost predicate Symmetric(f: Field) {
    match f
    case One(x) => Encode(BigEndian, x) == Encode(LittleEndian, x)
    case Many(_, xs) => forall i :: 0 <= i < |xs| ==> Encode(BigEndian, xs[i]) == Encode(LittleEndian, xs[i])
  }

  lemma {:induction false} SameParts(a: seq<byte>, b: seq<byte>, c: seq<byte>, d: seq<byte>)
    requires |a| == |c|
    ensures a + b == c + d <==> a == c && b == d
  {
    if a + b == c + d {
      assert a == (a + b)[..|a|] && b == (a + b)[|a|..];
      assert c == (c + d)[..|a|] && d == (c + d)[|a|..];
    }
  }

  lemma {:induction false} SymmetricIntegers(xs: seq<Integer>)
    ensures EncodeIntegers(BigEndian, xs) == EncodeIntegers(LittleEndian, xs) <==>
            forall i :: 0 <= i < |xs| ==> Encode(BigEndian, xs[i]) == Encode(LittleEndian, xs[i])
  {
    hide Encode;
    if xs != [] {
      SymmetricIntegers(xs[1..]);
      SameParts(Encode(BigEndian, xs[0]), EncodeIntegers(BigEndian, xs[1..]),
                Encode(LittleEndian, xs[0]), EncodeIntegers(LittleEndian, xs[1..]));
      assert forall i :: 0 < i < |xs| ==> xs[i] == xs[1..][i - 1];
    }
  }

  lemma {:induction false} SymmetricFields(fs: seq<Field>)
    requires forall i :: 0 <= i < |fs| ==> Typed(fs[i])
    ensures EncodeAll(BigEndian, fs) == EncodeAll(LittleEndian, fs) <==> forall i :: 0 <= i < |fs| ==> Symmetric(fs[i])
  {
    hide Encode, EncodeField, Symmetric, Typed;
    if fs != [] {
      EncodedField(BigEndian, fs[0]);
      EncodedField(LittleEndian, fs[0]);
      SymmetricFields(fs[1..]);
      SymmetricField(fs[0]);
      SameParts(EncodeField(BigEndian, fs[0]), EncodeAll(BigEndian, fs[1..]),
                EncodeField(LittleEndian, fs[0]), EncodeAll(LittleEndian, fs[1..]));
      assert forall i :: 0 < i < |fs| ==> fs[i] == fs[1..][i - 1];
    }
  }

  lemma {:induction false} SymmetricField(f: Field)
    ensures EncodeField(BigEndian, f) == EncodeField(LittleEndian, f) <==> Symmetric(f)
  {
    if f.Many? {
      SymmetricIntegers(f.xs);
    }
  }

  /** What the writer that goes by the name of little-endian writes is read back by a little-endian reader if and
      only if every integer has the same bytes in both directions. */
  lemma {:induction false} MixedRoundTrip(fs: seq<Field>, more: seq<byte>)
    requires forall i :: 0 <= i < |fs| ==> Typed(fs[i])
    ensures |EncodeAll(BigEndian, fs)| == SizeOf(ShapesOf(fs))
    ensures DecodeAll(LittleEndian, ShapesOf(fs), EncodeAll(BigEndian, fs) + more) == fs <==>
            forall i :: 0 <= i < |fs| ==> Symmetric(fs[i])
  {
    hide EncodeAll, DecodeAll, Symmetric, Typed;
    var bytes := EncodeAll(BigEndian, fs) + more;
    EncodedSize(BigEndian, fs);
    assert bytes[..SizeOf(ShapesOf(fs))] == EncodeAll(BigEndian, fs);
    RoundTripBack(LittleEndian, ShapesOf(fs), bytes);
    RoundTrip(LittleEndian, fs, more);
    SymmetricFields(fs);
  }

  // ----- values depend on no more bytes than they have

  lemma {:induction false} IntegersPrefix(order: ByteOrder, w: Width, n: nat, bytes: seq<byte>, more: seq<byte>)
    requires n * w.Size() <= |bytes|
    ensures DecodeIntegers(order, w, n, bytes + more) == DecodeIntegers(order, w, n, bytes)
  {
    hide Decode;
    if n > 0 {
      var k := w.Size();
      assert n * k == k + (n - 1) * k;
      assert (bytes + more)[..k] == bytes[..k] && (bytes + more)[k..] == bytes[k..] + more;
      IntegersPrefix(order, w, n - 1, bytes[k..], more);
    }
  }

  lemma {:induction false} FieldPrefix(order: ByteOrder, shape: Shape, bytes: seq<byte>, more: seq<byte>)
    requires shape.Size() <= |bytes|
    ensures DecodeField(order, shape, bytes + more) == DecodeField(order, shape, bytes)
  {
    match shape
    case OneOf(w) => assert (bytes + more)[..w.Size()] == bytes[..w.Size()];
    case ManyOf(w, n) => IntegersPrefix(order, w, n, bytes, more);
  }

  /** The values read depend on their own bytes only: more bytes at the end change nothing. */
  lemma {:induction false} Prefix(order: ByteOrder, shapes: seq<Shape>, bytes: seq<byte>, more: seq<byte>)
    requires SizeOf(shapes) <= |bytes|
    ensures DecodeAll(order, shapes, bytes + more) == DecodeAll(order, shapes, bytes)
  {
    hide DecodeField;
    if shapes != [] {
      var k := shapes[0].Size();
      FieldPrefix(order, shapes[0], bytes, more);
      Prefix(order, shapes[1..], bytes[k..], more);
      assert (bytes + more)[k..] == bytes[k..] + more;
    }
  }
}
