/** What the field writers and readers of Base/FieldWriter.hpp and Base/FieldReader.hpp put into bytes and take out
    of them.

    `Encode` and `Decode` say what the bytes of an integer are, one byte at a time. The masks and shifts of the
    source are in `Parts` and `Assembled`, which are proved against them. */
module Codec {

  type byte = bv8

  datatype ByteOrder = BigEndian | LittleEndian

  datatype Width = W8 | W16 | W32 | W64 {
    function Size(): (n: nat)
      ensures n == 1 || n == 2 || n == 4 || n == 8
    {
      match this
      case W8 => 1
      case W16 => 2
      case W32 => 4
      case W64 => 8
    }
  }

  datatype Integer = U8(b: bv8) | U16(h: bv16) | U32(w: bv32) | U64(d: bv64) {
    function Width(): Width {
      match this
      case U8(_) => W8
      case U16(_) => W16
      case U32(_) => W32
      case U64(_) => W64
    }

    function Raw(): bv64 {
      match this
      case U8(v) => v as bv64
      case U16(v) => v as bv64
      case U32(v) => v as bv64
      case U64(v) => v
    }
  }

  /** The integer of a width with the low bytes of `x`. */
  function Truncated(w: Width, x: bv64): Integer {
    match w
    case W8 => U8((x & 0xff) as bv8)
    case W16 => U16((x & 0xffff) as bv16)
    case W32 => U32((x & 0xffff_ffff) as bv32)
    case W64 => U64(x)
  }

  function Reverse<T>(s: seq<T>): (r: seq<T>)
    ensures |r| == |s|
    ensures forall i :: 0 <= i < |r| ==> r[i] == s[|s| - 1 - i]
  {
    seq(|s|, i requires 0 <= i < |s| => s[|s| - 1 - i])
  }

  function Low(x: bv64): byte {
    (x & 0xff) as bv8
  }

  function Rest(x: bv64): bv64 {
    x >> 8
  }

  function Joined(low: byte, rest: bv64): bv64 {
    low as bv64 | (rest << 8)
  }

  /** The `n` low bytes of `x`, the lowest first. */
  function Digits(x: bv64, n: nat): (r: seq<byte>)
    ensures |r| == n
  {
    if n == 0 then [] else [Low(x)] + Digits(Rest(x), n - 1)
  }

  /** The number with the given bytes, the lowest first. */
  function Number(digits: seq<byte>): bv64 {
    if digits == [] then 0 else Joined(digits[0], Number(digits[1..]))
  }

  function Ordered(order: ByteOrder, digits: seq<byte>): (r: seq<byte>)
    ensures |r| == |digits|
  {
    if order.BigEndian? then Reverse(digits) else digits
  }

  function Encode(order: ByteOrder, x: Integer): (r: seq<byte>)
    ensures |r| == x.Width().Size()
  {
    Ordered(order, Digits(x.Raw(), x.Width().Size()))
  }

  function Decode(order: ByteOrder, w: Width, bytes: seq<byte>): (x: Integer)
    ensures x.Width() == w
  {
    Truncated(w, Number(Ordered(order, bytes)))
  }

  // ----- integers

  /** `x` has no more than `n` bytes. */
  ghost predicate Fits(x: bv64, n: nat) {
    if n == 0 then x == 0 else Fits(Rest(x), n - 1)
  }

  lemma {:induction false} JoinedParts(x: bv64)
    ensures Joined(Low(x), Rest(x)) == x
  {
  }

  lemma {:induction false} PartsJoined(b: byte, x: bv64)
    requires x >> 56 == 0
    ensures Low(Joined(b, x)) == b && Rest(Joined(b, x)) == x
  {
  }

  lemma {:induction false} FitsMore(x: bv64, n: nat, m: nat)
    requires Fits(x, n) && n <= m
    ensures Fits(x, m)
  {
    if n > 0 {
      FitsMore(Rest(x), n - 1, m - 1);
    } else if m > 0 {
      FitsMore(Rest(x), n, m - 1);
    }
  }

  lemma {:induction false} FitsFour(x: bv64, n: nat)
    ensures Fits(x, n + 4) <==> Fits(Rest(Rest(Rest(Rest(x)))), n)
  {
    hide Rest;
    assert Fits(x, n + 4) == Fits(Rest(x), n + 3);
    assert Fits(Rest(x), n + 3) == Fits(Rest(Rest(x)), n + 2);
    assert Fits(Rest(Rest(x)), n + 2) == Fits(Rest(Rest(Rest(x))), n + 1);
  }

  lemma {:induction false} FitsSeven(x: bv64)
    requires Fits(x, 7)
    ensures x >> 56 == 0
  {
    var high := Rest(Rest(Rest(Rest(x))));
    FitsFour(x, 3);
    assert Fits(Rest(high), 2) && Fits(Rest(Rest(high)), 1) && Fits(Rest(Rest(Rest(high))), 0);
  }

  lemma {:induction false} DigitsNumber(x: bv64, n: nat)
    requires Fits(x, n)
    ensures Number(Digits(x, n)) == x
    decreases n
  {
    hide Low, Rest, Joined;
    if n > 0 {
      DigitsNumber(Rest(x), n - 1);
      assert Digits(x, n)[1..] == Digits(Rest(x), n - 1);
      JoinedParts(x);
    }
  }

  lemma {:induction false} NumberDigits(digits: seq<byte>)
    requires |digits| <= 8
    ensures Digits(Number(digits), |digits|) == digits
    ensures Fits(Number(digits), |digits|)
  {
    hide Low, Rest, Joined;
    if digits != [] {
      var rest := Number(digits[1..]);
      NumberDigits(digits[1..]);
      FitsMore(rest, |digits| - 1, 7);
      FitsSeven(rest);
      PartsJoined(digits[0], rest);
    }
  }

  lemma {:induction false} AlwaysFits(x: Integer)
    ensures Fits(x.Raw(), x.Width().Size())
    ensures Truncated(x.Width(), x.Raw()) == x
  {
    hide Fits, Truncated, Integer.Raw;
    match x
    case U8(_) => Fits8(x);
    case U16(_) => Fits16(x);
    case U32(_) => Fits32(x);
    case U64(_) => Fits64(x);
  }

  lemma {:induction false} Fits8(x: Integer)
    requires x.U8?
    ensures Fits(x.Raw(), 1) && Truncated(W8, x.Raw()) == x
  {
    assert Rest(x.Raw()) == 0 && Fits(Rest(x.Raw()), 0);
  }

  lemma {:induction false} Fits16(x: Integer)
    requires x.U16?
    ensures Fits(x.Raw(), 2) && Truncated(W16, x.Raw()) == x
  {
    assert Rest(Rest(x.Raw())) == 0 && Fits(Rest(Rest(x.Raw())), 0);
  }

  lemma {:induction false} Fits32(x: Integer)
    requires x.U32?
    ensures Fits(x.Raw(), 4) && Truncated(W32, x.Raw()) == x
  {
    assert Rest(Rest(Rest(Rest(x.Raw())))) == 0;
    FitsFour(x.Raw(), 0);
  }

  lemma {:induction false} Fits64(x: Integer)
    requires x.U64?
    ensures Fits(x.Raw(), 8) && Truncated(W64, x.Raw()) == x
  {
    var high := Rest(Rest(Rest(Rest(x.Raw()))));
    assert Rest(Rest(Rest(Rest(high)))) == 0;
    FitsFour(high, 0);
    FitsFour(x.Raw(), 4);
  }

  lemma {:induction false} ReversedTwice<T>(s: seq<T>)
    ensures Reverse(Reverse(s)) == s
  {
  }

  /** An integer written and read in the same byte order is the same. */
  lemma {:induction false} IntegerRoundTrip(order: ByteOrder, x: Integer)
    ensures Decode(order, x.Width(), Encode(order, x)) == x
  {
    hide Truncated, Integer.Raw;
    var digits := Digits(x.Raw(), x.Width().Size());
    AlwaysFits(x);
    DigitsNumber(x.Raw(), x.Width().Size());
    ReversedTwice(digits);
  }

  /** ... and bytes read and written again are the same bytes. */
  lemma {:induction false} BytesRoundTrip(order: ByteOrder, w: Width, bytes: seq<byte>)
    requires |bytes| == w.Size()
    ensures Encode(order, Decode(order, w, bytes)) == bytes
  {
    hide Low, Rest, Truncated, Integer.Raw;
    var digits := Ordered(order, bytes);
    NumberDigits(digits);
    TruncatedFits(w, Number(digits));
    ReversedTwice(bytes);
  }

  lemma {:induction false} TruncatedFits(w: Width, x: bv64)
    requires Fits(x, w.Size())
    ensures Truncated(w, x).Raw() == x
  {
    match w
    case W8 => Kept8(x);
    case W16 => Kept16(x);
    case W32 => Kept32(x);
    case W64 =>
  }

  lemma {:induction false} Kept8(x: bv64)
    requires Fits(x, 1)
    ensures Truncated(W8, x).Raw() == x
  {
    assert Fits(Rest(x), 0);
  }

  lemma {:induction false} Kept16(x: bv64)
    requires Fits(x, 2)
    ensures Truncated(W16, x).Raw() == x
  {
    assert Fits(Rest(x), 1) && Fits(Rest(Rest(x)), 0);
  }

  lemma {:induction false} Kept32(x: bv64)
    requires Fits(x, 4)
    ensures Truncated(W32, x).Raw() == x
  {
    FitsFour(x, 0);
  }

  /** `LittleEndianFieldWriter` writes the high byte first. What a little-endian reader makes of that is the same
      integer exactly when its bytes are the same in both directions. */
  lemma {:induction false} OtherOrder(x: Integer)
    ensures Decode(LittleEndian, x.Width(), Encode(BigEndian, x)) == x <==>
            Encode(BigEndian, x) == Encode(LittleEndian, x)
    ensures Encode(BigEndian, x) == Reverse(Encode(LittleEndian, x))
  {
    IntegerRoundTrip(LittleEndian, x);
    BytesRoundTrip(LittleEndian, x.Width(), Encode(BigEndian, x));
  }

  // ----- the masks and shifts of the source

  lemma {:induction false} Unfolded2(x: bv64, n: nat)
    ensures Digits(x, n + 2) == [Low(x), Low(Rest(x))] + Digits(Rest(Rest(x)), n)
  {
    assert Digits(x, n + 2) == [Low(x)] + Digits(Rest(x), n + 1);
    assert Digits(Rest(x), n + 1) == [Low(Rest(x))] + Digits(Rest(Rest(x)), n);
  }

  lemma {:induction false} Unfolded4(x: bv64, n: nat)
    ensures Digits(x, n + 4) == [Low(x), Low(Rest(x)), Low(Rest(Rest(x))), Low(Rest(Rest(Rest(x))))] +
                                Digits(Rest(Rest(Rest(Rest(x)))), n)
  {
    hide Low, Rest, Digits;
    Unfolded2(x, n + 2);
    Unfolded2(Rest(Rest(x)), n);
  }

  /** The masked and shifted parts of an integer, the highest first. `BigEndianWriter` stores them in this order, and
      `LittleEndianWriter` backwards. */
  function Parts(x: Integer): (parts: seq<byte>)
    ensures |parts| == x.Width().Size()
  {
    match x
    case U8(v) => Parts8(v)
    case U16(v) => Parts16(v)
    case U32(v) => Parts32(v)
    case U64(v) => Parts64(v)
  }

  function Parts8(v: bv8): (parts: seq<byte>)
    ensures |parts| == 1 && parts[0] == Low(v as bv64)
  {
    [v]
  }

  function Parts16(v: bv16): (parts: seq<byte>)
    ensures |parts| == 2
    ensures parts[0] == Low(Rest(v as bv64)) && parts[1] == Low(v as bv64)
  {
    [((v as bv32 & 0xff00) >> 8) as bv8, (v as bv32 & 0x00ff) as bv8]
  }

  function Parts32(v: bv32): (parts: seq<byte>)
    ensures |parts| == 4
    ensures parts[0] == Low(Rest(Rest(Rest(v as bv64)))) && parts[1] == Low(Rest(Rest(v as bv64)))
    ensures parts[2] == Low(Rest(v as bv64)) && parts[3] == Low(v as bv64)
  {
    [((v & 0xff00_0000) >> 24) as bv8, ((v & 0x00ff_0000) >> 16) as bv8, ((v & 0x0000_ff00) >> 8) as bv8,
     (v & 0x0000_00ff) as bv8]
  }

  function Parts64(v: bv64): (parts: seq<byte>)
    ensures |parts| == 8
    ensures var high := Rest(Rest(Rest(Rest(v))));
            && parts[0] == Low(Rest(Rest(Rest(high)))) && parts[1] == Low(Rest(Rest(high)))
            && parts[2] == Low(Rest(high)) && parts[3] == Low(high)
    ensures parts[4] == Low(Rest(Rest(Rest(v)))) && parts[5] == Low(Rest(Rest(v)))
    ensures parts[6] == Low(Rest(v)) && parts[7] == Low(v)
  {
    [((v & 0xff00_0000_0000_0000) >> 56) as bv8, ((v & 0x00ff_0000_0000_0000) >> 48) as bv8,
     ((v & 0x0000_ff00_0000_0000) >> 40) as bv8, ((v & 0x0000_00ff_0000_0000) >> 32) as bv8,
     ((v & 0x0000_0000_ff00_0000) >> 24) as bv8, ((v & 0x0000_0000_00ff_0000) >> 16) as bv8,
     ((v & 0x0000_0000_0000_ff00) >> 8) as bv8, (v & 0x0000_0000_0000_00ff) as bv8]
  }

  lemma {:induction false} DigitsParts(x: Integer)
    ensures Digits(x.Raw(), x.Width().Size()) == Reverse(Parts(x))
  {
    hide Digits, Parts, Integer.Raw;
    match x
    case U8(_) => DigitsOf8(x);
    case U16(_) => DigitsOf16(x);
    case U32(_) => DigitsOf32(x);
    case U64(_) => DigitsOf64(x);
  }

  lemma {:induction false} DigitsOf8(x: Integer)
    requires x.U8?
    ensures Digits(x.Raw(), 1) == Reverse(Parts(x))
  {
    hide Digits, Parts8;
    Digits8(x.b);
  }

  lemma {:induction false} DigitsOf16(x: Integer)
    requires x.U16?
    ensures Digits(x.Raw(), 2) == Reverse(Parts(x))
  {
    hide Digits, Parts16;
    Digits16(x.h);
  }

  lemma {:induction false} DigitsOf32(x: Integer)
    requires x.U32?
    ensures Digits(x.Raw(), 4) == Reverse(Parts(x))
  {
    hide Digits, Parts32;
    Digits32(x.w);
  }

  lemma {:induction false} DigitsOf64(x: Integer)
    requires x.U64?
    ensures Digits(x.Raw(), 8) == Reverse(Parts(x))
  {
    hide Digits, Parts64;
    Digits64(x.d);
  }

  lemma {:induction false} Digits8(v: bv8)
    ensures Digits(v as bv64, 1) == Reverse(Parts8(v))
  {
    hide Low, Rest, Parts8;
    assert Digits(v as bv64, 1) == [Low(v as bv64)];
  }

  lemma {:induction false} Digits16(v: bv16)
    ensures Digits(v as bv64, 2) == Reverse(Parts16(v))
  {
    hide Low, Rest, Parts16;
    Unfolded2(v as bv64, 0);
  }

  lemma {:induction false} Digits32(v: bv32)
    ensures Digits(v as bv64, 4) == Reverse(Parts32(v))
  {
    hide Low, Rest, Parts32;
    Unfolded4(v as bv64, 0);
  }

  lemma {:induction false} Digits64(v: bv64)
    ensures Digits(v, 8) == Reverse(Parts64(v))
  {
    hide Low, Rest, Parts64, Digits;
    var high := Rest(Rest(Rest(Rest(v))));
    Unfolded4(v, 4);
    Unfolded4(high, 0);
    Empty(Rest(Rest(Rest(Rest(high)))));
  }

  lemma {:induction false} Empty(x: bv64)
    ensures Digits(x, 0) == []
  {
  }

  /** What is stored is the bytes of the integer, in the order of the writer. */
  lemma {:induction false} PartsRight(x: Integer)
    ensures Encode(BigEndian, x) == Parts(x)
    ensures Encode(LittleEndian, x) == Reverse(Parts(x))
  {
    hide Digits, Parts;
    DigitsParts(x);
    ReversedTwice(Parts(x));
  }

  /** The index of byte `k` of `n`, counted from the highest. */
  function Index(order: ByteOrder, k: nat, n: nat): nat
    requires k < n
  {
    if order.BigEndian? then k else n - 1 - k
  }

  /** The value readers: the bytes, the highest first, are shifted to their places. */
  function Assembled(w: Width, parts: seq<byte>): (x: Integer)
    requires |parts| == w.Size()
    ensures x.Width() == w
  {
    match w
    case W8 => U8(parts[0])
    case W16 => Assembled16(parts[0], parts[1])
    case W32 => Assembled32(parts[0], parts[1], parts[2], parts[3])
    case W64 => Assembled64(parts[0], parts[1], parts[2], parts[3], parts[4], parts[5], parts[6], parts[7])
  }

  function Assembled16(a: byte, b: byte): (x: Integer)
    ensures x == Truncated(W16, Joined(b, Joined(a, 0)))
  {
    U16((((a as bv32 << 8) | b as bv32) & 0xffff) as bv16)
  }

  function Assembled32(a: byte, b: byte, c: byte, d: byte): (x: Integer)
    ensures x == Truncated(W32, Joined(d, Joined(c, Joined(b, Joined(a, 0)))))
  {
    U32((a as bv32 << 24) | (b as bv32 << 16) | (c as bv32 << 8) | d as bv32)
  }

  function Assembled64(a: byte, b: byte, c: byte, d: byte, e: byte, f: byte, g: byte, h: byte): (x: Integer)
    ensures x ==
            Truncated(W64, Joined(h, Joined(g, Joined(f, Joined(e, Joined(d, Joined(c, Joined(b, Joined(a, 0)))))))))
  {
    U64((a as bv64 << 56) | (b as bv64 << 48) | (c as bv64 << 40) | (d as bv64 << 32) |
        (e as bv64 << 24) | (f as bv64 << 16) | (g as bv64 << 8) | h as bv64)
  }

  lemma {:induction false} Number2(s: seq<byte>)
    requires |s| >= 2
    ensures Number(s) == Joined(s[0], Joined(s[1], Number(s[2..])))
  {
    hide Joined;
    assert s[1..][1..] == s[2..];
  }

  lemma {:induction false} Number4(s: seq<byte>)
    requires |s| >= 4
    ensures Number(s) == Joined(s[0], Joined(s[1], Joined(s[2], Joined(s[3], Number(s[4..])))))
  {
    hide Joined, Number;
    Number2(s);
    Number2(s[2..]);
    assert s[2..][2..] == s[4..];
  }

  lemma {:induction false} NumberParts(w: Width, parts: seq<byte>)
    requires |parts| == w.Size()
    ensures Truncated(w, Number(Reverse(parts))) == Assembled(w, parts)
  {
    hide Joined, Number, Assembled16, Assembled32, Assembled64, Truncated;
    var s := Reverse(parts);
    EmptyNumber(s[|s|..]);
    match w
    case W8 => Number1(s);
    case W16 => Number2(s);
    case W32 => Number4(s);
    case W64 =>
      Number4(s);
      Number4(s[4..]);
      assert s[4..][4..] == s[8..];
  }

  lemma {:induction false} EmptyNumber(s: seq<byte>)
    requires s == []
    ensures Number(s) == 0
  {
  }

  lemma {:induction false} Number1(s: seq<byte>)
    requires |s| == 1
    ensures Truncated(W8, Number(s)) == U8(s[0])
  {
    assert Number(s) == Joined(s[0], 0);
  }

  /** What is read is the integer with these bytes, in the order of the reader. */
  lemma {:induction false} AssembledRight(w: Width, parts: seq<byte>)
    requires |parts| == w.Size()
    ensures Decode(BigEndian, w, parts) == Assembled(w, parts)
    ensures Decode(LittleEndian, w, Reverse(parts)) == Assembled(w, parts)
  {
    hide Number, Assembled, Truncated;
    NumberParts(w, parts);
  }

  /** So the type of a Hello message, 0x8045, does not come out as it went in. */
  lemma {:induction false} HelloType()
    ensures Encode(BigEndian, U16(0x8045)) == [0x80, 0x45]
    ensures Decode(LittleEndian, W16, Encode(BigEndian, U16(0x8045))) == U16(0x4580)
  {
    PartsRight(U16(0x8045));
    AssembledRight(W16, [0x45, 0x80]);
    assert Reverse([0x45 as byte, 0x80]) == [0x80, 0x45];
  }
}
