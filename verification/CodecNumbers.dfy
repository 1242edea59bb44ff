/** The bytes of integers, written out: each byte by a shift and a mask of the integer alone, and each integer by
    the number that its bytes make. */
module CodecNumbers {
  import opened Codec

  // ----- every byte that is written

  lemma {:induction false} Encoded8(order: ByteOrder, v: bv8)
    ensures Encode(order, U8(v)) == [v]
  {
    PartsRight(U8(v));
    assert Reverse([v]) == [v];
  }

  lemma {:induction false} Encoded16(v: bv16)
    ensures Encode(BigEndian, U16(v)) == [(v >> 8) as bv8, (v & 0xff) as bv8]
    ensures Encode(LittleEndian, U16(v)) == [(v & 0xff) as bv8, (v >> 8) as bv8]
  {
    hide Encode;
    PartsRight(U16(v));
    Shifted16(v);
  }

  lemma {:induction false} Shifted16(v: bv16)
    ensures Parts16(v) == [(v >> 8) as bv8, (v & 0xff) as bv8]
  {
  }

  lemma {:induction false} Encoded32(v: bv32)
    ensures Encode(BigEndian, U32(v)) ==
            [(v >> 24) as bv8, ((v >> 16) & 0xff) as bv8, ((v >> 8) & 0xff) as bv8, (v & 0xff) as bv8]
    ensures Encode(LittleEndian, U32(v)) ==
            [(v & 0xff) as bv8, ((v >> 8) & 0xff) as bv8, ((v >> 16) & 0xff) as bv8, (v >> 24) as bv8]
  {
    hide Encode;
    PartsRight(U32(v));
    Shifted32(v);
  }

  lemma {:induction false} Shifted32(v: bv32)
    ensures Parts32(v) == [(v >> 24) as bv8, ((v >> 16) & 0xff) as bv8, ((v >> 8) & 0xff) as bv8, (v & 0xff) as bv8]
  {
  }

  lemma {:induction false} Encoded64(v: bv64)
    ensures Encode(BigEndian, U64(v)) ==
            [(v >> 56) as bv8, ((v >> 48) & 0xff) as bv8, ((v >> 40) & 0xff) as bv8, ((v >> 32) & 0xff) as bv8,
             ((v >> 24) & 0xff) as bv8, ((v >> 16) & 0xff) as bv8, ((v >> 8) & 0xff) as bv8, (v & 0xff) as bv8]
    ensures Encode(LittleEndian, U64(v)) ==
            [(v & 0xff) as bv8, ((v >> 8) & 0xff) as bv8, ((v >> 16) & 0xff) as bv8, ((v >> 24) & 0xff) as bv8,
             ((v >> 32) & 0xff) as bv8, ((v >> 40) & 0xff) as bv8, ((v >> 48) & 0xff) as bv8, (v >> 56) as bv8]
  {
    hide Encode;
    PartsRight(U64(v));
    Shifted64(v);
  }

  lemma {:induction false} Shifted64(v: bv64)
    ensures Parts64(v) ==
            [(v >> 56) as bv8, ((v >> 48) & 0xff) as bv8, ((v >> 40) & 0xff) as bv8, ((v >> 32) & 0xff) as bv8,
             ((v >> 24) & 0xff) as bv8, ((v >> 16) & 0xff) as bv8, ((v >> 8) & 0xff) as bv8, (v & 0xff) as bv8]
  {
  }

  // ----- every integer that is read

  lemma {:induction false} Decoded8(order: ByteOrder, a: byte)
    ensures Decode(order, W8, [a]) == U8(a)
  {
    hide Decode;
    AssembledRight(W8, [a]);
    assert Reverse([a]) == [a];
  }

  lemma {:induction false} Decoded16(a: byte, b: byte)
    ensures Decode(BigEndian, W16, [a, b]) == U16((a as bv16 << 8) | b as bv16)
    ensures Decode(LittleEndian, W16, [b, a]) == U16((a as bv16 << 8) | b as bv16)
  {
    hide Decode;
    AssembledRight(W16, [a, b]);
    assert Reverse([a, b]) == [b, a];
    Joined16(a, b);
  }

  lemma {:induction false} Joined16(a: byte, b: byte)
    ensures Assembled16(a, b) == U16((a as bv16 << 8) | b as bv16)
  {
  }

  lemma {:induction false} Decoded32(a: byte, b: byte, c: byte, d: byte)
    ensures Decode(BigEndian, W32, [a, b, c, d]) ==
            U32((a as bv32 << 24) | (b as bv32 << 16) | (c as bv32 << 8) | d as bv32)
    ensures Decode(LittleEndian, W32, [d, c, b, a]) ==
            U32((a as bv32 << 24) | (b as bv32 << 16) | (c as bv32 << 8) | d as bv32)
  {
    hide Decode, Assembled32;
    AssembledRight(W32, [a, b, c, d]);
    assert Reverse([a, b, c, d]) == [d, c, b, a];
    Joined32(a, b, c, d);
  }

  lemma {:induction false} Joined32(a: byte, b: byte, c: byte, d: byte)
    ensures Assembled32(a, b, c, d) == U32((a as bv32 << 24) | (b as bv32 << 16) | (c as bv32 << 8) | d as bv32)
  {
  }

  lemma {:induction false} Decoded64(a: byte, b: byte, c: byte, d: byte, e: byte, f: byte, g: byte, h: byte)
    ensures var x := (a as bv64 << 56) | (b as bv64 << 48) | (c as bv64 << 40) | (d as bv64 << 32) |
                     (e as bv64 << 24) | (f as bv64 << 16) | (g as bv64 << 8) | h as bv64;
            && Decode(BigEndian, W64, [a, b, c, d, e, f, g, h]) == U64(x)
            && Decode(LittleEndian, W64, [h, g, f, e, d, c, b, a]) == U64(x)
  {
    hide Decode, Assembled64;
    AssembledRight(W64, [a, b, c, d, e, f, g, h]);
    assert Reverse([a, b, c, d, e, f, g, h]) == [h, g, f, e, d, c, b, a];
    Joined64(a, b, c, d, e, f, g, h);
  }

  lemma {:induction false} Joined64(a: byte, b: byte, c: byte, d: byte, e: byte, f: byte, g: byte, h: byte)
    ensures Assembled64(a, b, c, d, e, f, g, h) ==
            U64((a as bv64 << 56) | (b as bv64 << 48) | (c as bv64 << 40) | (d as bv64 << 32) |
                (e as bv64 << 24) | (f as bv64 << 16) | (g as bv64 << 8) | h as bv64)
  {
  }

  // ----- the numbers

  function Number8(v: bv8): nat {
    v as nat
  }

  function AsNumber(x: Integer): nat {
    match x
    case U8(v) => v as nat
    case U16(v) => v as nat
    case U32(v) => v as nat
    case U64(v) => v as nat
  }

  /** The number that bytes make, the highest first. */
  ghost function BigNumber(bytes: seq<byte>): nat {
    if bytes == [] then 0 else BigNumber(bytes[..|bytes| - 1]) * 0x100 + Number8(bytes[|bytes| - 1])
  }

  lemma {:induction false} Wide16(high: bv8, low: bv8)
    ensures ((high as bv16 << 8) | low as bv16) as nat == high as nat * 0x100 + low as nat
  {
  }

  lemma {:induction false} Wide32(high: bv16, low: bv16)
    ensures ((high as bv32 << 16) | low as bv32) as nat == high as nat * 0x1_0000 + low as nat
  {
  }

  lemma {:induction false} Wide64(high: bv32, low: bv32)
    ensures ((high as bv64 << 32) | low as bv64) as nat == high as nat * 0x1_0000_0000 + low as nat
  {
  }

  function Pair32(high: bv16, low: bv16): bv32 {
    (high as bv32 << 16) | low as bv32
  }

  function Pair64(high: bv32, low: bv32): bv64 {
    (high as bv64 << 32) | low as bv64
  }

  lemma {:induction false} Join16(a: byte, b: byte)
    ensures AsNumber(Assembled16(a, b)) == Number8(a) * 0x100 + Number8(b)
  {
    Joined16(a, b);
    Wide16(a, b);
  }

  lemma {:induction false} Halves32(a: byte, b: byte, c: byte, d: byte)
    ensures Assembled32(a, b, c, d) == U32(Pair32(Assembled16(a, b).h, Assembled16(c, d).h))
  {
  }

  lemma {:induction false} Join32(a: byte, b: byte, c: byte, d: byte)
    ensures AsNumber(Assembled32(a, b, c, d)) == AsNumber(Assembled16(a, b)) * 0x1_0000 + AsNumber(Assembled16(c, d))
  {
    hide AsNumber, Assembled16, Assembled32, Pair32;
    Halves32(a, b, c, d);
    WideNumber32(Assembled16(a, b).h, Assembled16(c, d).h);
  }

  lemma {:induction false} WideNumber32(high: bv16, low: bv16)
    ensures AsNumber(U32(Pair32(high, low))) == AsNumber(U16(high)) * 0x1_0000 + AsNumber(U16(low))
  {
    Wide32(high, low);
  }

  lemma {:induction false} WideNumber64(high: bv32, low: bv32)
    ensures AsNumber(U64(Pair64(high, low))) ==
            AsNumber(U32(high)) * 0x1_0000_0000 + AsNumber(U32(low))
  {
    Wide64(high, low);
  }

  lemma {:induction false} Halves64(a: byte, b: byte, c: byte, d: byte, e: byte, f: byte, g: byte, h: byte)
    ensures Assembled64(a, b, c, d, e, f, g, h) ==
            U64(Pair64(Assembled32(a, b, c, d).w, Assembled32(e, f, g, h).w))
  {
  }

  lemma {:induction false} Join64(a: byte, b: byte, c: byte, d: byte, e: byte, f: byte, g: byte, h: byte)
    ensures AsNumber(Assembled64(a, b, c, d, e, f, g, h)) ==
            AsNumber(Assembled32(a, b, c, d)) * 0x1_0000_0000 + AsNumber(Assembled32(e, f, g, h))
  {
    hide AsNumber, Assembled32, Assembled64, Pair64;
    Halves64(a, b, c, d, e, f, g, h);
    WideNumber64(Assembled32(a, b, c, d).w, Assembled32(e, f, g, h).w);
  }

  lemma {:induction false} Number2(bytes: seq<byte>, n: nat)
    requires n + 2 <= |bytes|
    ensures BigNumber(bytes[..n + 2]) == BigNumber(bytes[..n]) * 0x1_0000 +
            AsNumber(Assembled16(bytes[n], bytes[n + 1]))
  {
    hide Number8, AsNumber, Assembled16;
    assert bytes[..n + 2][..n + 1] == bytes[..n + 1] && bytes[..n + 1][..n] == bytes[..n];
    Join16(bytes[n], bytes[n + 1]);
  }

  lemma {:induction false} Number4(bytes: seq<byte>, n: nat)
    requires n + 4 <= |bytes|
    ensures BigNumber(bytes[..n + 4]) ==
            BigNumber(bytes[..n]) * 0x1_0000_0000 +
            AsNumber(Assembled32(bytes[n], bytes[n + 1], bytes[n + 2], bytes[n + 3]))
  {
    hide BigNumber, AsNumber, Assembled16, Assembled32;
    Number2(bytes, n);
    Number2(bytes, n + 2);
    Join32(bytes[n], bytes[n + 1], bytes[n + 2], bytes[n + 3]);
  }

  lemma {:induction false} AssembledNumber(w: Width, bytes: seq<byte>)
    requires |bytes| == w.Size()
    ensures AsNumber(Assembled(w, bytes)) == BigNumber(bytes)
  {
    hide BigNumber, AsNumber, Assembled16, Assembled32, Assembled64;
    assert bytes[..|bytes|] == bytes;
    NoNumber(bytes[..0]);
    match w
    case W8 => OneNumber(bytes);
    case W16 => Number2(bytes, 0);
    case W32 => Number4(bytes, 0);
    case W64 =>
      Number4(bytes, 0);
      Number4(bytes, 4);
      Join64(bytes[0], bytes[1], bytes[2], bytes[3], bytes[4], bytes[5], bytes[6], bytes[7]);
  }

  lemma {:induction false} NoNumber(bytes: seq<byte>)
    requires bytes == []
    ensures BigNumber(bytes) == 0
  {
  }

  lemma {:induction false} OneNumber(bytes: seq<byte>)
    requires |bytes| == 1
    ensures BigNumber(bytes) == AsNumber(U8(bytes[0]))
  {
    hide Number8, AsNumber;
    NoNumber(bytes[..0]);
    OneByte(bytes[0]);
  }

  lemma {:induction false} OneByte(b: byte)
    ensures Number8(b) == AsNumber(U8(b))
  {
  }

  /** What is read is the integer of the number that the bytes make, the highest first or last. */
  lemma {:induction false} ReadNumber(w: Width, bytes: seq<byte>)
    requires |bytes| == w.Size()
    ensures AsNumber(Decode(BigEndian, w, bytes)) == BigNumber(bytes)
    ensures AsNumber(Decode(LittleEndian, w, bytes)) == BigNumber(Reverse(bytes))
  {
    hide Decode, Assembled, AsNumber, BigNumber;
    AssembledRight(w, bytes);
    AssembledRight(w, Reverse(bytes));
    ReversedTwice(bytes);
    AssembledNumber(w, bytes);
    AssembledNumber(w, Reverse(bytes));
  }

  /** ... and what is written are bytes that make the number of the integer. */
  lemma {:induction false} WrittenNumber(x: Integer)
    ensures BigNumber(Encode(BigEndian, x)) == AsNumber(x)
    ensures BigNumber(Reverse(Encode(LittleEndian, x))) == AsNumber(x)
  {
    hide Encode, Decode, AsNumber, BigNumber;
    IntegerRoundTrip(BigEndian, x);
    IntegerRoundTrip(LittleEndian, x);
    ReadNumber(x.Width(), Encode(BigEndian, x));
    ReadNumber(x.Width(), Encode(LittleEndian, x));
  }
}
