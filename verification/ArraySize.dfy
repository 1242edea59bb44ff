/** Sizes as 16-bit integers: what a cast of a size to `uint16_t` keeps, and the number that such an integer stands
    for. Both are defined bit by bit to keep the proofs quick; `ElementsNumber` and `ArraySizeNumber` prove that they
    are the number of the bit-vector, and the size modulo 65536. */
module ArraySizes {

  /** The `k` low bits of `n`, from the place of `w` on. */
  function Bits(n: nat, w: bv16, k: nat): bv16
    decreases k
  {
    if k == 0 then 0 else Or(Bit(n % 2 == 1, w), Bits(n / 2, Up(w), k - 1))
  }

  /** The number with the `k` bits of `x` from the place of `w` on. */
  function Value(x: bv16, w: bv16, k: nat): nat
    decreases k
  {
    if k == 0 then 0 else (if Has(x, w) then 1 else 0) + 2 * Value(x, Up(w), k - 1)
  }

  function Bit(b: bool, w: bv16): bv16 {
    if b then w else 0
  }

  function Or(x: bv16, y: bv16): bv16 {
    x | y
  }

  function Up(w: bv16): bv16 {
    w << 1
  }

  predicate Has(x: bv16, w: bv16) {
    x & w != 0
  }

  /** A size, cut to the 16 bits of `ArraySizeType`. */
  function ArraySize(n: nat): bv16 {
    Bits(n, 1, 16)
  }

  /** The number that `ArraySizeType` stands for. */
  function Elements(size: bv16): nat {
    Value(size, 1, 16)
  }

  function Power2(k: nat): (r: nat)
    ensures r > 0
  {
    if k == 0 then 1 else 2 * Power2(k - 1)
  }

  /** `w` is a single bit, or has been shifted out; `y` has bits below it only, and `x` none. */
  predicate Between(y: bv16, w: bv16, x: bv16) {
    w & (w - 1) == 0 && y & !(w - 1) == 0 && x & (w - 1) == 0
  }

  /** `k` shifts take `w` out. */
  ghost predicate Places(w: bv16, k: nat)
    decreases k
  {
    if k == 0 then w == 0 else w != 0 && Places(Up(w), k - 1)
  }

  lemma {:induction false} BitStep(y: bv16, w: bv16, b: bool, x: bv16)
    requires w != 0 && Between(y, w, 0) && Between(0, Up(w), x)
    ensures Between(Or(y, Bit(b, w)), Up(w), x)
    ensures Between(y, w, Or(Bit(b, w), x))
    ensures Has(Or(y, Or(Bit(b, w), x)), w) == b
    ensures Or(y, Or(Bit(b, w), x)) == Or(Or(y, Bit(b, w)), x)
  {
  }

  lemma {:induction false} UpBetween(y: bv16, w: bv16)
    requires Between(y, w, 0)
    ensures Between(0, Up(w), 0)
  {
  }

  lemma {:induction false} BitsPlace(n: nat, w: bv16, k: nat)
    requires Places(w, k) && Between(0, w, 0)
    ensures Between(0, w, Bits(n, w, k))
    decreases k
  {
    hide Between, Or, Bit, Up, Has;
    if k > 0 {
      UpBetween(0, w);
      BitsPlace(n / 2, Up(w), k - 1);
      BitStep(0, w, n % 2 == 1, Bits(n / 2, Up(w), k - 1));
    }
  }

  lemma {:induction false} BitsBack(n: nat, y: bv16, w: bv16, k: nat)
    requires Places(w, k) && Between(y, w, 0)
    ensures Value(Or(y, Bits(n, w, k)), w, k) == n % Power2(k)
    decreases k
  {
    hide Between, Or, Bit, Up, Has;
    if k > 0 {
      var x, b := Bits(n / 2, Up(w), k - 1), n % 2 == 1;
      UpBetween(y, w);
      BitsPlace(n / 2, Up(w), k - 1);
      BitStep(y, w, b, x);
      BitStep(y, w, b, 0);
      BitsBack(n / 2, Or(y, Bit(b, w)), Up(w), k - 1);
      Halved(n, Power2(k - 1));
    }
  }

  lemma {:induction false} Halved(n: nat, m: nat)
    requires m > 0
    ensures n % (2 * m) == n % 2 + 2 * (n / 2 % m)
  {
    var q, r := n / 2 / m, n / 2 % m;
    assert n == 2 * m * q + (n % 2 + 2 * r);
    Remainder(n, 2 * m, q, n % 2 + 2 * r);
  }

  lemma {:induction false} Multiple(m: nat, d: int)
    ensures d > 0 ==> m * d >= m
    ensures d < 0 ==> m * d + m <= 0
  {
    if d > 0 {
      assert m * (d - 1) >= 0;
    } else if d < 0 {
      assert m * (-d - 1) >= 0;
    }
  }

  lemma {:induction false} Remainder(n: nat, m: nat, q: nat, r: nat)
    requires n == m * q + r && r < m
    ensures n % m == r
  {
    assert m * (q - n / m) == m * q - m * (n / m);
    Multiple(m, q - n / m);
  }

  lemma {:induction false} SixteenPlaces()
    ensures Places(1, 16) && Power2(16) == 0x1_0000
  {
    assert Places(0x1000, 4);
    assert Places(0x100, 8);
    assert Places(0x10, 12);
    assert Power2(4) == 0x10;
    assert Power2(8) == 0x100;
    assert Power2(12) == 0x1000;
  }

  lemma {:induction false} ArraySizeBack(n: nat)
    ensures Elements(ArraySize(n)) == n % 0x1_0000
  {
    hide Bits, Value;
    SixteenPlaces();
    assert Or(0, ArraySize(n)) == ArraySize(n);
    BitsBack(n, 0, 1, 16);
  }

  /** The bits of `x` from the place of `w` on. */
  function From(x: bv16, w: bv16): bv16 {
    x & !(w - 1)
  }

  lemma {:induction false} FromStep(x: bv16, w: bv16)
    requires w != 0 && Between(0, w, 0)
    ensures Or(Bit(Has(x, w), w), From(x, Up(w))) == From(x, w)
  {
  }

  lemma {:induction false} ValueBack(x: bv16, w: bv16, k: nat)
    requires Places(w, k) && Between(0, w, 0)
    ensures Bits(Value(x, w, k), w, k) == From(x, w)
    ensures Value(x, w, k) < Power2(k)
    decreases k
  {
    if k == 0 {
      NoneFrom(x);
    } else {
      hide Between, Or, Bit, Up, Has, From;
      UpBetween(0, w);
      ValueBack(x, Up(w), k - 1);
      FromStep(x, w);
      assert Value(x, w, k) / 2 == Value(x, Up(w), k - 1) && (Value(x, w, k) % 2 == 1 <==> Has(x, w));
    }
  }

  lemma {:induction false} NoneFrom(x: bv16)
    ensures From(x, 0) == 0 && From(x, 1) == x
  {
  }

  /** The number that a 16-bit integer stands for fits, and goes back to the same integer. */
  lemma {:induction false} ElementsBack(size: bv16)
    ensures Elements(size) < 0x1_0000
    ensures ArraySize(Elements(size)) == size
  {
    hide Bits, Value;
    SixteenPlaces();
    ValueBack(size, 1, 16);
    NoneFrom(size);
  }

  // ----- the numbers

  function Four(a: bool, b: bool, c: bool, d: bool): nat {
    (if a then 1 else 0) + (if b then 2 else 0) + (if c then 4 else 0) + (if d then 8 else 0)
  }

  lemma {:induction false} NibbleNumber(x: bv4)
    ensures x as nat == Four(x & 1 != 0, x & 2 != 0, x & 4 != 0, x & 8 != 0)
  {
  }

  function Nibble0(x: bv16): bv4 {
    (x & 0xf) as bv4
  }

  function Nibble1(x: bv16): bv4 {
    ((x >> 4) & 0xf) as bv4
  }

  function Nibble2(x: bv16): bv4 {
    ((x >> 8) & 0xf) as bv4
  }

  function Nibble3(x: bv16): bv4 {
    (x >> 12) as bv4
  }

  function High(x: bv16): bv8 {
    (x >> 8) as bv8
  }

  function Low(x: bv16): bv8 {
    (x & 0xff) as bv8
  }

  function High4(x: bv8): bv4 {
    (x >> 4) as bv4
  }

  function Low4(x: bv8): bv4 {
    (x & 0xf) as bv4
  }

  lemma {:induction false} Halves16(x: bv16)
    ensures x as nat == High(x) as nat * 0x100 + Low(x) as nat
  {
    Cut16(x);
  }

  lemma {:induction false} Cut16(x: bv16)
    ensures x as nat == (x >> 8) as bv8 as nat * 0x100 + (x & 0xff) as bv8 as nat
  {
  }

  lemma {:induction false} Halves8(x: bv8)
    ensures x as nat == High4(x) as nat * 0x10 + Low4(x) as nat
  {
  }

  lemma {:induction false} Nibbles(x: bv16)
    ensures Nibble0(x) == Low4(Low(x)) && Nibble1(x) == High4(Low(x))
    ensures Nibble2(x) == Low4(High(x)) && Nibble3(x) == High4(High(x))
  {
  }

  lemma {:induction false} FourNibbles(x: bv16)
    ensures x as nat ==
            Nibble0(x) as nat + 0x10 * Nibble1(x) as nat + 0x100 * Nibble2(x) as nat + 0x1000 * Nibble3(x) as nat
  {
    hide High, Low, High4, Low4, Nibble0, Nibble1, Nibble2, Nibble3;
    Nibbles(x);
    Halves16(x);
    Halves8(High(x));
    Halves8(Low(x));
  }

  ghost function FourFrom(x: bv16, w: bv16): nat {
    Four(Has(x, w), Has(x, Up(w)), Has(x, Up(Up(w))), Has(x, Up(Up(Up(w)))))
  }

  lemma {:induction false} ValueFour(x: bv16, w: bv16, k: nat)
    ensures Value(x, w, k + 4) == FourFrom(x, w) + 0x10 * Value(x, Up(Up(Up(Up(w)))), k)
  {
    hide Up, Has;
    var u, v := Up(w), Up(Up(w));
    assert Value(x, w, k + 4) == (if Has(x, w) then 1 else 0) + 2 * Value(x, u, k + 3);
    assert Value(x, u, k + 3) == (if Has(x, u) then 1 else 0) + 2 * Value(x, v, k + 2);
    assert Value(x, v, k + 2) == (if Has(x, v) then 1 else 0) + 2 * Value(x, Up(v), k + 1);
  }

  lemma {:induction false} NibbleBits(x: bv16)
    ensures FourFrom(x, 0x1) == Nibble0(x) as nat
    ensures FourFrom(x, 0x10) == Nibble1(x) as nat
    ensures FourFrom(x, 0x100) == Nibble2(x) as nat
    ensures FourFrom(x, 0x1000) == Nibble3(x) as nat
  {
    NibbleNumber(Nibble0(x));
    NibbleNumber(Nibble1(x));
    NibbleNumber(Nibble2(x));
    NibbleNumber(Nibble3(x));
  }

  /** `Elements` is the number of the bit-vector. */
  lemma {:induction false} ElementsNumber(x: bv16)
    ensures Elements(x) == x as nat
  {
    hide Value, Has;
    FourNibbles(x);
    NibbleBits(x);
    ValueFour(x, 0x1, 12);
    ValueFour(x, 0x10, 8);
    ValueFour(x, 0x100, 4);
    ValueFour(x, 0x1000, 0);
    ValueNone(x, Up(Up(Up(Up(0x1000)))));
  }

  lemma {:induction false} ValueNone(x: bv16, w: bv16)
    ensures Value(x, w, 0) == 0
  {
  }

  /** `ArraySize` is the 16-bit integer of the size modulo 65536. */
  lemma {:induction false} ArraySizeNumber(n: nat)
    ensures ArraySize(n) as nat == n % 0x1_0000
  {
    hide ArraySize, Elements;
    ElementsNumber(ArraySize(n));
    ArraySizeBack(n);
  }
}
