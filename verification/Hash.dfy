/** The hash of byte arrays in Base/HashTable.hpp: djb2, on integers of 64 bits. */
module Hashes {
  import opened SizeTypes

  type Byte = b: nat | b < 0x100

  function Power(n: nat): nat {
    if n == 0 then 1 else 33 * Power(n - 1)
  }

  /** Every byte, weighted by a power of 33 for the bytes behind it. */
  function Sum(s: seq<Byte>): nat {
    if s == [] then 0 else s[0] * Power(|s| - 1) + Sum(s[1..])
  }

  /** What hashing `s` makes of a hash so far. */
  function Resume(hash: nat, s: seq<Byte>): (r: nat)
    ensures r < SIZE_RANGE
  {
    (hash * Power(|s|) + Sum(s)) % SIZE_RANGE
  }

  function HashOf(s: seq<Byte>): nat {
    Resume(5381, s)
  }

  /** What the powers and the weighted sum are, from the last byte on. */
  lemma {:induction false} SumSteps(s: seq<Byte>, element: Byte)
    ensures Power(0) == 1 && Power(|s| + 1) == 33 * Power(|s|)
    ensures Sum([]) == 0 && Sum(s + [element]) == 33 * Sum(s) + element
  {
    SumJoined(s, [element]);
    assert Power(1) == 33 && Sum([element]) == element;
  }

  lemma {:induction false} PowersMultiply(m: nat, n: nat)
    ensures Power(m + n) == Power(m) * Power(n)
  {
    if m > 0 {
      PowersMultiply(m - 1, n);
    }
  }

  lemma {:induction false} Distributes(a: nat, b: nat, c: nat, d: nat)
    ensures (a * b + c) * d == a * (b * d) + c * d
  {
  }

  lemma {:induction false} SumJoined(s: seq<Byte>, t: seq<Byte>)
    ensures Sum(s + t) == Sum(s) * Power(|t|) + Sum(t)
  {
    if s == [] {
      assert s + t == t;
    } else {
      SumJoined(s[1..], t);
      PowersMultiply(|s| - 1, |t|);
      Distributes(s[0], Power(|s| - 1), Sum(s[1..]), Power(|t|));
      assert (s + t)[1..] == s[1..] + t && (s + t)[0] == s[0];
    }
  }

  lemma {:induction false} ModStep(a: nat, k: nat, b: nat)
    ensures (a % SIZE_RANGE * k + b) % SIZE_RANGE == (a * k + b) % SIZE_RANGE
  {
    var q := a / SIZE_RANGE;
    assert a * k == a % SIZE_RANGE * k + SIZE_RANGE * (q * k);
    Multiple(a % SIZE_RANGE * k + b, q * k);
  }

  lemma {:induction false} Multiple(a: nat, q: nat)
    ensures (a + SIZE_RANGE * q) % SIZE_RANGE == a % SIZE_RANGE
  {
  }

  /** The hash of a concatenation is determined by the hash of the first part, and the second part. */
  lemma {:induction false} HashJoined(hash: nat, s: seq<Byte>, t: seq<Byte>)
    ensures Resume(hash, s + t) == Resume(Resume(hash, s), t)
  {
    hide Power, Sum;
    var h := hash * Power(|s|) + Sum(s);
    SumJoined(s, t);
    PowersMultiply(|s|, |t|);
    ModStep(h, Power(|t|), Sum(t));
    Distributes(hash, Power(|s|), Sum(s), Power(|t|));
  }

  /** The hash of no bytes, and of one byte more: this determines all hashes. */
  lemma {:induction false} HashSteps(s: seq<Byte>, element: Byte)
    ensures HashOf([]) == 5381
    ensures HashOf(s + [element]) == (HashOf(s) * 33 + element) % 0x1_0000_0000_0000_0000
  {
    hide Resume;
    NothingMore(5381);
    HashJoined(5381, s, [element]);
    OneFactor(HashOf(s), element);
  }

  /** The inverse of 33 modulo 2^64. */
  const INVERSE: nat := 0xf83e0f83e0f83e1

  lemma {:induction false} NoMultipleBetween(d: int, m: int)
    requires d == SIZE_RANGE * m && d < SIZE_RANGE && -d < SIZE_RANGE
    ensures d == 0
  {
  }

  /** One byte of the loop loses nothing of the hash so far. */
  lemma {:induction false} StepInjective(g: nat, h: nat, element: nat)
    requires g < SIZE_RANGE && h < SIZE_RANGE
    requires (g * 33 + element) % SIZE_RANGE == (h * 33 + element) % SIZE_RANGE
    ensures g == h
  {
    var d, k := g - h, (g * 33 + element) / SIZE_RANGE - (h * 33 + element) / SIZE_RANGE;
    assert 33 * d == SIZE_RANGE * k;
    assert INVERSE * 33 == 1 + SIZE_RANGE * 2;
    assert INVERSE * (33 * d) == d + SIZE_RANGE * (2 * d);
    assert d == SIZE_RANGE * (INVERSE * k - 2 * d);
    NoMultipleBetween(d, INVERSE * k - 2 * d);
  }

  lemma {:induction false} ResumeInjective(g: nat, h: nat, s: seq<Byte>)
    requires g < SIZE_RANGE && h < SIZE_RANGE && Resume(g, s) == Resume(h, s)
    ensures g == h
    decreases |s|
  {
    hide Resume;
    if s == [] {
      NothingMore(g);
      NothingMore(h);
    } else {
      var first := [s[0]];
      assert s == first + s[1..];
      HashJoined(g, first, s[1..]);
      HashJoined(h, first, s[1..]);
      ResumeInjective(Resume(g, first), Resume(h, first), s[1..]);
      OneFactor(g, s[0]);
      OneFactor(h, s[0]);
      StepInjective(g, h, s[0]);
    }
  }

  lemma {:induction false} NothingMore(hash: nat)
    requires hash < SIZE_RANGE
    ensures Resume(hash, []) == hash
  {
  }

  lemma {:induction false} OneFactor(hash: nat, element: Byte)
    ensures Resume(hash, [element]) == (hash * 33 + element) % SIZE_RANGE
  {
    assert Power(1) == 33 && Sum([element]) == element;
  }

  /** With the same bytes appended, arrays collide if and only if they collided before. */
  lemma {:induction false} CollisionsExtend(s: seq<Byte>, t: seq<Byte>, more: seq<Byte>)
    ensures HashOf(s + more) == HashOf(t + more) <==> HashOf(s) == HashOf(t)
  {
    HashJoined(5381, s, more);
    HashJoined(5381, t, more);
    if HashOf(s + more) == HashOf(t + more) {
      ResumeInjective(HashOf(s), HashOf(t), more);
    }
  }

  /** `hash << 5` in 64 bits. */
  function ShiftLeft5(hash: nat): nat {
    hash * 32 % SIZE_RANGE
  }

  lemma {:induction false} OneByte(hash: nat, element: Byte)
    requires hash < SIZE_RANGE
    ensures Resume(hash, [element]) == ((ShiftLeft5(hash) + hash) % SIZE_RANGE + element) % SIZE_RANGE
  {
    OneFactor(hash, element);
    ModStep(hash * 32, 1, hash);
    ModStep(hash * 32 + hash, 1, element);
  }

  /** The loop of the source: 5381 * 33^n, and every byte times the power of 33 for its place, modulo 2^64. */
  method Djb2(data: array<Byte>) returns (hash: nat)
    ensures hash == HashOf(data[..]) < SIZE_RANGE
    ensures hash == (5381 * Power(data.Length) + Sum(data[..])) % 0x1_0000_0000_0000_0000
  {
    hash := 5381;
    for i := 0 to data.Length
      invariant hash < SIZE_RANGE && hash == HashOf(data[..i])
    {
      OneByte(hash, data[i]);
      HashJoined(5381, data[..i], [data[i]]);
      assert data[..i + 1] == data[..i] + [data[i]];
      hash := ((ShiftLeft5(hash) + hash) % SIZE_RANGE + data[i]) % SIZE_RANGE;
    }
    assert data[..data.Length] == data[..];
  }
}
