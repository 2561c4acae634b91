/** Bit strings, least significant bit first, and their packing into bytes. */
module Bits {

  type Byte = x: int | 0 <= x < 256

  function Abs(x: int): nat { if x < 0 then -x else x }

  function Pow2(n: nat): (r: nat)
    ensures r > 0
  {
    if n == 0 then 1 else 2 * Pow2(n - 1)
  }

  lemma {:induction false} Pow2Add(a: nat, b: nat)
    ensures Pow2(a + b) == Pow2(a) * Pow2(b)
  {
    if a > 0 {
      Pow2Add(a - 1, b);
      assert Pow2(a + b) == 2 * Pow2(a - 1 + b);
    }
  }

  lemma {:induction false} Pow2Mono(a: nat, b: nat)
    requires a <= b
    ensures Pow2(a) <= Pow2(b)
    decreases b
  {
    if a < b {
      Pow2Mono(a, b - 1);
    }
  }

  lemma Pow2Values()
    ensures Pow2(8) == 256 && Pow2(9) == 512 && Pow2(10) == 1024 && Pow2(11) == 2048 && Pow2(12) == 4096
  {
    assert Pow2(4) == 16;
    assert Pow2(8) == 256;
    assert Pow2(12) == 4096;
  }

  /** The number a bit string denotes. */
  function Val(b: seq<bool>): (r: nat)
  {
    if b == [] then 0 else (if b[0] then 1 else 0) + 2 * Val(b[1..])
  }

  function ToBits(v: nat, n: nat): (b: seq<bool>)
    ensures |b| == n
  {
    if n == 0 then [] else [v % 2 == 1] + ToBits(v / 2, n - 1)
  }

  /** Bit k of a number is its binary digit of weight 2^k. */
  lemma {:induction false} ToBitsAt(v: nat, n: nat, k: nat)
    requires k < n
    ensures ToBits(v, n)[k] <==> v / Pow2(k) % 2 == 1
  {
    if k > 0 {
      ToBitsAt(v / 2, n - 1, k - 1);
      HalfThen(v, Pow2(k - 1));
    }
  }

  lemma HalfThen(v: nat, h: nat)
    requires h > 0
    ensures v / 2 / h == v / (2 * h)
  {
    var q, r := v / (2 * h), v % (2 * h);
    assert v == 2 * h * q + r;
    assert v / 2 == h * q + r / 2 by { assert 2 * h * q == 2 * (h * q); }
    DivModUnique(v / 2, h, q, r / 2);
  }

  lemma {:induction false} ValBound(b: seq<bool>)
    ensures Val(b) < Pow2(|b|)
  {
    if b != [] {
      ValBound(b[1..]);
    }
  }

  lemma {:induction false} ValToBits(v: nat, n: nat)
    requires v < Pow2(n)
    ensures Val(ToBits(v, n)) == v
  {
    if n > 0 {
      ValToBits(v / 2, n - 1);
      assert ToBits(v, n)[1..] == ToBits(v / 2, n - 1);
    }
  }

  /** Writing a bit string's number back in at least as many bits starts with the bit string. */
  lemma {:induction false} ToBitsVal(b: seq<bool>, n: nat)
    requires |b| <= n
    ensures ToBits(Val(b), n)[..|b|] == b
  {
    if b != [] {
      ToBitsVal(b[1..], n - 1);
      assert b == [b[0]] + b[1..];
    }
  }

  lemma {:induction false} ValConcat(a: seq<bool>, b: seq<bool>)
    ensures Val(a + b) == Val(a) + Pow2(|a|) * Val(b)
  {
    if a == [] {
      assert a + b == b;
    } else {
      ValConcat(a[1..], b);
      assert (a + b)[1..] == a[1..] + b;
      assert 2 * (Pow2(|a[1..]|) * Val(b)) == Pow2(|a|) * Val(b);
    }
  }

  /** Masking keeps the low bits of a buffer, shifting drops them. */
  lemma {:induction false} ValSplit(b: seq<bool>, n: nat)
    requires n <= |b|
    ensures Val(b) % Pow2(n) == Val(b[..n])
    ensures Val(b) / Pow2(n) == Val(b[n..])
  {
    ValConcat(b[..n], b[n..]);
    ValBound(b[..n]);
    assert b == b[..n] + b[n..];
    DivModUnique(Val(b), Pow2(n), Val(b[n..]), Val(b[..n]));
  }

  lemma MulStrict(d: nat, a: nat, b: nat)
    ensures a < b ==> d * a + d <= d * b
  {
    if a < b {
      var k := b - a - 1;
      assert d * b == d * a + d * k + d;
      assert d * k >= 0;
    }
  }

  lemma DivModUnique(x: nat, d: nat, q: nat, r: nat)
    requires d > 0 && r < d && x == r + d * q
    ensures x / d == q && x % d == r
  {
    MulStrict(d, q, x / d);
    MulStrict(d, x / d, q);
    assert x == x % d + d * (x / d);
  }

  function BytesToBits(bytes: seq<Byte>): (b: seq<bool>)
    ensures |b| == 8 * |bytes|
  {
    if bytes == [] then [] else ToBits(bytes[0], 8) + BytesToBits(bytes[1..])
  }

  /** The eight bits of byte k. */
  lemma {:induction false} BytesToBitsAt(bytes: seq<Byte>, k: nat)
    requires k < |bytes|
    ensures BytesToBits(bytes)[8 * k..8 * k + 8] == ToBits(bytes[k], 8)
  {
    if k > 0 {
      BytesToBitsAt(bytes[1..], k - 1);
      assert BytesToBits(bytes)[8 * k..8 * k + 8] == BytesToBits(bytes[1..])[8 * (k - 1)..8 * (k - 1) + 8];
    }
  }

  /** Packs bits into bytes, filling the last byte with zeros. */
  function PackBytes(bits: seq<bool>): (bytes: seq<Byte>)
    ensures |bytes| == (|bits| + 7) / 8
  {
    if bits == [] then []
    else if |bits| < 8 then
      ValBound(bits); Pow2Mono(|bits|, 8); Pow2Values();
      [Val(bits)]
    else
      ValBound(bits[..8]); Pow2Values();
      [Val(bits[..8])] + PackBytes(bits[8..])
  }

  /** Unpacking packed bits gives them back, followed by less than a byte of padding. */
  lemma {:induction false} PackRoundTrip(bits: seq<bool>)
    ensures |bits| <= |BytesToBits(PackBytes(bits))| < |bits| + 8
    ensures BytesToBits(PackBytes(bits))[..|bits|] == bits
  {
    var bytes := PackBytes(bits);
    if bits == [] {
    } else if |bits| < 8 {
      ToBitsVal(bits, 8);
      assert BytesToBits(bytes)[..8] == ToBits(bytes[0], 8);
    } else {
      PackRoundTrip(bits[8..]);
      ToBitsVal(bits[..8], 8);
      assert bytes[1..] == PackBytes(bits[8..]);
      assert bits == bits[..8] + bits[8..];
      assert BytesToBits(bytes) == bits[..8] + BytesToBits(bytes[1..]);
    }
  }
}
