/** The CRC-32 of PNG (section 3.4 of RFC 2083): bit by bit, and by table. */
module Crc {

  const POLY: bv32 := 0xEDB8_8320

  // Names for the register operations, so that proofs need not look into the bits.

  function Xor(a: bv32, b: bv32): bv32 { a ^ b }

  function Half(c: bv32): bv32 { c >> 1 }

  function Drop(c: bv32): bv32 { c >> 8 }

  function Low(c: bv32): bv32 { c & 0xFF }

  function High(c: bv32): bv32 { c & 0xFFFF_FF00 }

  predicate Odd(c: bv32) { c & 1 == 1 }

  /** Shifts one bit out of the register, and divides by the polynomial when it was set. */
  function Step(c: bv32): bv32 { if Odd(c) then Xor(POLY, Half(c)) else Half(c) }

  function Steps(c: bv32, n: nat): bv32
    decreases n
  {
    if n == 0 then c else Steps(Step(c), n - 1)
  }

  lemma HalfXor(a: bv32, b: bv32)
    ensures Half(Xor(a, b)) == Xor(Half(a), Half(b))
  {
  }

  lemma OddXor(a: bv32, b: bv32)
    ensures Odd(Xor(a, b)) <==> (Odd(a) != Odd(b))
  {
  }

  lemma XorAssoc(p: bv32, x: bv32, y: bv32)
    ensures Xor(p, Xor(x, y)) == Xor(Xor(p, x), y)
  {
  }

  lemma XorComm(x: bv32, y: bv32)
    ensures Xor(x, y) == Xor(y, x)
  {
  }

  lemma XorSelf(p: bv32, x: bv32)
    ensures Xor(p, Xor(p, x)) == x
  {
  }

  lemma XorLaws(p: bv32, x: bv32, y: bv32)
    ensures Xor(p, Xor(x, y)) == Xor(Xor(p, x), y)
    ensures Xor(p, Xor(x, y)) == Xor(x, Xor(p, y))
    ensures Xor(Xor(p, x), Xor(p, y)) == Xor(x, y)
  {
    hide Xor;
    XorAssoc(p, x, y);
    XorAssoc(x, p, y);
    XorComm(p, x);
    XorAssoc(x, p, Xor(p, y));
    XorSelf(p, y);
  }

  /** Division steps are linear over exclusive or. */
  lemma StepLinear(a: bv32, b: bv32)
    ensures Step(Xor(a, b)) == Xor(Step(a), Step(b))
  {
    HalfXor(a, b);
    OddXor(a, b);
    XorLaws(POLY, Half(a), Half(b));
    hide Xor, Half, Odd;
  }

  lemma {:induction false} StepsLinear(a: bv32, b: bv32, n: nat)
    ensures Steps(Xor(a, b), n) == Xor(Steps(a, n), Steps(b, n))
    decreases n
  {
    hide Xor, Step;
    if n > 0 {
      StepLinear(a, b);
      StepsLinear(Step(a), Step(b), n - 1);
    }
  }

  lemma {:induction false} StepsAdd(c: bv32, m: nat, n: nat)
    ensures Steps(c, m + n) == Steps(Steps(c, m), n)
    decreases m
  {
    if m > 0 {
      StepsAdd(Step(c), m - 1, n);
    }
  }

  function Halves(c: bv32, n: nat): bv32
    decreases n
  {
    if n == 0 then c else Halves(Half(c), n - 1)
  }

  /** The n lowest bits are clear. */
  predicate Clear(c: bv32, n: nat)
    decreases n
  {
    n == 0 || (!Odd(c) && Clear(Half(c), n - 1))
  }

  lemma {:induction false} ClearSlides(c: bv32, n: nat)
    requires Clear(c, n)
    ensures Steps(c, n) == Halves(c, n)
    decreases n
  {
    hide Odd, Half, Xor;
    if n > 0 {
      ClearSlides(Half(c), n - 1);
    }
  }

  function Mask(n: nat): bv32
    requires n <= 8
  {
    if n == 0 then 0 else if n == 1 then 1 else if n == 2 then 3 else if n == 3 then 7 else if n == 4 then 15
    else if n == 5 then 31 else if n == 6 then 63 else if n == 7 then 127 else 255
  }

  predicate Masked(c: bv32, m: bv32) { c & m == 0 }

  lemma MaskStep(c: bv32, m: bv32)
    requires Masked(c, m) && m & 1 == 1
    ensures !Odd(c) && Masked(Half(c), Half(m))
  {
  }

  lemma {:induction false} MaskClear(c: bv32, n: nat)
    requires n <= 8 && Masked(c, Mask(n))
    ensures Clear(c, n)
    decreases n
  {
    if n > 0 {
      assert Mask(n) & 1 == 1 && Half(Mask(n)) == Mask(n - 1);
      hide Odd, Half, Masked, Mask;
      MaskStep(c, Mask(n));
      MaskClear(Half(c), n - 1);
    }
  }

  lemma Half4(c: bv32)
    ensures Half(Half(Half(Half(c)))) == c >> 4
  {
  }

  lemma Shift4Twice(c: bv32)
    ensures (c >> 4) >> 4 == Drop(c)
  {
  }

  lemma HighSlides(x: bv32)
    ensures Halves(High(x), 8) == Drop(High(x))
  {
    var c := High(x);
    Half4(c);
    Half4(c >> 4);
    Shift4Twice(c);
    hide Half, High, Drop;
    assert Halves(c, 8) == Halves(c >> 4, 4);
  }

  lemma HighParts(x: bv32)
    ensures Masked(High(x), Mask(8))
    ensures Drop(High(x)) == Drop(x)
  {
  }

  lemma HighClear(x: bv32)
    ensures Clear(High(x), 8)
    ensures Halves(High(x), 8) == Drop(x)
  {
    hide Odd, Half, Drop, High, Masked, Mask, Clear, Halves;
    HighParts(x);
    HighSlides(x);
    MaskClear(High(x), 8);
  }

  lemma SplitByte(x: bv32)
    ensures x == Xor(Low(x), High(x))
  {
  }

  /** The step of the table: look the low byte up, and slide the rest down. */
  lemma TableStep(x: bv32)
    ensures Steps(x, 8) == Xor(Steps(Low(x), 8), Drop(x))
  {
    hide Step, Steps, Xor, Low, High, Drop, Halves, Clear;
    SplitByte(x);
    StepsLinear(Low(x), High(x), 8);
    HighClear(x);
    ClearSlides(High(x), 8);
  }

  // ---- Messages ------------------------------------------------------------------------------

  function Wide(b: bv8): bv32 { b as bv32 }

  function Not(c: bv32): bv32 { c ^ 0xFFFF_FFFF }

  /** Divides one more byte, bit by bit. */
  function Feed(c: bv32, b: bv8): bv32 { Steps(Xor(c, Wide(b)), 8) }

  function FeedAll(c: bv32, data: seq<bv8>): bv32
    decreases |data|
  {
    if data == [] then c else FeedAll(Feed(c, data[0]), data[1..])
  }

  /** The CRC of a message, by its definition. */
  function Crc(data: seq<bv8>): bv32 { Not(FeedAll(0xFFFF_FFFF, data)) }

  /** Continues a finished CRC over more data. */
  function Continued(crc: bv32, data: seq<bv8>): bv32 { Not(FeedAll(Not(crc), data)) }

  lemma {:induction false} FeedAllConcat(c: bv32, a: seq<bv8>, b: seq<bv8>)
    ensures FeedAll(c, a + b) == FeedAll(FeedAll(c, a), b)
    decreases |a|
  {
    hide Feed;
    if a == [] {
      assert a + b == b;
    } else {
      assert (a + b)[1..] == a[1..] + b;
      FeedAllConcat(Feed(c, a[0]), a[1..], b);
    }
  }

  lemma NotTwice(c: bv32)
    ensures Not(Not(c)) == c && Not(0) == 0xFFFF_FFFF
  {
  }

  /** Continuing the CRC of a message with more data gives the CRC of the whole. */
  lemma Chaining(a: seq<bv8>, b: seq<bv8>)
    ensures Continued(Crc(a), b) == Crc(a + b)
    ensures Continued(0, a) == Crc(a)
  {
    hide Not, FeedAll;
    NotTwice(FeedAll(0xFFFF_FFFF, a));
    FeedAllConcat(0xFFFF_FFFF, a, b);
  }

  // ---- What the CRC detects --------------------------------------------------------------------

  lemma StepZero(c: bv32)
    ensures Step(c) == 0 ==> c == 0
    ensures Step(0) == 0
  {
  }

  lemma XorZero(a: bv32, b: bv32)
    ensures Xor(a, b) == 0 <==> a == b
  {
  }

  lemma {:induction false} StepsInjective(a: bv32, b: bv32, n: nat)
    requires Steps(a, n) == Steps(b, n)
    ensures a == b
    decreases n
  {
    if n > 0 {
      hide Step, Xor;
      StepsInjective(Step(a), Step(b), n - 1);
      StepLinear(a, b);
      XorZero(Step(a), Step(b));
      StepZero(Xor(a, b));
      XorZero(a, b);
    }
  }

  lemma XorCancels(a: bv32, b: bv32, w: bv32)
    ensures Xor(a, w) == Xor(b, w) ==> a == b
    ensures Xor(w, a) == Xor(w, b) ==> a == b
  {
  }

  /** Different registers stay different under the same data. */
  lemma {:induction false} FeedAllInjective(a: bv32, b: bv32, data: seq<bv8>)
    requires FeedAll(a, data) == FeedAll(b, data)
    ensures a == b
    decreases |data|
  {
    if data != [] {
      hide Xor, Steps, Wide;
      FeedAllInjective(Feed(a, data[0]), Feed(b, data[0]), data[1..]);
      StepsInjective(Xor(a, Wide(data[0])), Xor(b, Wide(data[0])), 8);
      XorCancels(a, b, Wide(data[0]));
    }
  }

  function Bit(b: bool): bv32 { if b then 1 else 0 }

  function Double(w: bv32): bv32 { w << 1 }

  /** Divides bit by bit. */
  function FeedBits(c: bv32, bits: seq<bool>): bv32
    decreases |bits|
  {
    if bits == [] then c else FeedBits(Step(Xor(c, Bit(bits[0]))), bits[1..])
  }

  /** Up to 32 bits as one word, the first the least significant. */
  function Word(bits: seq<bool>): bv32
    decreases |bits|
  {
    if bits == [] then 0 else Xor(Bit(bits[0]), Double(Word(bits[1..])))
  }

  /** The n lowest bits. */
  function Ones(n: nat): bv32 { if n == 0 then 0 else More(Ones(n - 1)) }

  function More(m: bv32): bv32 { (m << 1) | 1 }

  predicate Under(w: bv32, m: bv32) { w & !m == 0 }

  /** The highest bit is clear. */
  predicate Free(w: bv32) { w & 0x8000_0000 == 0 }

  lemma UnderStep(b: bool, w: bv32, m: bv32)
    requires Under(w, m)
    ensures Under(Xor(Bit(b), Double(w)), More(m))
  {
    if b {
      assert Under(1 ^ (w << 1), More(m));
    } else {
      assert Under(0 ^ (w << 1), More(m));
    }
  }

  lemma UnderOnes(w: bv32, m: bv32)
    requires Under(w, m)
    ensures Under(More(w), More(m))
  {
  }

  lemma UnderTrans(u: bv32, v: bv32, w: bv32)
    requires Under(u, v) && Under(v, w)
    ensures Under(u, w)
  {
  }

  lemma {:induction false} WordUnder(bits: seq<bool>)
    ensures Under(Word(bits), Ones(|bits|))
    decreases |bits|
  {
    hide Under, Xor, Double, Ones, Bit;
    if bits == [] {
      NothingUnder(Ones(0));
    } else {
      WordUnder(bits[1..]);
      UnderMore(bits[0], Word(bits[1..]), |bits| - 1);
    }
  }

  lemma UnderMore(b: bool, w: bv32, n: nat)
    requires Under(w, Ones(n))
    ensures Under(Xor(Bit(b), Double(w)), Ones(n + 1))
  {
    hide Under, Xor, Double, Bit, More;
    UnderStep(b, w, Ones(n));
  }

  lemma OnesStep(n: nat)
    ensures Ones(n) == if n == 0 then 0 else More(Ones(n - 1))
  {
  }

  lemma NothingUnder(m: bv32)
    ensures Under(0, m)
  {
  }

  lemma {:induction false} OnesUnder(n: nat, m: nat)
    requires n <= m
    ensures Under(Ones(n), Ones(m))
  {
    hide Under, Ones, More;
    OnesStep(n);
    OnesStep(m);
    if n == 0 {
      NothingUnder(Ones(m));
    } else {
      OnesUnder(n - 1, m - 1);
      UnderOnes(Ones(n - 1), Ones(m - 1));
    }
  }

  lemma OnesAre()
    ensures Ones(31) == 0x7FFF_FFFF
  {
    assert Ones(4) == 0xF;
    assert Ones(8) == 0xFF;
    assert Ones(12) == 0xFFF;
    assert Ones(16) == 0xFFFF;
    assert Ones(20) == 0xF_FFFF;
    assert Ones(24) == 0xFF_FFFF;
    assert Ones(28) == 0xFFF_FFFF;
  }

  lemma WordFree(bits: seq<bool>)
    requires |bits| <= 31
    ensures Free(Word(bits))
  {
    hide Word, Ones, Under;
    WordUnder(bits);
    OnesUnder(|bits|, 31);
    UnderTrans(Word(bits), Ones(|bits|), Ones(31));
    OnesAre();
    UnderFree(Word(bits));
  }

  lemma UnderFree(w: bv32)
    requires Under(w, 0x7FFF_FFFF)
    ensures Free(w)
  {
  }

  lemma StepDouble(w: bv32)
    requires Free(w)
    ensures Step(Double(w)) == w
  {
  }

  lemma XorNone(c: bv32)
    ensures Xor(c, 0) == c && Xor(0, c) == c
  {
  }

  /** Feeding up to 32 bits is dividing their word. */
  lemma {:induction false} FeedIsWord(c: bv32, bits: seq<bool>)
    requires |bits| <= 32
    ensures FeedBits(c, bits) == Steps(Xor(c, Word(bits)), |bits|)
    decreases |bits|
  {
    hide Xor, Step, Double, Bit, Free;
    if bits == [] {
      XorNone(c);
    } else {
      var x, w := Xor(c, Bit(bits[0])), Word(bits[1..]);
      FeedIsWord(Step(x), bits[1..]);
      WordFree(bits[1..]);
      StepDouble(w);
      XorAssoc(c, Bit(bits[0]), Double(w));
      StepLinear(x, Double(w));
    }
  }

  lemma WordEnds(a: bool, b: bool, v: bv32, w: bv32)
    requires Free(v) && Free(w) && Xor(Bit(a), Double(v)) == Xor(Bit(b), Double(w))
    ensures a == b && v == w
  {
  }

  lemma {:induction false} WordInjective(x: seq<bool>, y: seq<bool>)
    requires |x| == |y| <= 32 && Word(x) == Word(y)
    ensures x == y
    decreases |x|
  {
    hide Xor, Double, Bit, Free;
    if x != [] {
      WordFree(x[1..]);
      WordFree(y[1..]);
      WordEnds(x[0], y[0], Word(x[1..]), Word(y[1..]));
      WordInjective(x[1..], y[1..]);
      assert x == [x[0]] + x[1..] && y == [y[0]] + y[1..];
    }
  }

  // ---- The bits of a message -------------------------------------------------------------------

  predicate Has(b: bv8, m: bv8) { b & m == m }

  function Nibble(a: bool, b: bool, c: bool, d: bool, rest: seq<bool>): (s: seq<bool>)
    ensures |s| == 4 + |rest|
  {
    [a] + ([b] + ([c] + ([d] + rest)))
  }

  /** The bits of a byte in the order they are divided. */
  function ByteBits(b: bv8): (s: seq<bool>)
    ensures |s| == 8
  {
    Nibble(Has(b, 1), Has(b, 2), Has(b, 4), Has(b, 8), Nibble(Has(b, 16), Has(b, 32), Has(b, 64), Has(b, 128), []))
  }

  function BitsOf(data: seq<bv8>): (s: seq<bool>)
    ensures |s| == 8 * |data|
  {
    if data == [] then [] else ByteBits(data[0]) + BitsOf(data[1..])
  }

  lemma WordCons(b: bool, bits: seq<bool>)
    ensures Word([b] + bits) == Xor(Bit(b), Double(Word(bits)))
  {
    assert ([b] + bits)[1..] == bits;
  }

  lemma WordNone()
    ensures Word([]) == 0
  {
  }

  lemma ByteWord(b: bv8)
    ensures Word(ByteBits(b)) == Wide(b)
  {
    hide Word, Four, Has, Wide, Nibble;
    WordNone();
    NibbleWord(Has(b, 16), Has(b, 32), Has(b, 64), Has(b, 128), []);
    NibbleWord(Has(b, 1), Has(b, 2), Has(b, 4), Has(b, 8), Nibble(Has(b, 16), Has(b, 32), Has(b, 64), Has(b, 128), []));
    ByteIsNibbles(b);
  }

  function Four(a: bool, b: bool, c: bool, d: bool, w: bv32): bv32 {
    Xor(Bit(a), Double(Xor(Bit(b), Double(Xor(Bit(c), Double(Xor(Bit(d), Double(w))))))))
  }

  lemma NibbleWord(a: bool, b: bool, c: bool, d: bool, rest: seq<bool>)
    ensures Word(Nibble(a, b, c, d, rest)) == Four(a, b, c, d, Word(rest))
  {
    hide Xor, Double, Bit, Word;
    WordCons(d, rest);
    WordCons(c, [d] + rest);
    WordCons(b, [c] + ([d] + rest));
    WordCons(a, [b] + ([c] + ([d] + rest)));
  }

  lemma ByteIsNibbles(b: bv8)
    ensures Four(Has(b, 1), Has(b, 2), Has(b, 4), Has(b, 8), Four(Has(b, 16), Has(b, 32), Has(b, 64), Has(b, 128), 0))
         == Wide(b)
  {
  }

  lemma {:induction false} FeedBitsConcat(c: bv32, a: seq<bool>, b: seq<bool>)
    ensures FeedBits(c, a + b) == FeedBits(FeedBits(c, a), b)
    decreases |a|
  {
    hide Step, Xor;
    if a == [] {
      assert a + b == b;
    } else {
      assert (a + b)[1..] == a[1..] + b;
      FeedBitsConcat(Step(Xor(c, Bit(a[0]))), a[1..], b);
    }
  }

  /** Feeding bytes is feeding their bits. */
  lemma {:induction false} FeedAllIsBits(c: bv32, data: seq<bv8>)
    ensures FeedAll(c, data) == FeedBits(c, BitsOf(data))
    decreases |data|
  {
    hide Steps, Xor, Word, FeedBits, ByteBits;
    if data == [] {
      FeedNothing(c);
    } else {
      ByteWord(data[0]);
      FeedIsWord(c, ByteBits(data[0]));
      FeedBitsConcat(c, ByteBits(data[0]), BitsOf(data[1..]));
      FeedAllIsBits(Feed(c, data[0]), data[1..]);
    }
  }

  lemma FeedNothing(c: bv32)
    ensures FeedBits(c, []) == c
  {
  }

  lemma {:induction false} FeedBitsInjective(a: bv32, b: bv32, bits: seq<bool>)
    requires FeedBits(a, bits) == FeedBits(b, bits)
    ensures a == b
    decreases |bits|
  {
    hide Step, Xor, Bit;
    if bits != [] {
      var x, y := Xor(a, Bit(bits[0])), Xor(b, Bit(bits[0]));
      FeedBitsInjective(Step(x), Step(y), bits[1..]);
      assert Steps(x, 1) == Step(x) && Steps(y, 1) == Step(y);
      StepsInjective(x, y, 1);
      XorCancels(a, b, Bit(bits[0]));
    }
  }

  lemma ByteBitsInjective(a: bv8, b: bv8)
    requires ByteBits(a) == ByteBits(b)
    ensures a == b
  {
    hide ByteBits, Word;
    ByteWord(a);
    ByteWord(b);
    WideInjective(a, b);
  }

  lemma WideInjective(a: bv8, b: bv8)
    requires Wide(a) == Wide(b)
    ensures a == b
  {
  }

  lemma {:induction false} BitsInjective(a: seq<bv8>, b: seq<bv8>)
    requires |a| == |b| && BitsOf(a) == BitsOf(b)
    ensures a == b
    decreases |a|
  {
    hide ByteBits;
    if a != [] {
      assert ByteBits(a[0]) == BitsOf(a)[..8] && ByteBits(b[0]) == BitsOf(b)[..8];
      assert BitsOf(a[1..]) == BitsOf(a)[8..] && BitsOf(b[1..]) == BitsOf(b)[8..];
      ByteBitsInjective(a[0], b[0]);
      BitsInjective(a[1..], b[1..]);
      assert a == [a[0]] + a[1..] && b == [b[0]] + b[1..];
    }
  }

  /** Two bit strings agree outside 32 bits in a row. */
  predicate AgreeOutside(u: seq<bool>, v: seq<bool>, k: nat) {
    |u| == |v| && forall i :: 0 <= i < |u| && !(k <= i < k + 32) ==> u[i] == v[i]
  }

  lemma BitBurst(c: bv32, p: seq<bool>, x: seq<bool>, y: seq<bool>, q: seq<bool>)
    requires |x| == |y| <= 32 && FeedBits(c, p + x + q) == FeedBits(c, p + y + q)
    ensures x == y
  {
    hide FeedBits, Steps, Xor, Word;
    var d := FeedBits(c, p);
    FeedBitsConcat(c, p + x, q);
    FeedBitsConcat(c, p + y, q);
    FeedBitsConcat(c, p, x);
    FeedBitsConcat(c, p, y);
    FeedBitsInjective(FeedBits(d, x), FeedBits(d, y), q);
    FeedIsWord(d, x);
    FeedIsWord(d, y);
    StepsInjective(Xor(d, Word(x)), Xor(d, Word(y)), |x|);
    XorCancels(Word(x), Word(y), d);
    WordInjective(x, y);
  }

  lemma Windows(u: seq<bool>, v: seq<bool>, k: nat) returns (p: seq<bool>, x: seq<bool>, y: seq<bool>, q: seq<bool>)
    requires AgreeOutside(u, v, k)
    ensures u == p + x + q && v == p + y + q && |x| == |y| <= 32
  {
    var i := if k < |u| then k else |u|;
    var j := if k + 32 < |u| then k + 32 else |u|;
    p, x, y, q := u[..i], u[i..j], v[i..j], u[j..];
  }

  /** Damage confined to 32 bits in a row, at any bit of the message, changes its CRC. */
  lemma BurstDetected(a: seq<bv8>, b: seq<bv8>, k: nat)
    requires AgreeOutside(BitsOf(a), BitsOf(b), k)
    ensures Crc(a) == Crc(b) <==> a == b
  {
    hide Not, FeedAll, FeedBits, BitsOf;
    if Crc(a) == Crc(b) {
      var c: bv32 := 0xFFFF_FFFF;
      NotTwice(FeedAll(c, a));
      NotTwice(FeedAll(c, b));
      FeedAllIsBits(c, a);
      FeedAllIsBits(c, b);
      var p, x, y, q := Windows(BitsOf(a), BitsOf(b), k);
      BitBurst(c, p, x, y, q);
      BitsInjective(a, b);
    }
  }

  // ---- The codec ----------------------------------------------------------------------------------

  /** Big-endian bytes of a word. */
  function Be32(v: bv32): seq<bv8> {
    [((v >> 24) & 0xFF) as bv8, ((v >> 16) & 0xFF) as bv8, ((v >> 8) & 0xFF) as bv8, (v & 0xFF) as bv8]
  }

  /** The number four big-endian bytes stand for. */
  function FromBe(b: seq<bv8>): bv32
    requires |b| == 4
  {
    Joined(b[0], b[1], b[2], b[3])
  }

  function Joined(a: bv8, b: bv8, c: bv8, d: bv8): bv32 {
    ((a as bv32) << 24) | ((b as bv32) << 16) | ((c as bv32) << 8) | (d as bv32)
  }

  lemma BeRoundTrip(v: bv32)
    ensures |Be32(v)| == 4 && FromBe(Be32(v)) == v
  {
    JoinedSplit(v);
    hide Joined;
  }

  lemma JoinedSplit(v: bv32)
    ensures Joined(((v >> 24) & 0xFF) as bv8, ((v >> 16) & 0xFF) as bv8, ((v >> 8) & 0xFF) as bv8, (v & 0xFF) as bv8)
         == v
  {
  }

  /** A chunk read back: its length, type and data, and a CRC over type and data, all big-endian. */
  lemma ChunkReads(kind: seq<bv8>, data: seq<bv8>)
    requires |kind| == 4
    ensures var b, n := Chunk(kind, data), |data|;
            && |b| == n + 12 && FromBe(b[..4]) == (n % 0x1_0000_0000) as bv32
            && b[4..8] == kind && b[8..8 + n] == data && FromBe(b[8 + n..]) == Crc(b[4..8 + n])
  {
    hide Crc, Be32, FromBe;
    var len: bv32 := (|data| % 0x1_0000_0000) as bv32;
    BeRoundTrip(len);
    BeRoundTrip(Crc(kind + data));
    FourParts(Be32(len), kind, data, Be32(Crc(kind + data)));
  }

  lemma FourParts(a: seq<bv8>, k: seq<bv8>, d: seq<bv8>, c: seq<bv8>)
    requires |a| == |k| == |c| == 4
    ensures var b, n := a + k + d + c, |d|;
            && |b| == n + 12 && b[..4] == a && b[4..8] == k && b[8..8 + n] == d && b[8 + n..] == c
            && b[4..8 + n] == k + d
  {
  }

  /** A chunk: length, type, data, and the CRC of type and data. */
  function Chunk(kind: seq<bv8>, data: seq<bv8>): seq<bv8> {
    Be32((|data| % 0x1_0000_0000) as bv32) + kind + data + Be32(Crc(kind + data))
  }

  function Index(c: bv32): (i: nat)
    ensures i < 256
  {
    Low(c) as nat
  }

  lemma ThereAndBack(k: bv32)
    ensures (k as int) as bv32 == k
  {
  }

  lemma IndexIsLow(c: bv32)
    ensures Index(c) as bv32 == Low(c)
  {
    hide Low;
    ThereAndBack(Low(c));
  }

  method EightSteps(i: nat) returns (d: bv32)
    requires i < 256
    ensures d == Entry(i)
  {
    hide Odd, Half, Xor;
    d := i as bv32;
    for j := 0 to 8
      invariant Steps(d, 8 - j) == Steps(i as bv32, 8)
    {
      d := if Odd(d) then Xor(POLY, Half(d)) else Half(d);
    }
  }

  /** Entry i of the table: i after eight division steps. */
  function Entry(i: nat): bv32
    requires i < 256
  {
    Steps(i as bv32, 8)
  }

  class Codec {
    const table: array<bv32>
    var ready: bool

    /** Once built, the table holds its entries. */
    ghost predicate Valid()
      reads this, table
    {
      table.Length == 256 && (ready ==> forall i :: 0 <= i < 256 ==> table[i] == Entry(i))
    }

    constructor ()
      ensures Valid() && fresh(table)
    {
      table := new bv32[256];
      ready := false;
    }

    method Init()
      requires Valid()
      modifies this, table
      ensures Valid() && ready
    {
      hide Entry;
      if ready {
        return;
      }
      for i := 0 to 256
        invariant forall k :: 0 <= k < i ==> table[k] == Entry(k)
      {
        var c := EightSteps(i);
        table[i] := c;
      }
      ready := true;
    }

    /** The table-driven update computes the CRC of the definition. */
    method Update(crcIn: bv32, data: seq<bv8>) returns (crcOut: bv32)
      requires Valid()
      modifies this, table
      ensures Valid() && crcOut == Continued(crcIn, data)
    {
      hide Steps, Xor, Low, Drop, Not, Index, Wide;
      if !ready {
        Init();
      }
      var crc := Not(crcIn);
      for i := 0 to |data|
        invariant Valid() && ready && FeedAll(crc, data[i..]) == FeedAll(Not(crcIn), data)
      {
        var x := Xor(crc, Wide(data[i]));
        TableStep(x);
        IndexIsLow(x);
        DropXor(crc, data[i]);
        crc := Xor(table[Index(x)], Drop(crc));
        assert data[i..][1..] == data[i + 1..];
      }
      crcOut := Not(crc);
    }

    method Data(data: seq<bv8>) returns (crc: bv32)
      requires Valid()
      modifies this, table
      ensures Valid() && crc == Crc(data)
    {
      crc := Update(0, data);
      hide FeedAll, Not;
      Chaining(data, []);
    }

    method WriteChunk(kind: seq<bv8>, data: seq<bv8>) returns (bytes: seq<bv8>)
      requires Valid() && |kind| == 4
      modifies this, table
      ensures Valid() && bytes == Chunk(kind, data)
    {
      hide Crc, Continued, Be32;
      bytes := Be32((|data| % 0x1_0000_0000) as bv32) + kind + data;
      var crc := Data(kind);
      if |data| > 0 {
        crc := Update(crc, data);
        Chaining(kind, data);
      } else {
        assert kind + data == kind;
      }
      bytes := bytes + Be32(crc);
    }
  }

  /** Mixing a byte in leaves the upper 24 bits alone. */
  lemma DropXor(x: bv32, b: bv8)
    ensures Drop(Xor(x, Wide(b))) == Drop(x)
  {
  }
}
