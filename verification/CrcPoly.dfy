/** The CRC as a remainder of polynomials over the two-element field. */
module CrcPoly {
  import opened C = Crc

  // Polynomials are sequences of coefficients, the highest power first.

  function Zeros(n: nat): (s: seq<bool>)
    ensures |s| == n
  {
    seq(n, _ => false)
  }

  /** Adding coefficients is exclusive or. */
  function Add(a: seq<bool>, b: seq<bool>): (s: seq<bool>)
    requires |a| == |b|
    ensures |s| == |a|
  {
    seq(|a|, i requires 0 <= i < |a| => a[i] != b[i])
  }

  /** x^32 + x^26 + x^23 + x^22 + x^16 + x^12 + x^11 + x^10 + x^8 + x^7 + x^5 + x^4 + x^2 + x + 1. */
  function Generator(): (s: seq<bool>)
    ensures |s| == 33
  {
    seq(33, k => 32 - k in {32, 26, 23, 22, 16, 12, 11, 10, 8, 7, 5, 4, 2, 1, 0})
  }

  /** The product of q and the generator. */
  function Times(q: seq<bool>): (s: seq<bool>)
    ensures |s| == |q| + 32
  {
    if q == [] then Zeros(32)
    else Add(if q[0] then Generator() + Zeros(|q| - 1) else Zeros(|q| + 32), [false] + Times(q[1..]))
  }

  /** r, of degree below 32, is what is left when a is divided by the generator. */
  ghost predicate IsRemainder(a: seq<bool>, r: seq<bool>) {
    |r| == 32 && |a| >= 32 && exists q: seq<bool> :: |q| == |a| - 32 && Add(a, Zeros(|q|) + r) == Times(q)
  }

  function Trues(): (s: seq<bool>)
    ensures |s| == 32
  {
    seq(32, _ => true)
  }

  /** The message with 32 zeros behind it, and its first 32 coefficients flipped. */
  function Dividend(bits: seq<bool>): (a: seq<bool>)
    ensures |a| == |bits| + 32
  {
    Add(bits + Zeros(32), Trues() + Zeros(|bits|))
  }

  // ---- A remainder is unique ------------------------------------------------------------------------

  lemma {:induction false} QuotientUnique(q: seq<bool>, p: seq<bool>)
    requires |q| == |p| && Times(q)[..|q|] == Times(p)[..|p|]
    ensures q == p
    decreases |q|
  {
    if q != [] {
      hide Generator;
      GeneratorStarts();
      assert Times(q)[0] == Times(q)[..|q|][0] && Times(p)[0] == Times(p)[..|p|][0];
      forall i | 0 <= i < |q| - 1
        ensures Times(q[1..])[i] == Times(p[1..])[i]
      {
        assert Times(q)[i + 1] == Times(q)[..|q|][i + 1] && Times(p)[i + 1] == Times(p)[..|p|][i + 1];
      }
      QuotientUnique(q[1..], p[1..]);
      assert q == [q[0]] + q[1..] && p == [p[0]] + p[1..];
    }
  }

  lemma GeneratorStarts()
    ensures Generator()[0]
  {
  }

  lemma RemainderUnique(a: seq<bool>, r: seq<bool>, s: seq<bool>)
    requires IsRemainder(a, r) && IsRemainder(a, s)
    ensures r == s
  {
    var n := |a| - 32;
    var q: seq<bool> :| |q| == n && Add(a, Zeros(n) + r) == Times(q);
    var p: seq<bool> :| |p| == n && Add(a, Zeros(n) + s) == Times(p);
    hide Times;
    forall i | 0 <= i < n
      ensures Times(q)[i] == Times(p)[i]
    {
      assert Add(a, Zeros(n) + r)[i] == a[i] == Add(a, Zeros(n) + s)[i];
    }
    QuotientUnique(q, p);
    forall i | 0 <= i < 32
      ensures r[i] == s[i]
    {
      assert Add(a, Zeros(n) + r)[n + i] == Add(a, Zeros(n) + s)[n + i];
    }
  }

  // ---- Long division, one bit at a time ----------------------------------------------------------------

  /** The register after one more coefficient b: shifted, and the generator taken off when the top came out. */
  function Shift(r: seq<bool>, b: bool): (s: seq<bool>)
    requires |r| == 32
    ensures |s| == 32
  {
    Add(r[1..] + [false], if b != r[0] then Generator()[1..] else Zeros(32))
  }

  function ShiftAll(r: seq<bool>, bits: seq<bool>): (s: seq<bool>)
    requires |r| == 32
    ensures |s| == 32
    decreases |bits|
  {
    if bits == [] then r else ShiftAll(Shift(r, bits[0]), bits[1..])
  }

  /** The bits with r added to their top, and 32 places behind them. */
  function Loaded(r: seq<bool>, bits: seq<bool>): (a: seq<bool>)
    requires |r| == 32
    ensures |a| == |bits| + 32
  {
    Add(bits + Zeros(32), r + Zeros(|bits|))
  }

  /** What has been shifted out is a multiple of the generator. */
  lemma {:induction false} ShiftDivides(r: seq<bool>, bits: seq<bool>) returns (q: seq<bool>)
    requires |r| == 32
    ensures |q| == |bits| && Add(Loaded(r, bits), Zeros(|bits|) + ShiftAll(r, bits)) == Times(q)
    decreases |bits|
  {
    hide Generator;
    if bits == [] {
      q := [];
      assert Add(Loaded(r, bits), Zeros(0) + r) == Zeros(32);
    } else {
      var b, rest := bits[0], bits[1..];
      var next := Shift(r, b);
      var p := ShiftDivides(next, rest);
      q := [b != r[0]] + p;
      assert q[1..] == p;
      DivideStep(r, bits, p);
    }
  }

  lemma DivideStep(r: seq<bool>, bits: seq<bool>, p: seq<bool>)
    requires |r| == 32 && bits != [] && |p| == |bits| - 1
    requires var next := Shift(r, bits[0]);
             Add(Loaded(next, bits[1..]), Zeros(|bits| - 1) + ShiftAll(next, bits[1..])) == Times(p)
    ensures Add(Loaded(r, bits), Zeros(|bits|) + ShiftAll(r, bits)) == Times([bits[0] != r[0]] + p)
  {
    hide Generator, Times, ShiftAll, Shift, Loaded, Add, Zeros;
    var q := [bits[0] != r[0]] + p;
    ShiftFirst(r, bits);
    forall i | 0 <= i < |bits| + 32
      ensures Add(Loaded(r, bits), Zeros(|bits|) + ShiftAll(r, bits))[i] == Times(q)[i]
    {
      DivideAt(r, bits, p, i, ShiftAll(r, bits));
    }
  }

  /** One coefficient of both sides. */
  lemma DivideAt(r: seq<bool>, bits: seq<bool>, p: seq<bool>, i: nat, end: seq<bool>)
    requires |r| == |end| == 32 && bits != [] && |p| == |bits| - 1 && i < |bits| + 32
    requires Add(Loaded(Shift(r, bits[0]), bits[1..]), Zeros(|bits| - 1) + end) == Times(p)
    ensures Add(Loaded(r, bits), Zeros(|bits|) + end)[i] == Times([bits[0] != r[0]] + p)[i]
  {
    hide Generator, Times, ShiftAll, Shift, Loaded, Add, Zeros;
    var n, q, next := |bits|, [bits[0] != r[0]] + p, Shift(r, bits[0]);
    assert q[1..] == p;
    TimesAt(q, i);
    AddAt(Loaded(r, bits), Zeros(n) + end, i);
    if i == 0 {
      StepTop(r, bits);
      ZerosAt(n, 0);
    } else {
      AddAt(Loaded(next, bits[1..]), Zeros(n - 1) + end, i - 1);
      StepCoefficient(r, bits, i);
      ZerosShift(n, end, i);
    }
  }

  lemma ShiftFirst(r: seq<bool>, bits: seq<bool>)
    requires |r| == 32 && bits != []
    ensures ShiftAll(r, bits) == ShiftAll(Shift(r, bits[0]), bits[1..])
  {
  }

  lemma AddAt(a: seq<bool>, b: seq<bool>, i: nat)
    requires i < |a| == |b|
    ensures Add(a, b)[i] == (a[i] != b[i])
  {
  }

  lemma ZerosAt(n: nat, i: nat)
    requires i < n
    ensures !Zeros(n)[i]
  {
  }

  lemma ZerosShift(n: nat, s: seq<bool>, i: nat)
    requires 0 < i < n + |s| && 0 < n
    ensures (Zeros(n) + s)[i] == (Zeros(n - 1) + s)[i - 1]
  {
  }

  lemma TimesAt(q: seq<bool>, i: nat)
    requires q != [] && i < |q| + 32
    ensures Times(q)[i] == ((q[0] && (Generator() + Zeros(|q| - 1))[i]) != (i > 0 && Times(q[1..])[i - 1]))
  {
    hide Generator, Add, Times, Zeros;
    var tail := Times(q[1..]);
    TimesIs(q);
    if q[0] {
      AddAt(Generator() + Zeros(|q| - 1), [false] + tail, i);
    } else {
      AddAt(Zeros(|q| + 32), [false] + tail, i);
      ZerosAt(|q| + 32, i);
    }
    Behind(tail, i);
  }

  lemma Behind(s: seq<bool>, i: nat)
    requires i < |s| + 1
    ensures ([false] + s)[i] == (i > 0 && s[i - 1])
  {
  }

  lemma TimesIs(q: seq<bool>)
    requires q != []
    ensures Times(q)
         == Add(if q[0] then Generator() + Zeros(|q| - 1) else Zeros(|q| + 32), [false] + Times(q[1..]))
  {
    hide Generator, Add, Zeros;
  }

  lemma StepTop(r: seq<bool>, bits: seq<bool>)
    requires |r| == 32 && bits != []
    ensures Loaded(r, bits)[0] == (bits[0] != r[0]) && (Generator() + Zeros(|bits| - 1))[0]
  {
    hide Generator;
    GeneratorStarts();
  }

  /** A coefficient of the dividend before and after one step. */
  lemma StepCoefficient(r: seq<bool>, bits: seq<bool>, i: nat)
    requires |r| == 32 && bits != [] && 0 < i < |bits| + 32
    ensures var g := Generator() + Zeros(|bits| - 1);
            var now, then_ := Loaded(r, bits)[i], Loaded(Shift(r, bits[0]), bits[1..])[i - 1];
            (now != then_) <==> (bits[0] != r[0] && g[i])
  {
    hide Generator;
  }

  // ---- The register is the remainder --------------------------------------------------------------------

  lemma {:induction false} WordAdd(a: seq<bool>, b: seq<bool>)
    requires |a| == |b|
    ensures Word(Add(a, b)) == Xor(Word(a), Word(b))
    decreases |a|
  {
    hide Xor, Double, Bit;
    if a == [] {
      XorNone(0);
    } else {
      WordAdd(a[1..], b[1..]);
      assert Add(a, b)[1..] == Add(a[1..], b[1..]);
      BitsXor(a[0], b[0], Word(a[1..]), Word(b[1..]));
    }
  }

  lemma BitsXor(a: bool, b: bool, v: bv32, w: bv32)
    ensures Xor(Bit(a != b), Double(Xor(v, w))) == Xor(Xor(Bit(a), Double(v)), Xor(Bit(b), Double(w)))
  {
    hide Xor, Double, Bit;
    BitXor(a, b);
    DoubleXor(v, w);
    XorFour(Bit(a), Bit(b), Double(v), Double(w));
  }

  lemma BitXor(a: bool, b: bool)
    ensures Bit(a != b) == Xor(Bit(a), Bit(b))
  {
  }

  lemma DoubleXor(v: bv32, w: bv32)
    ensures Double(Xor(v, w)) == Xor(Double(v), Double(w))
  {
  }

  lemma XorFour(a: bv32, b: bv32, v: bv32, w: bv32)
    ensures Xor(Xor(a, b), Xor(v, w)) == Xor(Xor(a, v), Xor(b, w))
  {
    hide Xor;
    XorAssoc(a, b, Xor(v, w));
    XorAssoc(b, v, w);
    XorComm(b, v);
    XorAssoc(v, b, w);
    XorAssoc(a, v, Xor(b, w));
  }

  lemma {:induction false} WordZeros(s: seq<bool>, n: nat)
    ensures Word(s + Zeros(n)) == Word(s) && Word(Zeros(n)) == 0
    decreases |s|, n
  {
    hide Xor, Double, Bit;
    if s != [] {
      WordZeros(s[1..], n);
      assert (s + Zeros(n))[1..] == s[1..] + Zeros(n);
    } else {
      assert s + Zeros(n) == Zeros(n);
      if n > 0 {
        WordZeros(s, n - 1);
        assert Zeros(n)[1..] == Zeros(n - 1);
        DoubleZero();
      }
    }
  }

  lemma DoubleZero()
    ensures Xor(Bit(false), Double(0)) == 0
  {
  }

  lemma HalfWord(r: seq<bool>)
    requires 0 < |r| <= 32
    ensures Half(Word(r)) == Word(r[1..]) && (Odd(Word(r)) <==> r[0])
  {
    hide Half, Odd, Xor, Double, Bit, Free;
    WordFree(r[1..]);
    HalfParts(r[0], Word(r[1..]));
  }

  lemma HalfParts(b: bool, w: bv32)
    requires Free(w)
    ensures Half(Xor(Bit(b), Double(w))) == w && (Odd(Xor(Bit(b), Double(w))) <==> b)
  {
  }

  lemma WordNibble(s: seq<bool>, k: nat)
    requires k + 4 <= |s|
    ensures Word(s[k..]) == Four(s[k], s[k + 1], s[k + 2], s[k + 3], Word(s[k + 4..]))
  {
    hide Word, Four;
    NibbleWord(s[k], s[k + 1], s[k + 2], s[k + 3], s[k + 4..]);
    assert s[k..] == [s[k]] + s[k + 1..] && s[k + 1..] == [s[k + 1]] + s[k + 2..];
    assert s[k + 2..] == [s[k + 2]] + s[k + 3..] && s[k + 3..] == [s[k + 3]] + s[k + 4..];
  }

  /** Four coefficients of the generator without its highest power, from x^(31 - k) down. */
  lemma GeneratorAt(k: nat)
    requires k < 32
    ensures Generator()[1..][k] == (31 - k in {26, 23, 22, 16, 12, 11, 10, 8, 7, 5, 4, 2, 1, 0})
  {
  }

  lemma GeneratorNibble(k: nat, a: bool, b: bool, c: bool, d: bool, w: bv32)
    requires k + 4 <= 32 && Word(Generator()[1..][k + 4..]) == w
    requires a == (31 - k in {26, 23, 22, 16, 12, 11, 10, 8, 7, 5, 4, 2, 1, 0})
    requires b == (30 - k in {26, 23, 22, 16, 12, 11, 10, 8, 7, 5, 4, 2, 1, 0})
    requires c == (29 - k in {26, 23, 22, 16, 12, 11, 10, 8, 7, 5, 4, 2, 1, 0})
    requires d == (28 - k in {26, 23, 22, 16, 12, 11, 10, 8, 7, 5, 4, 2, 1, 0})
    ensures Word(Generator()[1..][k..]) == Four(a, b, c, d, w)
  {
    hide Word, Four, Generator;
    GeneratorAt(k);
    GeneratorAt(k + 1);
    GeneratorAt(k + 2);
    GeneratorAt(k + 3);
    WordNibble(Generator()[1..], k);
  }

  lemma FourValues()
    ensures Four(false, true, true, true, 0) == 0xE && Four(true, false, true, true, 0xE) == 0xED
    ensures Four(true, true, false, true, 0xED) == 0xEDB && Four(false, false, false, true, 0xEDB) == 0xEDB8
    ensures Four(false, false, false, true, 0xEDB8) == 0xEDB88 && Four(true, true, false, false, 0xEDB88) == 0xEDB883
    ensures Four(false, true, false, false, 0xEDB883) == 0xEDB8832
    ensures Four(false, false, false, false, 0xEDB8832) == 0xEDB88320
  {
  }

  /** The generator without its highest power is the constant of the source. */
  lemma GeneratorIs()
    ensures Word(Generator()[1..]) == 0xEDB8_8320 == POLY
  {
    hide Word, Four, Generator;
    var g := Generator()[1..];
    FourValues();
    WordNone();
    assert g[32..] == [];
    GeneratorNibble(28, false, true, true, true, 0);
    GeneratorNibble(24, true, false, true, true, 0xE);
    GeneratorNibble(20, true, true, false, true, 0xED);
    GeneratorNibble(16, false, false, false, true, 0xEDB);
    GeneratorNibble(12, false, false, false, true, 0xEDB8);
    GeneratorNibble(8, true, true, false, false, 0xEDB88);
    GeneratorNibble(4, false, true, false, false, 0xEDB883);
    GeneratorNibble(0, false, false, false, false, 0xEDB8832);
    assert g[0..] == g;
  }

  /** One step of the register is one step of the division. */
  lemma StepIsShift(r: seq<bool>, b: bool)
    requires |r| == 32
    ensures Step(Xor(Word(r), Bit(b))) == Word(Shift(r, b))
  {
    hide Word, Xor, Half, Odd, Generator, Bit;
    var c := Word(r);
    HalfWord(r);
    FlipBit(c, b);
    WordZeros(r[1..], 1);
    assert r[1..] + [false] == r[1..] + Zeros(1);
    var g := if b != r[0] then Generator()[1..] else Zeros(32);
    WordAdd(r[1..] + [false], g);
    GeneratorIs();
    WordZeros([], 32);
    XorNone(Half(c));
    XorComm(POLY, Half(c));
  }

  lemma FlipBit(c: bv32, b: bool)
    ensures Half(Xor(c, Bit(b))) == Half(c) && (Odd(Xor(c, Bit(b))) <==> Odd(c) != b)
  {
  }

  lemma {:induction false} FeedIsShift(r: seq<bool>, bits: seq<bool>)
    requires |r| == 32
    ensures FeedBits(Word(r), bits) == Word(ShiftAll(r, bits))
    decreases |bits|
  {
    hide Step, Xor, Bit, Word, Shift;
    if bits != [] {
      StepIsShift(r, bits[0]);
      FeedIsShift(Shift(r, bits[0]), bits[1..]);
    }
  }

  lemma OnesNibble(k: nat, w: bv32)
    requires k + 4 <= 32 && Word(Trues()[k + 4..]) == w
    ensures Word(Trues()[k..]) == Four(true, true, true, true, w)
  {
    hide Word, Four;
    WordNibble(Trues(), k);
  }

  lemma OnesValues()
    ensures Four(true, true, true, true, 0) == 0xF && Four(true, true, true, true, 0xF) == 0xFF
    ensures Four(true, true, true, true, 0xFF) == 0xFFF && Four(true, true, true, true, 0xFFF) == 0xFFFF
    ensures Four(true, true, true, true, 0xFFFF) == 0xF_FFFF && Four(true, true, true, true, 0xF_FFFF) == 0xFF_FFFF
    ensures Four(true, true, true, true, 0xFF_FFFF) == 0xFFF_FFFF
    ensures Four(true, true, true, true, 0xFFF_FFFF) == 0xFFFF_FFFF
  {
  }

  lemma AllOnes()
    ensures Word(Trues()) == 0xFFFF_FFFF
  {
    hide Word, Four, Trues;
    var s := Trues();
    OnesValues();
    WordNone();
    assert s[32..] == [];
    OnesNibble(28, 0);
    OnesNibble(24, 0xF);
    OnesNibble(20, 0xFF);
    OnesNibble(16, 0xFFF);
    OnesNibble(12, 0xFFFF);
    OnesNibble(8, 0xF_FFFF);
    OnesNibble(4, 0xFF_FFFF);
    OnesNibble(0, 0xFFF_FFFF);
    assert s[0..] == s;
  }

  /**
    * The CRC of a message is the complement of the remainder of its polynomial, with 32 zeros behind it and
    * its first 32 coefficients flipped, by the generator of section 3.4 of RFC 2083. There is only one remainder.
    */
  lemma CrcIsRemainder(data: seq<bv8>)
    ensures exists r :: IsRemainder(Dividend(BitsOf(data)), r) && Complement(C.Crc(data), r)
    ensures forall r :: IsRemainder(Dividend(BitsOf(data)), r) ==> Complement(C.Crc(data), r)
  {
    hide IsRemainder, Dividend, BitsOf, Complement, C.Crc, ShiftAll, Trues;
    var bits := BitsOf(data);
    var r := ShiftAll(Trues(), bits);
    RegisterIs(data);
    DivisionLeaves(bits);
    forall s | IsRemainder(Dividend(bits), s)
      ensures Complement(C.Crc(data), s)
    {
      RemainderUnique(Dividend(bits), s, r);
    }
  }

  predicate Complement(c: bv32, r: seq<bool>) { c == Word(r) ^ 0xFFFF_FFFF }

  lemma RegisterIs(data: seq<bv8>)
    ensures Complement(C.Crc(data), ShiftAll(Trues(), BitsOf(data)))
  {
    hide FeedAll, FeedBits, Word, BitsOf, ShiftAll, Trues;
    AllOnes();
    FeedAllIsBits(0xFFFF_FFFF, data);
    FeedIsShift(Trues(), BitsOf(data));
  }

  lemma DivisionLeaves(bits: seq<bool>)
    ensures IsRemainder(Dividend(bits), ShiftAll(Trues(), bits))
  {
    hide Times, Add, ShiftAll, Trues, Zeros;
    var q := ShiftDivides(Trues(), bits);
    assert Loaded(Trues(), bits) == Dividend(bits);
  }

  lemma FeedValues()
    ensures Feed(0xFFFF_FFFF, 0x49) == 0x22FD_E946 && Feed(0x22FD_E946, 0x45) == 0x992B_AC53
    ensures Feed(0x992B_AC53, 0x4E) == 0x639F_4775 && Feed(0x639F_4775, 0x44) == 0x51BD_9F7D
  {
    assert Steps(0xFFFF_FFB6, 8) == 0x22FD_E946;
    assert Steps(0x22FD_E903, 8) == 0x992B_AC53;
    assert Steps(0x992B_AC1D, 8) == 0x639F_4775;
    assert Steps(0x639F_4731, 8) == 0x51BD_9F7D;
  }

  lemma NotValue()
    ensures Not(0x51BD_9F7D) == 0xAE42_6082
  {
  }

  /** The check value of the empty end chunk of every PNG file. */
  lemma EndChunk()
    ensures C.Crc([0x49, 0x45, 0x4E, 0x44]) == 0xAE42_6082
  {
    var d: seq<bv8> := [0x49, 0x45, 0x4E, 0x44];
    hide Feed, Not;
    FeedValues();
    assert d[1..] == [0x45, 0x4E, 0x44] && d[1..][1..] == [0x4E, 0x44] && d[1..][1..][1..] == [0x44];
    assert d[1..][1..][1..][1..] == [];
    NotValue();
  }
}
