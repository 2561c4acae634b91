/** A bump allocator over one stretch of memory, with scratch marks and reset. */
module Arena {
  import opened Bits

  /** Sizes and addresses are 64 bits wide. */
  const WORD := 0x1_0000_0000_0000_0000

  // ---- Rounding up to an alignment ------------------------------------------------------------

  ghost predicate IsAlign(align: nat) { exists k: nat :: k < 64 && align == Pow2(k) }

  predicate Aligned(at: nat, align: nat) { align > 0 && at % align == 0 }

  /** Bitwise and of n-bit words. */
  function And(n: nat, x: nat, y: nat): (r: nat) {
    if n == 0 then 0 else (x % 2) * (y % 2) + 2 * And(n - 1, x / 2, y / 2)
  }

  lemma {:induction false} AndOnes(n: nat, x: nat)
    requires x < Pow2(n)
    ensures And(n, x, Pow2(n) - 1) == x
  {
    if n > 0 {
      assert (Pow2(n) - 1) / 2 == Pow2(n - 1) - 1 && (Pow2(n) - 1) % 2 == 1;
      AndOnes(n - 1, x / 2);
    }
  }

  /** The low k bits of a are zero. */
  predicate LowZero(a: nat, k: nat) { k == 0 || (a % 2 == 0 && LowZero(a / 2, k - 1)) }

  /** Masking off the low k bits leaves the largest multiple of 2^k up to x. */
  lemma {:induction false} AndMask(n: nat, k: nat, x: nat)
    requires x < Pow2(n) && k <= n
    ensures Pow2(k) <= Pow2(n)
    ensures var a := And(n, x, Pow2(n) - Pow2(k)); a <= x < a + Pow2(k) && LowZero(a, k)
  {
    hide And, LowZero, Pow2;
    if k == 0 {
      AndOnes(n, x);
      PowStart();
      AllLowZero(x);
    } else {
      PowTwice(n);
      PowTwice(k);
      AndMask(n - 1, k - 1, x / 2);
      var y := Pow2(n - 1) - Pow2(k - 1);
      AndEven(n, x, y);
      LowZeroDouble(And(n - 1, x / 2, y), k);
    }
  }

  lemma PowStart()
    ensures Pow2(0) == 1
  {
  }

  lemma PowTwice(n: nat)
    requires n > 0
    ensures Pow2(n) == 2 * Pow2(n - 1)
  {
  }

  lemma AllLowZero(a: nat)
    ensures LowZero(a, 0)
  {
  }

  lemma LowZeroDouble(a: nat, k: nat)
    requires k > 0 && LowZero(a, k - 1)
    ensures LowZero(2 * a, k)
  {
    assert (2 * a) / 2 == a;
  }

  lemma {:induction false} LowZeroTimes(a: nat, k: nat) returns (q: nat)
    requires LowZero(a, k)
    ensures a == Pow2(k) * q
  {
    hide Pow2;
    if k == 0 {
      PowStart();
      q := a;
    } else {
      PowTwice(k);
      q := LowZeroTimes(a / 2, k - 1);
      TwiceTimes(Pow2(k - 1), q);
    }
  }

  lemma TwiceTimes(h: nat, q: nat)
    ensures (2 * h) * q == 2 * (h * q)
  {
  }

  /** A number whose low k bits are zero is a multiple of 2^k. */
  lemma LowZeroMultiple(a: nat, k: nat)
    requires LowZero(a, k)
    ensures Aligned(a, Pow2(k)) && (a == 0 || a >= Pow2(k))
  {
    hide Pow2, LowZero;
    var q := LowZeroTimes(a, k);
    DivModUnique(a, Pow2(k), q, 0);
    MulStrict(Pow2(k), 0, q);
  }

  lemma {:induction false} PowBelow(k: nat, n: nat)
    requires k < n
    ensures Pow2(k) < Pow2(n)
  {
    if k < n - 1 {
      PowBelow(k, n - 1);
    }
  }

  lemma {:induction false} PowLowZero(n: nat, k: nat)
    requires k <= n
    ensures LowZero(Pow2(n), k)
  {
    if k > 0 {
      PowLowZero(n - 1, k - 1);
    }
  }

  lemma AndEven(n: nat, x: nat, y: nat)
    requires n > 0
    ensures And(n, x, 2 * y) == 2 * And(n - 1, x / 2, y)
  {
    assert (2 * y) % 2 == 0 && (2 * y) / 2 == y;
  }

  /** The padding as the allocator computes it, every operation modulo 2^64. */
  function Padding(p: nat, align: nat): (r: nat)
    requires align < WORD
    ensures r < WORD
  {
    (And(64, (p + align - 1) % WORD, (WORD - align) % WORD) - p) % WORD
  }

  lemma WordIs()
    ensures Pow2(64) == WORD
  {
    Pow2Values();
    hide Pow2;
    Pow2Add(8, 8);
    assert Pow2(16) == 0x1_0000;
    Pow2Add(16, 16);
    assert Pow2(32) == 0x1_0000_0000;
    Pow2Add(32, 32);
  }

  /** It leads to the next multiple of the alignment, even where the sum wraps around. */
  lemma PaddingAligns(p: nat, align: nat)
    requires p < WORD && IsAlign(align)
    ensures 0 < align < WORD && Padding(p, align) < align
    ensures Aligned(p + Padding(p, align), align) && p + Padding(p, align) <= WORD
  {
    hide And, Pow2, Aligned, LowZero;
    var k: nat :| k < 64 && align == Pow2(k);
    WordIs();
    Pow2Mono(k, 64);
    PowBelow(k, 64);
    assert (WORD - align) % WORD == WORD - align;
    var x := (p + align - 1) % WORD;
    AndMask(64, k, x);
    LowZeroMultiple(And(64, x, WORD - align), k);
    PowLowZero(64, k);
    LowZeroMultiple(WORD, k);
    PadValue(p, align, x, And(64, x, WORD - align));
  }

  /** From the masked sum a to the padding. */
  lemma PadValue(p: nat, align: nat, x: nat, a: nat)
    requires p < WORD && 0 < align <= WORD && x == (p + align - 1) % WORD && a <= x < a + align
    requires (a == 0 || a >= align) && Aligned(a, align) && Aligned(WORD, align)
    ensures var r := (a - p) % WORD; r < align && Aligned(p + r, align) && p + r <= WORD
  {
    hide Aligned;
    if p + align - 1 < WORD {
      assert (a - p) % WORD == a - p;
    } else {
      assert a == 0;
      assert (0 - p) % WORD == WORD - p;
    }
  }

  // ---- The arena as a value -----------------------------------------------------------------------

  /** A run of bytes handed out. */
  datatype Block = Block(at: nat, size: nat, align: nat)

  /** The blocks in use, oldest first; blocks of no bytes are not listed. */
  datatype State = State(base: nat, cap: nat, used: nat, live: seq<Block>)

  ghost predicate Fits(s: State, b: Block) {
    b.size > 0 && Aligned(b.at, b.align) && s.base <= b.at && b.at + b.size <= s.base + s.used
  }

  /** Every live block is aligned and inside the used part, and they lie one behind the other. */
  ghost predicate Good(s: State) {
    && 0 < s.base && s.base + s.cap < WORD && s.used <= s.cap
    && (forall i :: 0 <= i < |s.live| ==> Fits(s, s.live[i]))
    && (forall i, j :: 0 <= i < j < |s.live| ==> s.live[i].at + s.live[i].size <= s.live[j].at)
  }

  function Need(s: State, size: nat, align: nat): nat
    requires align < WORD
  {
    s.used + Padding(s.base + s.used, align) + size
  }

  /** The test for room, modulo 2^64. */
  predicate Granted(s: State, size: nat, align: nat)
    requires align < WORD
  {
    Need(s, size, align) % WORD <= s.cap
  }

  function Given(s: State, size: nat, align: nat): Block
    requires align < WORD
  {
    Block((s.base + s.used + Padding(s.base + s.used, align)) % WORD, size, align)
  }

  function Grown(s: State, size: nat, align: nat): State
    requires align < WORD
  {
    if !Granted(s, size, align) then s
    else s.(used := Need(s, size, align) % WORD,
            live := s.live + if size > 0 then [Given(s, size, align)] else [])
  }

  /** The blocks that end at or below an address. */
  function Below(live: seq<Block>, limit: nat): seq<Block> {
    if live == [] then []
    else
      var b := live[|live| - 1];
      if b.at + b.size <= limit then live else Below(live[..|live| - 1], limit)
  }

  function Release(s: State, mark: nat): State { s.(used := mark, live := Below(s.live, s.base + mark)) }

  function Emptied(s: State): State { s.(used := 0, live := []) }

  // ---- What every operation keeps -------------------------------------------------------------------

  /** A grant keeps the arena sound exactly when the sum did not wrap around. */
  lemma AllocKeepsIff(s: State, size: nat, align: nat)
    requires Good(s) && 0 < size < WORD && IsAlign(align)
    ensures 0 < align < WORD
    ensures Granted(s, size, align) ==> (Good(Grown(s, size, align)) <==> Need(s, size, align) < WORD)
  {
    PaddingAligns(s.base + s.used, align);
    hide Padding, Aligned, Good, Grown;
    if Granted(s, size, align) {
      if Need(s, size, align) < WORD {
        GrantIsGood(s, size, align);
      } else {
        GrantWraps(s, size, align);
      }
    }
  }

  lemma GrantWraps(s: State, size: nat, align: nat)
    requires Good(s) && 0 < size < WORD && align < WORD
    requires s.base + s.used + Padding(s.base + s.used, align) <= WORD
    requires Granted(s, size, align) && Need(s, size, align) >= WORD
    ensures !Good(Grown(s, size, align))
  {
    hide Padding, Aligned;
    var b, t, pad := Given(s, size, align), Grown(s, size, align), Padding(s.base + s.used, align);
    assert t.live[|s.live|] == b;
    assert s.base + s.used + pad == WORD ==> b.at == 0;
    assert !Fits(t, b);
  }

  /** A grant without wrap-around, in plain sums. */
  lemma GrantIs(s: State, size: nat, align: nat)
    requires Good(s) && align < WORD && Granted(s, size, align) && Need(s, size, align) < WORD
    ensures var pad, t := Padding(s.base + s.used, align), Grown(s, size, align);
            && t.base == s.base && t.cap == s.cap && t.used == s.used + pad + size <= t.cap
            && t.live == s.live + if size > 0 then [Block(s.base + s.used + pad, size, align)] else []
  {
    hide Padding;
  }

  lemma GrantIsGood(s: State, size: nat, align: nat)
    requires Good(s) && align < WORD && Padding(s.base + s.used, align) < align
    requires Aligned(s.base + s.used + Padding(s.base + s.used, align), align)
    requires Granted(s, size, align) && Need(s, size, align) < WORD
    ensures Good(Grown(s, size, align))
  {
    hide Padding, Aligned, Grown, Given, Need, Granted;
    GrantIs(s, size, align);
    var t := Grown(s, size, align);
    assert size > 0 ==> Fits(t, t.live[|s.live|]);
    forall i | 0 <= i < |t.live|
      ensures Fits(t, t.live[i])
    {
      if i < |s.live| { assert Fits(s, s.live[i]); }
    }
  }

  lemma GrantKeeps(s: State, size: nat, align: nat)
    requires align < WORD
    ensures Good(s) && IsAlign(align) && Need(s, size, align) < WORD ==> Good(Grown(s, size, align))
  {
    hide IsAlign, Padding, Aligned;
    if Good(s) && IsAlign(align) && Granted(s, size, align) && Need(s, size, align) < WORD {
      PaddingAligns(s.base + s.used, align);
      GrantIsGood(s, size, align);
    }
  }

  /** Two multiples less than the alignment apart are the same. */
  lemma MultiplesApart(align: nat, p: nat, a: nat, b: nat)
    requires Aligned(a, align) && Aligned(b, align) && p <= a < p + align && p <= b < p + align
    ensures a == b
  {
    var i, j := a / align, b / align;
    assert a == align * i && b == align * j;
    MulStrict(align, i, j);
    MulStrict(align, j, i);
  }

  /**
    * A request that does not wrap around is granted if and only if it fits behind the next multiple a of the
    * alignment, and then starts there.
    */
  lemma GrantedIff(s: State, size: nat, align: nat, a: nat)
    requires Good(s) && IsAlign(align) && Aligned(a, align) && s.base + s.used <= a < s.base + s.used + align
    requires a + size < s.base + WORD
    ensures align < WORD && (Granted(s, size, align) <==> a + size <= s.base + s.cap)
    ensures Granted(s, size, align) ==> Given(s, size, align) == Block(a, size, align)
  {
    hide IsAlign, Aligned, Padding;
    var p := s.base + s.used;
    PaddingAligns(p, align);
    MultiplesApart(align, p, a, p + Padding(p, align));
  }

  /** Every address given out is a multiple of the alignment. */
  lemma GivenAligned(s: State, size: nat, align: nat)
    requires IsAlign(align) && s.base + s.used < WORD
    ensures align < WORD && Aligned(Given(s, size, align).at, align)
  {
    hide IsAlign, Padding;
    PaddingAligns(s.base + s.used, align);
    assert Aligned(0, align);
  }

  /** The sum cannot wrap around when the request, the capacity and the alignment fit a word together. */
  lemma SmallIsSafe(s: State, size: nat, align: nat)
    requires Good(s) && IsAlign(align) && size + s.cap + align <= WORD
    ensures 0 < align < WORD && Need(s, size, align) < WORD
  {
    PaddingAligns(s.base + s.used, align);
  }

  lemma NoPadding(p: nat)
    requires p < WORD && p % 64 == 0
    ensures Padding(p, 64) == 0
  {
    hide Padding;
    assert Pow2(6) == 64;
    PaddingAligns(p, 64);
  }

  /** A request close to 2^64 bytes is granted, and the next block overlaps an older one. */
  lemma WrapOverlaps()
    ensures var s := State(64, 1024, 128, [Block(64, 128, 64)]);
            var t := Grown(s, WORD - 64, 64);
            && Good(s) && Granted(s, WORD - 64, 64) && Granted(t, 64, 64)
            && Given(t, 64, 64) == Block(128, 64, 64)
            && s.live[0] in t.live
  {
    hide Padding;
    NoPadding(192);
    NoPadding(128);
    var s := State(64, 1024, 128, [Block(64, 128, 64)]);
    assert Fits(s, s.live[0]);
    var t := Grown(s, WORD - 64, 64);
    assert s.live[0] == t.live[0];
  }

  // ---- Releasing back to a mark ---------------------------------------------------------------------

  ghost predicate InOrder(live: seq<Block>) {
    forall i, j :: 0 <= i < j < |live| ==> live[i].at + live[i].size <= live[j].at
  }

  /** What stays below a limit is a prefix of the blocks. */
  lemma {:induction false} BelowIsPrefix(live: seq<Block>, limit: nat) returns (k: nat)
    requires InOrder(live)
    ensures k <= |live| && Below(live, limit) == live[..k]
    ensures forall i :: 0 <= i < k ==> live[i].at + live[i].size <= limit
    ensures forall i :: k <= i < |live| ==> live[i].at + live[i].size > limit
  {
    k := |live|;
    if live != [] {
      var rest, b := live[..k - 1], live[k - 1];
      if b.at + b.size > limit {
        k := BelowIsPrefix(rest, limit);
        assert rest[..k] == live[..k];
        assert forall i :: 0 <= i < |rest| ==> rest[i] == live[i];
      } else {
        assert live[..k] == live;
      }
    }
  }

  lemma ReleaseKeeps(s: State, mark: nat)
    requires Good(s) && mark <= s.cap
    ensures Good(Release(s, mark))
  {
    hide Aligned;
    var k := BelowIsPrefix(s.live, s.base + mark);
    var t := Release(s, mark);
    forall i | 0 <= i < |t.live|
      ensures Fits(t, t.live[i])
    {
      assert Fits(s, s.live[i]);
    }
  }

  // ---- Runs --------------------------------------------------------------------------------------------

  datatype Op = Take(size: nat, align: nat) | Leave(mark: nat) | Reset

  /** What the arena asks of its callers: real alignments, sums that fit a word, marks inside the capacity. */
  ghost predicate OpOk(s: State, op: Op) {
    match op
    case Take(size, align) => IsAlign(align) && align < WORD && Need(s, size, align) < WORD
    case Leave(mark) => mark <= s.cap
    case Reset => true
  }

  ghost function Apply(s: State, op: Op): State
    requires OpOk(s, op)
  {
    match op
    case Take(size, align) => Grown(s, size, align)
    case Leave(mark) => Release(s, mark)
    case Reset => Emptied(s)
  }

  ghost predicate AllOk(s: State, ops: seq<Op>)
    decreases |ops|
  {
    ops == [] || (OpOk(s, ops[0]) && AllOk(Apply(s, ops[0]), ops[1..]))
  }

  ghost function Run(s: State, ops: seq<Op>): State
    requires AllOk(s, ops)
    decreases |ops|
  {
    if ops == [] then s else Run(Apply(s, ops[0]), ops[1..])
  }

  lemma ApplyKeeps(s: State, op: Op)
    requires Good(s) && OpOk(s, op)
    ensures Good(Apply(s, op))
  {
    match op
    case Take(size, align) =>
      GrantKeeps(s, size, align);
    case Leave(mark) =>
      ReleaseKeeps(s, mark);
    case Reset =>
  }

  predicate Within(b: Block, a: nat) { b.at <= a < b.at + b.size }

  /** Live blocks are aligned, inside the capacity, and share no byte. */
  ghost predicate Apart(s: State) {
    && (forall b :: b in s.live ==> Aligned(b.at, b.align) && s.base <= b.at && b.at + b.size <= s.base + s.cap)
    && (forall i, j, a :: 0 <= i < |s.live| && 0 <= j < |s.live| && Within(s.live[i], a) && Within(s.live[j], a) ==>
          i == j)
  }

  lemma GoodApart(s: State)
    requires Good(s)
    ensures Apart(s)
  {
    hide Aligned;
    forall b | b in s.live
      ensures Aligned(b.at, b.align) && s.base <= b.at && b.at + b.size <= s.base + s.cap
    {
      var i :| 0 <= i < |s.live| && s.live[i] == b;
      assert Fits(s, s.live[i]);
    }
  }

  /** Whatever is allocated, released and reset, the live blocks stay apart. */
  lemma {:induction false} RunKeepsApart(s: State, ops: seq<Op>)
    requires Good(s) && AllOk(s, ops)
    ensures Good(Run(s, ops)) && Apart(Run(s, ops))
    decreases |ops|
  {
    if ops == [] {
      GoodApart(s);
    } else {
      ApplyKeeps(s, ops[0]);
      hide Good, Apart, OpOk;
      RunKeepsApart(Apply(s, ops[0]), ops[1..]);
    }
  }

  // ---- A scratch section ---------------------------------------------------------------------------------

  /** t is s with more blocks on top. */
  ghost predicate Extends(s: State, t: State) {
    && t.base == s.base && t.cap == s.cap && s.used <= t.used
    && |s.live| <= |t.live| && t.live[..|s.live|] == s.live
    && forall i :: |s.live| <= i < |t.live| ==> t.live[i].at >= s.base + s.used
  }

  /** Operations of a section that began at mark m: no reset, and no release below m. */
  predicate Inner(op: Op, m: nat) {
    match op
    case Take(_, _) => true
    case Leave(mark) => mark >= m
    case Reset => false
  }

  lemma TakeExtends(s: State, t: State, size: nat, align: nat)
    requires Good(s) && Good(t) && Extends(s, t) && OpOk(t, Take(size, align))
    ensures Extends(s, Grown(t, size, align))
  {
    hide Padding, Aligned, IsAlign;
    var u := Grown(t, size, align);
    if Granted(t, size, align) {
      GrantIs(t, size, align);
      hide Grown, Need, Given;
      assert u.live[..|t.live|] == t.live;
      assert u.live[..|s.live|] == t.live[..|s.live|];
    }
  }

  lemma LeaveExtends(s: State, t: State, mark: nat)
    requires Good(s) && Good(t) && Extends(s, t) && s.used <= mark
    ensures Extends(s, Release(t, mark))
    ensures mark == s.used ==> Release(t, mark) == s
  {
    hide Aligned;
    var k := BelowIsPrefix(t.live, t.base + mark);
    var n := |s.live|;
    if n > 0 {
      assert t.live[n - 1] == t.live[..n][n - 1] == s.live[n - 1];
      assert Fits(s, s.live[n - 1]);
    }
    assert n <= k;
    assert t.live[..k][..n] == t.live[..n];
    if n < |t.live| {
      assert Fits(t, t.live[n]);
    }
    assert mark == s.used ==> k == n;
  }

  lemma {:induction false} InnerRunExtends(s: State, t: State, ops: seq<Op>)
    requires Good(s) && Good(t) && Extends(s, t) && AllOk(t, ops)
    requires forall i :: 0 <= i < |ops| ==> Inner(ops[i], s.used)
    ensures Good(Run(t, ops)) && Extends(s, Run(t, ops))
    decreases |ops|
  {
    if ops != [] {
      var op := ops[0];
      ApplyKeeps(t, op);
      assert Inner(op, s.used);
      match op {
        case Take(size, align) => TakeExtends(s, t, size, align);
        case Leave(mark) => LeaveExtends(s, t, mark);
      }
      hide Good, Extends, OpOk;
      InnerRunExtends(s, Apply(t, op), ops[1..]);
    }
  }

  /** Ending a scratch section restores the arena it began with, whatever was allocated or nested inside. */
  lemma ScratchRestores(s: State, ops: seq<Op>)
    requires Good(s) && AllOk(s, ops) && forall i :: 0 <= i < |ops| ==> Inner(ops[i], s.used)
    ensures Release(Run(s, ops), s.used) == s
  {
    assert s.live[..|s.live|] == s.live;
    InnerRunExtends(s, s, ops);
    LeaveExtends(s, Run(s, ops), s.used);
  }

  // ---- The arena in place ----------------------------------------------------------------------------------

  /** Moving the pointer twice and counting once agree, modulo 2^64. */
  lemma Bump(base: nat, used: nat, pad: nat, size: nat, cap: nat)
    requires base + cap < WORD && (used + pad + size) % WORD <= cap
    ensures ((base + used + pad) % WORD + size) % WORD == base + (used + pad + size) % WORD
  {
    var n, m := used + pad + size, base + used + pad;
    assert n == WORD * (n / WORD) + n % WORD && m == WORD * (m / WORD) + m % WORD;
    assert base + n % WORD == m % WORD + size + WORD * (m / WORD - n / WORD);
  }

  /** A request in terms of the padding. */
  lemma GrantParts(s: State, size: nat, align: nat)
    requires align < WORD
    ensures var pad := Padding(s.base + s.used, align);
            var at := (s.base + s.used + pad) % WORD;
            && (Granted(s, size, align) <==> (s.used + pad + size) % WORD <= s.cap)
            && Given(s, size, align) == Block(at, size, align)
            && Grown(s, size, align)
            == if Granted(s, size, align)
               then s.(used := (s.used + pad + size) % WORD,
                       live := s.live + if size > 0 then [Block(at, size, align)] else [])
               else s
  {
    hide Padding;
  }

  class BearArena {
    const base: nat
    const cap: nat
    var ptr: nat
    var used: nat
    var peak: nat
    ghost var live: seq<Block>

    ghost function Abs(): State reads this { State(base, cap, used, live) }

    /** The bump pointer agrees with the count of used bytes. */
    ghost predicate Valid()
      reads this
    {
      0 < base && base + cap < WORD && used <= cap && ptr == base + used
    }

    constructor (backing: nat, size: nat)
      requires 0 < backing && backing + size < WORD
      ensures Valid() && Abs() == State(backing, size, 0, []) && peak == 0
    {
      base, ptr, cap, used, peak, live := backing, backing, size, 0, 0, [];
    }

    /** The address of the new block, or 0 when there is no room. */
    method Alloc(size: nat, align: nat) returns (out: nat)
      requires Valid() && size < WORD && align < WORD
      modifies this`ptr, this`used, this`live
      ensures Valid() && Abs() == Grown(old(Abs()), size, align)
      ensures out == if Granted(old(Abs()), size, align) then Given(old(Abs()), size, align).at else 0
      ensures Good(old(Abs())) && IsAlign(align) && Need(old(Abs()), size, align) < WORD ==> Good(Abs())
    {
      hide Good, IsAlign, Padding, Grown, Granted, Given, Need;
      ghost var s := Abs();
      GrantKeeps(s, size, align);
      GrantParts(s, size, align);
      var padding := Padding(ptr, align);
      if (used + padding + size) % WORD > cap {
        return 0;
      }
      Bump(base, used, padding, size, cap);
      ptr := (ptr + padding) % WORD;
      out := ptr;
      ptr := (ptr + size) % WORD;
      used := (used + padding + size) % WORD;
      live := live + if size > 0 then [Block(out, size, align)] else [];
    }

    method ScratchBegin() returns (mark: nat)
      requires Valid()
      ensures mark == used <= cap
    {
      mark := used;
    }

    method ScratchEnd(mark: nat)
      requires Valid() && mark <= cap
      modifies this`ptr, this`used, this`live
      ensures Valid() && Abs() == Release(old(Abs()), mark)
      ensures Good(old(Abs())) ==> Good(Abs())
    {
      if Good(Abs()) {
        ReleaseKeeps(Abs(), mark);
      }
      ptr := base + mark;
      used := mark;
      live := Below(live, base + mark);
    }

    method Reset()
      requires Valid()
      modifies this
      ensures Valid() && Abs() == Emptied(old(Abs())) && Good(Abs())
      ensures peak == if old(used) > old(peak) then old(used) else old(peak)
    {
      if used > peak {
        peak := used;
      }
      ptr := base;
      used := 0;
      live := [];
    }
  }
}
