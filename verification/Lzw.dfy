/** The LZW decoder of the GIF loader, and the encoder of GIF89a Appendix F it must invert. */
module Lzw {
  import opened Bits

  const TABLE_SIZE := 4096
  const MAX_WIDTH := 12

  function ClearCode(m: nat): nat { Pow2(m) }

  function EoiCode(m: nat): nat { Pow2(m) + 1 }

  function FirstFree(m: nat): nat { Pow2(m) + 2 }

  lemma FirstFreeFits(m: nat)
    requires m <= 11
    ensures FirstFree(m) <= 2050
  {
    Pow2Mono(m, 11);
    Pow2Values();
  }

  // ---- The decoder's dictionary ------------------------------------------------

  /** Parent links lead to smaller entries, and an entry without a parent is its own byte. */
  predicate IsTable(parent: seq<int>, suffix: seq<Byte>) {
    && |parent| == |suffix| <= TABLE_SIZE
    && forall i :: 0 <= i < |parent| ==> -1 <= parent[i] < i && (parent[i] == -1 ==> suffix[i] == i % 256)
  }

  /** The string of an entry: the suffix bytes from the root of its chain down to it. */
  function Chain(parent: seq<int>, suffix: seq<Byte>, c: nat): (s: seq<Byte>)
    requires IsTable(parent, suffix) && c < |parent|
    ensures 0 < |s| <= c + 1
    decreases c
  {
    if parent[c] == -1 then [suffix[c]] else Chain(parent, suffix, parent[c]) + [suffix[c]]
  }

  function Root(parent: seq<int>, suffix: seq<Byte>, c: nat): (r: nat)
    requires IsTable(parent, suffix) && c < |parent|
    ensures r < |parent| && parent[r] == -1
    decreases c
  {
    if parent[c] == -1 then c else Root(parent, suffix, parent[c])
  }

  /** The root the decoder walks to names the first byte of the entry's string. */
  lemma {:induction false} RootIsFirstByte(parent: seq<int>, suffix: seq<Byte>, c: nat)
    requires IsTable(parent, suffix) && c < |parent|
    ensures Chain(parent, suffix, c)[0] == Root(parent, suffix, c) % 256
    decreases c
  {
    if parent[c] != -1 {
      RootIsFirstByte(parent, suffix, parent[c]);
    }
  }

  /** Appending an entry leaves the strings of the others alone. */
  lemma {:induction false} ChainAppend(parent: seq<int>, suffix: seq<Byte>, p: int, b: Byte, c: nat)
    requires IsTable(parent, suffix) && IsTable(parent + [p], suffix + [b]) && c < |parent|
    ensures Chain(parent + [p], suffix + [b], c) == Chain(parent, suffix, c)
    decreases c
  {
    if parent[c] != -1 {
      ChainAppend(parent, suffix, p, b, parent[c]);
    }
  }

  // ---- The decoder as a machine on bits ------------------------------------------

  /** `parent` and `suffix` hold the entries written since the last clear code. */
  datatype Decoder = Decoder(parent: seq<int>, suffix: seq<Byte>, prev: int, width: nat)

  /** `Undefined`: the C code would read a table entry that was not written since the last clear. */
  datatype Outcome = Ok(out: seq<Byte>) | Undefined

  predicate Valid(m: nat, d: Decoder) {
    && m <= 11
    && IsTable(d.parent, d.suffix)
    && (d.parent != [] ==> FirstFree(m) <= |d.parent|)
    && -1 <= d.prev
    && 1 <= d.width <= MAX_WIDTH
  }

  function Start(m: nat): Decoder { Decoder([], [], -1, m + 1) }

  function Cleared(m: nat): Decoder {
    Decoder(seq(FirstFree(m), _ => -1), seq(FirstFree(m), i => i % 256), -1, m + 1)
  }

  lemma StartValid(m: nat)
    requires m <= 11
    ensures Valid(m, Start(m)) && Valid(m, Cleared(m))
  {
    FirstFreeFits(m);
  }

  predicate Readable(m: nat, d: Decoder, code: nat) {
    code == ClearCode(m) ||
    (d.parent != [] && (if d.prev == -1 then code < |d.parent| else d.prev < |d.parent|))
  }

  /** What the loop emits for a code other than end-of-information. */
  function Emitted(m: nat, d: Decoder, code: nat): seq<Byte>
    requires Valid(m, d) && Readable(m, d, code)
  {
    if code == ClearCode(m) then []
    else if code < |d.parent| then Chain(d.parent, d.suffix, code)
    else Chain(d.parent, d.suffix, d.prev) + [Root(d.parent, d.suffix, d.prev) % 256]
  }

  function Absorb(m: nat, d: Decoder, code: nat): (d': Decoder)
    requires Valid(m, d) && Readable(m, d, code)
    ensures Valid(m, d')
  {
    if code == ClearCode(m) then StartValid(m); Cleared(m)
    else if d.prev == -1 then d.(prev := code)
    else
      var first := Root(d.parent, d.suffix, if code < |d.parent| then code else d.prev) % 256;
      var e := if |d.parent| < TABLE_SIZE
               then d.(parent := d.parent + [d.prev], suffix := d.suffix + [first]) else d;
      e.(prev := code,
         width := if |e.parent| == Pow2(d.width) && d.width < MAX_WIDTH then d.width + 1 else d.width)
  }

  /** The loop guard: some whole byte has not been loaded into the bit buffer yet. */
  predicate HasByte(pos: nat, total: nat) { (pos + 7) / 8 < total / 8 }

  function DecodeBits(m: nat, d: Decoder, bits: seq<bool>, pos: nat, acc: seq<Byte>): (r: Outcome)
    requires Valid(m, d) && pos <= |bits|
    decreases |bits| - pos
  {
    if !HasByte(pos, |bits|) || pos + d.width > |bits| then Ok(acc)
    else
      var code := Val(bits[pos..pos + d.width]);
      if code == EoiCode(m) then Ok(acc)
      else if !Readable(m, d, code) then Undefined
      else DecodeBits(m, Absorb(m, d, code), bits, pos + d.width, acc + Emitted(m, d, code))
  }

  function Decode(m: nat, data: seq<Byte>): (r: Outcome)
    requires m <= 11
  {
    StartValid(m);
    DecodeBits(m, Start(m), BytesToBits(data), 0, [])
  }

  /** The same machine fed with codes instead of bits. */
  function DecodeCodes(m: nat, d: Decoder, codes: seq<nat>, acc: seq<Byte>): (r: Outcome)
    requires Valid(m, d)
    decreases |codes|
  {
    if codes == [] || codes[0] == EoiCode(m) then Ok(acc)
    else if !Readable(m, d, codes[0]) then Undefined
    else DecodeCodes(m, Absorb(m, d, codes[0]), codes[1..], acc + Emitted(m, d, codes[0]))
  }

  /** One turn of the loop. */
  lemma BitsTurn(m: nat, d: Decoder, bits: seq<bool>, pos: nat, acc: seq<Byte>, code: nat)
    requires Valid(m, d) && HasByte(pos, |bits|) && pos + d.width <= |bits|
    requires code == Val(bits[pos..pos + d.width]) && code != EoiCode(m) && Readable(m, d, code)
    ensures DecodeBits(m, d, bits, pos, acc)
         == DecodeBits(m, Absorb(m, d, code), bits, pos + d.width, acc + Emitted(m, d, code))
  {
    hide Absorb, Emitted, Readable, Val, HasByte, Valid;
  }

  lemma CodesTurn(m: nat, d: Decoder, codes: seq<nat>, k: nat, acc: seq<Byte>)
    requires Valid(m, d) && 0 < k <= |codes| && codes[0] != EoiCode(m) && Readable(m, d, codes[0])
    ensures DecodeCodes(m, d, codes[..k], acc)
         == DecodeCodes(m, Absorb(m, d, codes[0]), codes[1..][..k - 1], acc + Emitted(m, d, codes[0]))
  {
    assert codes[..k][1..] == codes[1..][..k - 1];
  }

  /**
    * Until there are 4096 entries every data code but the first adds one: the previous code followed by the first
    * byte of what the code emits.
    */
  lemma TableGrows(m: nat, d: Decoder, code: nat)
    requires Valid(m, d) && Readable(m, d, code) && IsData(m, code)
    ensures var t := Absorb(m, d, code);
            && t.prev == code
            && if d.prev == -1 || |d.parent| == 4096 then t.parent == d.parent && t.suffix == d.suffix
               else |t.parent| == |d.parent| + 1 <= 4096 && t.parent == d.parent + [d.prev]
                    && Emitted(m, d, code) != [] && t.suffix == d.suffix + [Emitted(m, d, code)[0]]
  {
    hide Root, Chain;
    if d.prev != -1 {
      RootIsFirstByte(d.parent, d.suffix, if code < |d.parent| then code else d.prev);
    }
  }

  /** A code without an entry, the next one or any above it, emits the previous string and its own first byte. */
  lemma NewCodeEmits(m: nat, d: Decoder, code: nat)
    requires Valid(m, d) && Readable(m, d, code) && IsData(m, code) && code >= |d.parent|
    ensures 0 <= d.prev < |d.parent|
    ensures var p := Chain(d.parent, d.suffix, d.prev); Emitted(m, d, code) == p + [p[0]]
  {
    RootIsFirstByte(d.parent, d.suffix, d.prev);
  }

  // ---- The encoder of Appendix F ---------------------------------------------------

  /** Codes have at most 12 bits. */
  const ALL_CODES := 4096

  /** Least width of at least m + 1 bits in which n codes can be written. */
  function CodeBits(m: nat, n: nat): (w: nat)
    ensures m < w && n <= Pow2(w)
    ensures w == m + 1 || Pow2(w - 1) < n
  {
    BitsFrom(m + 1, n)
  }

  function BitsFrom(v: nat, n: nat): (w: nat)
    ensures v <= w && n <= Pow2(w)
    ensures w == v || Pow2(w - 1) < n
    decreases n - Pow2(v)
  {
    if n <= Pow2(v) then v else BitsFrom(v + 1, n)
  }

  function InitDict(m: nat): (e: seq<seq<Byte>>)
    requires m <= 8
  {
    Pow2Mono(m, 8);
    Pow2Values();
    seq(FirstFree(m), i requires 0 <= i => if i < Pow2(m) then [i] else [])
  }

  function Min(a: nat, b: nat): nat { if a < b then a else b }

  /** The dictionary after `w` was sent and `rest` remains: the slot for `w` and the next byte. */
  function Extend(e: seq<seq<Byte>>, w: seq<Byte>, rest: seq<Byte>): seq<seq<Byte>> {
    if |e| < ALL_CODES then e + [w + rest[..Min(1, |rest|)]] else e
  }

  /**
    * `codes` is what some encoder may send for `s`: it sends any entry that starts the remaining
    * text, may send a clear code at any time, and ends with the end-of-information code.
    */
  predicate Encodes(m: nat, e: seq<seq<Byte>>, s: seq<Byte>, codes: seq<nat>)
    requires m <= 8
    decreases |codes|
  {
    && codes != []
    && if codes[0] == EoiCode(m) then s == [] && |codes| == 1
       else if codes[0] == ClearCode(m) then Encodes(m, InitDict(m), s, codes[1..])
       else
         && codes[0] < |e|
         && e[codes[0]] != []
         && e[codes[0]] <= s
         && Encodes(m, Extend(e, e[codes[0]], s[|e[codes[0]]|..]), s[|e[codes[0]]|..], codes[1..])
  }

  function NextSize(m: nat, n: nat, code: nat): nat {
    if code == ClearCode(m) then FirstFree(m) else Min(ALL_CODES, n + 1)
  }

  /** Each code in as many bits as the dictionary's largest code needs. */
  function Pack(m: nat, n: nat, codes: seq<nat>): seq<bool>
    decreases |codes|
  {
    if codes == [] then []
    else ToBits(codes[0], CodeBits(m, n)) + Pack(m, NextSize(m, n, codes[0]), codes[1..])
  }

  predicate IsData(m: nat, code: nat) { code != ClearCode(m) && code != EoiCode(m) }

  predicate HasData(m: nat, codes: seq<nat>) {
    exists i :: 0 <= i < |codes| && IsData(m, codes[i])
  }

  /** The bit at which the last code that carries text starts. */
  function LastDataBit(m: nat, n: nat, codes: seq<nat>): nat
    decreases |codes|
  {
    if codes == [] || !HasData(m, codes[1..]) then 0
    else CodeBits(m, n) + LastDataBit(m, NextSize(m, n, codes[0]), codes[1..])
  }

  // ---- Decoder and encoder stay in step ----------------------------------------------

  ghost predicate SameStrings(m: nat, d: Decoder, e: seq<seq<Byte>>)
    requires Valid(m, d)
  {
    && FirstFree(m) <= |d.parent| <= |e| <= ALL_CODES
    && e[ClearCode(m)] == [] && e[EoiCode(m)] == []
    && forall c :: 0 <= c < |d.parent| && IsData(m, c) ==> e[c] == Chain(d.parent, d.suffix, c)
  }

  /** The decoder's width is the encoder's when the encoder knows n codes. */
  predicate WidthInStep(m: nat, d: Decoder, n: nat) {
    && d.width == CodeBits(m, n)
    && if d.prev == -1 then n == FirstFree(m) && (d.parent == [] || |d.parent| == n)
       else FirstFree(m) <= |d.parent| && n == Min(ALL_CODES, |d.parent| + 1)
  }

  /**
    * The decoder's dictionary is the encoder's without its newest entry, and that entry is the
    * previous string followed by the next byte of the text.
    */
  ghost predicate InStep(m: nat, d: Decoder, e: seq<seq<Byte>>, s: seq<Byte>)
    requires Valid(m, d)
  {
    && SameStrings(m, d, e)
    && WidthInStep(m, d, |e|)
    && (d.prev != -1 ==>
          && d.prev < |d.parent|
          && IsData(m, d.prev)
          && (|d.parent| < ALL_CODES ==>
                e[|d.parent|] == Chain(d.parent, d.suffix, d.prev) + s[..Min(1, |s|)]))
  }

  lemma ClearedInStep(m: nat, s: seq<Byte>)
    requires 1 <= m <= 8
    ensures Valid(m, Cleared(m)) && InStep(m, Cleared(m), InitDict(m), s)
  {
    StartValid(m);
    FirstFreeFits(m);
    Pow2Mono(m, 8);
    Pow2Values();
    Pow2Mono(1, m);
    var d := Cleared(m);
    forall c | 0 <= c < FirstFree(m) && IsData(m, c)
      ensures InitDict(m)[c] == Chain(d.parent, d.suffix, c)
    {
    }
  }

  /** The code the encoder sends next makes the decoder emit the same string. */
  lemma StepEmits(m: nat, d: Decoder, e: seq<seq<Byte>>, s: seq<Byte>, code: nat)
    requires Valid(m, d) && InStep(m, d, e, s)
    requires code < |e| && e[code] != [] && e[code] <= s
    ensures IsData(m, code) && Readable(m, d, code)
    ensures Emitted(m, d, code) == e[code]
  {
    if code == |d.parent| {
      var p := Chain(d.parent, d.suffix, d.prev);
      RootIsFirstByte(d.parent, d.suffix, d.prev);
      assert e[code] == p + [s[0]];
      assert e[code][0] == p[0] == s[0];
    }
  }

  lemma WidthFollows(m: nat, w: nat, n: nat)
    requires 2 <= m <= 8 && FirstFree(m) <= n < ALL_CODES && w == CodeBits(m, n)
    ensures w <= 12
    ensures CodeBits(m, n + 1) == if n == Pow2(w) then w + 1 else w
    ensures n == FirstFree(m) ==> n != Pow2(w)
  {
    Pow2Values();
    if w > 12 {
      Pow2Mono(12, w - 1);
    }
    var v := CodeBits(m, n + 1);
    if v > w + 1 { Pow2Mono(w + 1, v - 1); }
    if v < w { Pow2Mono(v, w - 1); }
    Pow2Mono(2, m);
    Pow2Mono(m + 1, w);
  }

  lemma WidthFull(m: nat, w: nat)
    requires m <= 11 && w == CodeBits(m, ALL_CODES)
    ensures w == 12
  {
    Pow2Values();
    if w > 12 { Pow2Mono(12, w - 1); }
    if w < 12 { Pow2Mono(w, 11); }
  }

  lemma WidthCleared(m: nat)
    requires 1 <= m <= 11
    ensures CodeBits(m, FirstFree(m)) == m + 1
  {
    Pow2Mono(1, m);
  }

  /** After every code the decoder and the encoder use the same width. */
  lemma WidthStays(m: nat, d: Decoder, n: nat, code: nat)
    requires 2 <= m <= 8 && Valid(m, d) && WidthInStep(m, d, n) && Readable(m, d, code)
    ensures WidthInStep(m, Absorb(m, d, code), NextSize(m, n, code))
  {
    hide Root, IsTable, CodeBits;
    FirstFreeFits(m);
    if code == ClearCode(m) {
      WidthCleared(m);
    } else if n < ALL_CODES {
      WidthFollows(m, d.width, n);
      assert n == Pow2(d.width) ==> d.width < MAX_WIDTH by { Pow2Values(); }
    } else {
      WidthFull(m, d.width);
    }
  }

  /** The entry the decoder adds is the one the encoder added a code earlier. */
  lemma StepEntry(m: nat, d: Decoder, e: seq<seq<Byte>>, s: seq<Byte>, code: nat)
    requires Valid(m, d) && InStep(m, d, e, s) && d.prev != -1 && |d.parent| < TABLE_SIZE
    requires code < |e| && e[code] != [] && e[code] <= s
    requires Readable(m, d, code) && Emitted(m, d, code) == e[code]
    ensures var d' := Absorb(m, d, code);
            && SameStrings(m, d', e)
            && (forall c :: 0 <= c < |d.parent| ==>
                 Chain(d'.parent, d'.suffix, c) == Chain(d.parent, d.suffix, c))
  {
    var d' := Absorb(m, d, code);
    var n := |d.parent|;
    var b := d'.suffix[n];
    forall c | 0 <= c < n
      ensures Chain(d'.parent, d'.suffix, c) == Chain(d.parent, d.suffix, c)
    {
      ChainAppend(d.parent, d.suffix, d.prev, b, c);
    }
    assert b == s[0] by {
      RootIsFirstByte(d.parent, d.suffix, if code < n then code else d.prev);
    }
    assert Chain(d'.parent, d'.suffix, n) == e[n];
  }

  /** The encoder's newest entry after sending `code`. */
  lemma StepNewest(m: nat, d: Decoder, e: seq<seq<Byte>>, s: seq<Byte>, code: nat)
    requires Valid(m, d) && InStep(m, d, e, s)
    requires code < |e| && e[code] != [] && e[code] <= s && IsData(m, code)
    requires Readable(m, d, code) && Emitted(m, d, code) == e[code]
    ensures var d', rest := Absorb(m, d, code), s[|e[code]|..];
            var e' := Extend(e, e[code], rest);
            && SameStrings(m, d', e')
            && d'.prev == code < |d'.parent|
            && (|d'.parent| < ALL_CODES ==>
                  |e'| > |d'.parent|
                  && e'[|d'.parent|] == Chain(d'.parent, d'.suffix, code) + rest[..Min(1, |rest|)])
  {
    hide CodeBits, Root;
    if d.prev != -1 && |d.parent| < TABLE_SIZE {
      StepEntry(m, d, e, s, code);
    }
  }

  /** One data code later the two dictionaries and the two widths still agree. */
  lemma StepKeepsInStep(m: nat, d: Decoder, e: seq<seq<Byte>>, s: seq<Byte>, code: nat)
    requires 2 <= m <= 8 && Valid(m, d) && InStep(m, d, e, s)
    requires code < |e| && e[code] != [] && e[code] <= s && IsData(m, code)
    requires Readable(m, d, code) && Emitted(m, d, code) == e[code]
    ensures InStep(m, Absorb(m, d, code), Extend(e, e[code], s[|e[code]|..]), s[|e[code]|..])
  {
    WidthStays(m, d, |e|, code);
    StepNewest(m, d, e, s, code);
    assert |Extend(e, e[code], s[|e[code]|..])| == NextSize(m, |e|, code);
    hide Absorb, SameStrings, WidthInStep, Emitted, Chain;
  }

  // ---- Round trip on codes -------------------------------------------------------------

  lemma HasDataCons(m: nat, codes: seq<nat>)
    requires codes != []
    ensures HasData(m, codes) <==> IsData(m, codes[0]) || HasData(m, codes[1..])
  {
    if HasData(m, codes) {
      var i :| 0 <= i < |codes| && IsData(m, codes[i]);
      assert i > 0 ==> IsData(m, codes[1..][i - 1]);
    }
    if HasData(m, codes[1..]) {
      var i :| 0 <= i < |codes[1..]| && IsData(m, codes[1..][i]);
      assert IsData(m, codes[i + 1]);
    }
  }

  lemma {:induction false} DataIffText(m: nat, e: seq<seq<Byte>>, s: seq<Byte>, codes: seq<nat>)
    requires m <= 8 && Encodes(m, e, s, codes)
    ensures HasData(m, codes) <==> s != []
    decreases |codes|
  {
    HasDataCons(m, codes);
    if codes[0] == ClearCode(m) {
      DataIffText(m, InitDict(m), s, codes[1..]);
    }
  }

  /**
    * Decoding the first k codes some encoder sends for `s` gives all of `s` just when no code
    * after them carries text; with all codes it gives `s`.
    */
  lemma {:induction false} CodesRoundTrip(m: nat, d: Decoder, e: seq<seq<Byte>>, s: seq<Byte>, codes: seq<nat>,
                                          k: nat, acc: seq<Byte>)
    requires 2 <= m <= 8 && Valid(m, d) && InStep(m, d, e, s) && Encodes(m, e, s, codes) && k <= |codes|
    ensures var r := DecodeCodes(m, d, codes[..k], acc);
            r.Ok? && (r.out == acc + s <==> !HasData(m, codes[k..]))
    decreases |codes|
  {
    hide InStep, Valid, Encodes, DecodeCodes, HasData, Readable, Absorb, Emitted, CodeBits;
    EncodesStarts(m, e, s, codes);
    if k == 0 || codes[0] == EoiCode(m) {
      NothingDecoded(m, d, e, s, codes, k, acc);
    } else {
      assert codes[k..] == codes[1..][k - 1..];
      if codes[0] == ClearCode(m) {
        ClearRoundTrip(m, d, e, s, codes, k, acc);
      } else {
        DataRoundTrip(m, d, e, s, codes, k, acc);
      }
      CodesTurn(m, d, codes, k, acc);
    }
  }

  lemma EncodesStarts(m: nat, e: seq<seq<Byte>>, s: seq<Byte>, codes: seq<nat>)
    requires m <= 8 && Encodes(m, e, s, codes)
    ensures codes != []
  {
  }

  /** No code, or the end-of-information code alone. */
  lemma NothingDecoded(m: nat, d: Decoder, e: seq<seq<Byte>>, s: seq<Byte>, codes: seq<nat>, k: nat, acc: seq<Byte>)
    requires 2 <= m <= 8 && Valid(m, d) && Encodes(m, e, s, codes) && k <= |codes|
    requires k == 0 || codes[0] == EoiCode(m)
    ensures DecodeCodes(m, d, codes[..k], acc) == Ok(acc)
    ensures acc == acc + s <==> !HasData(m, codes[k..])
  {
    DataIffText(m, e, s, codes);
    assert |acc + s| == |acc| + |s|;
    if k == 0 {
      assert codes[0..] == codes;
    } else {
      assert codes[k..] == [];
    }
  }

  lemma {:induction false} ClearRoundTrip(m: nat, d: Decoder, e: seq<seq<Byte>>, s: seq<Byte>, codes: seq<nat>,
                                          k: nat, acc: seq<Byte>)
    requires 2 <= m <= 8 && Valid(m, d) && Encodes(m, e, s, codes) && 0 < k <= |codes| && codes[0] == ClearCode(m)
    ensures Readable(m, d, codes[0])
    ensures var r := DecodeCodes(m, Absorb(m, d, codes[0]), codes[1..][..k - 1], acc + Emitted(m, d, codes[0]));
            r.Ok? && (r.out == acc + s <==> !HasData(m, codes[1..][k - 1..]))
    decreases |codes|, 0
  {
    hide InStep, Valid, DecodeCodes, HasData, Extend, InitDict;
    assert Encodes(m, InitDict(m), s, codes[1..]);
    ClearedInStep(m, s);
    assert acc + [] == acc;
    CodesRoundTrip(m, Cleared(m), InitDict(m), s, codes[1..], k - 1, acc);
  }

  lemma {:induction false} DataRoundTrip(m: nat, d: Decoder, e: seq<seq<Byte>>, s: seq<Byte>, codes: seq<nat>,
                                         k: nat, acc: seq<Byte>)
    requires 2 <= m <= 8 && Valid(m, d) && InStep(m, d, e, s) && Encodes(m, e, s, codes) && 0 < k <= |codes|
    requires IsData(m, codes[0])
    ensures Readable(m, d, codes[0])
    ensures var r := DecodeCodes(m, Absorb(m, d, codes[0]), codes[1..][..k - 1], acc + Emitted(m, d, codes[0]));
            r.Ok? && (r.out == acc + s <==> !HasData(m, codes[1..][k - 1..]))
    decreases |codes|, 0
  {
    hide InStep, Valid, Absorb, Emitted, Readable, DecodeCodes, HasData, Extend, InitDict;
    assert e[codes[0]] != [] && e[codes[0]] <= s;
    var text := e[codes[0]];
    var rest := s[|text|..];
    StepEmits(m, d, e, s, codes[0]);
    StepKeepsInStep(m, d, e, s, codes[0]);
    assert acc + s == acc + text + rest by { assert s == text + rest; }
    assert Encodes(m, Extend(e, text, rest), rest, codes[1..]);
    CodesRoundTrip(m, Absorb(m, d, codes[0]), Extend(e, text, rest), rest, codes[1..], k - 1, acc + text);
  }

  // ---- The bit reader --------------------------------------------------------------------

  /** Every code fits the width it is written in. */
  predicate CodesFit(m: nat, n: nat, codes: seq<nat>)
    decreases |codes|
  {
    codes == [] || (codes[0] < Pow2(CodeBits(m, n)) && CodesFit(m, NextSize(m, n, codes[0]), codes[1..]))
  }

  /** How many codes the loop reads before it runs out of bytes to load. */
  function CodesRead(m: nat, n: nat, codes: seq<nat>, pos: nat, total: nat): (k: nat)
    ensures k <= |codes|
    decreases |codes|
  {
    if codes == [] || !HasByte(pos, total) then 0
    else 1 + CodesRead(m, NextSize(m, n, codes[0]), codes[1..], pos + CodeBits(m, n), total)
  }

  lemma TakePrefix(a: seq<bool>, b: seq<bool>, bits: seq<bool>, pos: nat)
    requires pos <= |bits| && a + b <= bits[pos..]
    ensures pos + |a| <= |bits|
    ensures bits[pos..pos + |a|] == a
    ensures b <= bits[pos + |a|..]
  {
    assert bits[pos..pos + |a|] == (a + b)[..|a|];
    assert bits[pos..][|a|..] == bits[pos + |a|..];
    assert b == (a + b)[|a|..];
  }

  /** Reading the next code of a packed stream. */
  lemma ReadsCode(m: nat, n: nat, codes: seq<nat>, bits: seq<bool>, pos: nat)
    requires codes != [] && codes[0] < Pow2(CodeBits(m, n))
    requires pos <= |bits| && Pack(m, n, codes) <= bits[pos..]
    ensures var w := CodeBits(m, n);
            && pos + w <= |bits|
            && Val(bits[pos..pos + w]) == codes[0]
            && Pack(m, NextSize(m, n, codes[0]), codes[1..]) <= bits[pos + w..]
  {
    hide CodeBits, Pow2, Val, ToBits;
    var w := CodeBits(m, n);
    var q := Pack(m, NextSize(m, n, codes[0]), codes[1..]);
    assert Pack(m, n, codes) == ToBits(codes[0], w) + q;
    hide Pack;
    ValToBits(codes[0], w);
    TakePrefix(ToBits(codes[0], w), q, bits, pos);
  }

  lemma WidthIs(m: nat, d: Decoder, n: nat)
    requires WidthInStep(m, d, n)
    ensures d.width == CodeBits(m, n)
  {
  }

  /**
    * The bit reader with its width rule recovers the codes of any packed stream that ends with
    * the end-of-information code, as far as it reads.
    */
  lemma {:induction false} ReaderRecoversCodes(m: nat, d: Decoder, n: nat, codes: seq<nat>,
                                               bits: seq<bool>, pos: nat, acc: seq<Byte>)
    requires 2 <= m <= 8 && Valid(m, d) && WidthInStep(m, d, n)
    requires CodesFit(m, n, codes) && codes != [] && codes[|codes| - 1] == EoiCode(m)
    requires pos <= |bits| && Pack(m, n, codes) <= bits[pos..]
    ensures DecodeBits(m, d, bits, pos, acc)
         == DecodeCodes(m, d, codes[..CodesRead(m, n, codes, pos, |bits|)], acc)
    decreases |codes|
  {
    hide Valid, Absorb, Emitted, Readable, WidthInStep, Val, Pow2, DecodeBits, DecodeCodes, Pack, CodesRead, CodesFit,
         CodeBits, NextSize, HasByte;
    WidthIs(m, d, n);
    FirstFits(m, n, codes);
    ReadsCode(m, n, codes, bits, pos);
    if HasByte(pos, |bits|) && codes[0] != EoiCode(m) && Readable(m, d, codes[0]) {
      var k, n' := CodesRead(m, n, codes, pos, |bits|), NextSize(m, n, codes[0]);
      FirstRead(m, n, codes, pos, |bits|);
      BitsTurn(m, d, bits, pos, acc, codes[0]);
      CodesTurn(m, d, codes, k, acc);
      WidthStays(m, d, n, codes[0]);
      assert codes[1..][|codes| - 2] == codes[|codes| - 1] || |codes| == 1;
      ReaderRecoversCodes(m, Absorb(m, d, codes[0]), n', codes[1..], bits, pos + d.width,
                          acc + Emitted(m, d, codes[0]));
    } else {
      ReaderStops(m, d, n, codes, bits, pos, acc);
    }
  }

  lemma FirstFits(m: nat, n: nat, codes: seq<nat>)
    requires CodesFit(m, n, codes) && codes != []
    ensures codes[0] < Pow2(CodeBits(m, n)) && CodesFit(m, NextSize(m, n, codes[0]), codes[1..])
  {
    hide CodeBits, Pow2, NextSize;
  }

  lemma FirstRead(m: nat, n: nat, codes: seq<nat>, pos: nat, total: nat)
    requires codes != [] && HasByte(pos, total)
    ensures CodesRead(m, n, codes, pos, total)
         == 1 + CodesRead(m, NextSize(m, n, codes[0]), codes[1..], pos + CodeBits(m, n), total)
  {
    hide CodeBits, NextSize, HasByte;
  }

  /** The two machines stop alike: out of bytes, at the end code, or where the outcome is undefined. */
  lemma ReaderStops(m: nat, d: Decoder, n: nat, codes: seq<nat>, bits: seq<bool>, pos: nat, acc: seq<Byte>)
    requires Valid(m, d) && codes != [] && d.width == CodeBits(m, n) && pos + d.width <= |bits|
    requires Val(bits[pos..pos + d.width]) == codes[0]
    requires !HasByte(pos, |bits|) || codes[0] == EoiCode(m) || !Readable(m, d, codes[0])
    ensures DecodeBits(m, d, bits, pos, acc)
         == DecodeCodes(m, d, codes[..CodesRead(m, n, codes, pos, |bits|)], acc)
  {
    hide CodeBits, NextSize, HasByte, Valid, Readable, Absorb, Emitted, Val;
    var k := CodesRead(m, n, codes, pos, |bits|);
    if HasByte(pos, |bits|) {
      assert codes[..k] != [] && codes[..k][0] == codes[0];
    }
  }

  /** What is left unread carries text just when the last such code starts too late. */
  lemma {:induction false} UnreadData(m: nat, n: nat, codes: seq<nat>, pos: nat, total: nat)
    ensures var k := CodesRead(m, n, codes, pos, total);
            HasData(m, codes[k..])
            <==> HasData(m, codes) && !HasByte(pos + LastDataBit(m, n, codes), total)
    decreases |codes|
  {
    var k := CodesRead(m, n, codes, pos, total);
    if codes != [] {
      HasDataCons(m, codes);
    }
    if k == 0 {
      assert codes[0..] == codes;
    } else {
      UnreadData(m, NextSize(m, n, codes[0]), codes[1..], pos + CodeBits(m, n), total);
      assert codes[k..] == codes[1..][k - 1..];
    }
  }

  /** Conforming codes always fit. */
  lemma {:induction false} EncodingFits(m: nat, e: seq<seq<Byte>>, s: seq<Byte>, codes: seq<nat>)
    requires m <= 8 && Encodes(m, e, s, codes) && FirstFree(m) <= |e| <= ALL_CODES
    ensures codes != [] && CodesFit(m, |e|, codes) && codes[|codes| - 1] == EoiCode(m)
    decreases |codes|
  {
    FirstFreeFits(m);
    if codes[0] == ClearCode(m) {
      EncodingFits(m, InitDict(m), s, codes[1..]);
    } else if codes[0] != EoiCode(m) {
      var text := e[codes[0]];
      EncodingFits(m, Extend(e, text, s[|text|..]), s[|text|..], codes[1..]);
    }
  }

  // ---- Round trip on bytes -----------------------------------------------------------------

  /** A conforming stream opens with a clear code. */
  predicate Conforms(m: nat, s: seq<Byte>, codes: seq<nat>)
    requires m <= 8
  {
    codes != [] && codes[0] == ClearCode(m) && Encodes(m, InitDict(m), s, codes[1..])
  }

  function PackStream(m: nat, codes: seq<nat>): seq<Byte> {
    PackBytes(Pack(m, FirstFree(m), codes))
  }

  /** How many codes of a packed stream the decoder reads. */
  function StreamRead(m: nat, codes: seq<nat>): (k: nat)
    ensures k <= |codes|
  {
    CodesRead(m, FirstFree(m), codes, 0, 8 * |PackStream(m, codes)|)
  }

  lemma ConformsParts(m: nat, s: seq<Byte>, codes: seq<nat>)
    requires 2 <= m <= 8 && Conforms(m, s, codes)
    ensures codes != [] && codes[0] == ClearCode(m) && Encodes(m, InitDict(m), s, codes[1..])
    ensures CodesFit(m, FirstFree(m), codes) && codes[|codes| - 1] == EoiCode(m)
    ensures HasData(m, codes) <==> s != []
  {
    FirstFreeFits(m);
    EncodingFits(m, InitDict(m), s, codes[1..]);
    assert FirstFree(m) <= Pow2(CodeBits(m, FirstFree(m)));
    hide Encodes, CodeBits, HasData;
    HasDataCons(m, codes);
    DataIffText(m, InitDict(m), s, codes[1..]);
  }

  lemma StreamDecodes(m: nat, s: seq<Byte>, codes: seq<nat>)
    requires 2 <= m <= 8 && Conforms(m, s, codes)
    ensures Valid(m, Start(m))
    ensures Decode(m, PackStream(m, codes)) == DecodeCodes(m, Start(m), codes[..StreamRead(m, codes)], [])
  {
    hide DecodeBits, DecodeCodes, Pack, Encodes, CodesRead, CodesFit, Conforms, PackBytes, BytesToBits, Valid,
         WidthInStep;
    var n := FirstFree(m);
    var bits := BytesToBits(PackStream(m, codes));
    PackRoundTrip(Pack(m, n, codes));
    StartInStep(m);
    ConformsParts(m, s, codes);
    assert bits[0..] == bits;
    ReaderRecoversCodes(m, Start(m), n, codes, bits, 0, []);
  }

  lemma StartInStep(m: nat)
    requires 1 <= m <= 11
    ensures Valid(m, Start(m)) && WidthInStep(m, Start(m), FirstFree(m))
  {
    StartValid(m);
    WidthCleared(m);
  }

  lemma StreamNotEmpty(m: nat, codes: seq<nat>)
    requires codes != []
    ensures PackStream(m, codes) != [] && StreamRead(m, codes) > 0
  {
    assert |Pack(m, FirstFree(m), codes)| >= CodeBits(m, FirstFree(m)) > 0;
  }

  lemma StreamUnread(m: nat, s: seq<Byte>, codes: seq<nat>)
    requires 2 <= m <= 8 && Conforms(m, s, codes)
    ensures HasData(m, codes[StreamRead(m, codes)..])
        <==> s != [] && !HasByte(LastDataBit(m, FirstFree(m), codes), 8 * |PackStream(m, codes)|)
  {
    hide Pack, Pow2, CodeBits, PackBytes, PackStream, HasData, HasByte, CodesRead, LastDataBit, Encodes, Conforms;
    ConformsParts(m, s, codes);
    UnreadData(m, FirstFree(m), codes, 0, 8 * |PackStream(m, codes)|);
  }

  /** For every text and every conforming encoder: the decoder, byte for byte, up to its loop guard. */
  lemma BytesRoundTrip(m: nat, s: seq<Byte>, codes: seq<nat>)
    requires 2 <= m <= 8 && Conforms(m, s, codes)
    ensures var data := PackStream(m, codes);
            && Decode(m, data).Ok?
            && (Decode(m, data).out == s
                <==> s == [] || HasByte(LastDataBit(m, FirstFree(m), codes), 8 * |data|))
  {
    hide InStep, Encodes, DecodeCodes, Decode, LastDataBit, HasByte, StreamRead, Conforms, PackStream, HasData,
         InitDict, CodesFit, Valid;
    ConformsParts(m, s, codes);
    StreamDecodes(m, s, codes);
    StreamNotEmpty(m, codes);
    StreamUnread(m, s, codes);
    ClearedInStep(m, s);
    var k := StreamRead(m, codes);
    CodesTurn(m, Start(m), codes, k, []);
    var none: seq<Byte> := [];
    assert none + [] == none;
    CodesRoundTrip(m, Cleared(m), InitDict(m), s, codes[1..], k - 1, []);
    assert codes[k..] == codes[1..][k - 1..];
    assert [] + s == s;
  }

  // ---- Bytes behind the stream --------------------------------------------------------------------

  lemma {:induction false} ReadsAll(m: nat, n: nat, codes: seq<nat>, pos: nat, total: nat)
    requires (pos + |Pack(m, n, codes)| + 7) / 8 < total / 8
    ensures CodesRead(m, n, codes, pos, total) == |codes|
    decreases |codes|
  {
    hide CodeBits, NextSize, ToBits;
    if codes != [] {
      var w, rest := CodeBits(m, n), Pack(m, NextSize(m, n, codes[0]), codes[1..]);
      assert |Pack(m, n, codes)| == w + |rest|;
      ReadsAll(m, NextSize(m, n, codes[0]), codes[1..], pos + w, total);
    }
  }

  lemma TailBits(bits: seq<bool>, junk: seq<Byte>)
    ensures var b := BytesToBits(PackBytes(bits) + junk);
            bits <= b && |b| == 8 * ((|bits| + 7) / 8 + |junk|)
  {
    hide PackBytes, BytesToBits;
    PackRoundTrip(bits);
    BitsConcat(PackBytes(bits), junk);
  }

  lemma {:induction false} BitsConcat(a: seq<Byte>, b: seq<Byte>)
    ensures BytesToBits(a + b) == BytesToBits(a) + BytesToBits(b)
  {
    hide ToBits;
    if a == [] {
      assert a + b == b;
    } else {
      BitsConcat(a[1..], b);
      assert (a + b)[1..] == a[1..] + b;
    }
  }

  /** With bytes behind it every conforming stream decodes to its text, and the bytes are ignored. */
  lemma TrailingBytesIgnored(m: nat, s: seq<Byte>, codes: seq<nat>, junk: seq<Byte>)
    requires 2 <= m <= 8 && Conforms(m, s, codes) && junk != []
    ensures Decode(m, PackStream(m, codes) + junk) == Ok(s)
  {
    hide DecodeBits, DecodeCodes, Pack, Encodes, CodesRead, CodesFit, Conforms, PackBytes, BytesToBits, Valid,
         WidthInStep, HasData, InStep, InitDict;
    var n := FirstFree(m);
    var bits := BytesToBits(PackStream(m, codes) + junk);
    TailBits(Pack(m, n, codes), junk);
    StartInStep(m);
    ConformsParts(m, s, codes);
    assert bits[0..] == bits;
    ReaderRecoversCodes(m, Start(m), n, codes, bits, 0, []);
    ReadsAll(m, n, codes, 0, |bits|);
    assert codes[..|codes|] == codes;
    AllCodesDecode(m, s, codes);
  }

  lemma AllCodesDecode(m: nat, s: seq<Byte>, codes: seq<nat>)
    requires 2 <= m <= 8 && Conforms(m, s, codes)
    ensures Valid(m, Start(m)) && DecodeCodes(m, Start(m), codes, []) == Ok(s)
  {
    hide InStep, Encodes, DecodeCodes, Conforms, HasData, InitDict, CodesFit, Valid;
    ConformsParts(m, s, codes);
    StartInStep(m);
    ClearedInStep(m, s);
    var k, none: seq<Byte> := |codes|, [];
    assert codes[..k] == codes && codes[1..][..k - 1] == codes[1..] && codes[1..][k - 1..] == [];
    CodesTurn(m, Start(m), codes, k, []);
    assert none + [] == none && none + s == s;
    CodesRoundTrip(m, Cleared(m), InitDict(m), s, codes[1..], k - 1, []);
    NoData(m);
  }

  lemma NoData(m: nat)
    ensures !HasData(m, [])
  {
  }

  /** The last code that carries text and the final code take at least m + 1 bits each. */
  lemma {:induction false} LastDataLeaves(m: nat, n: nat, codes: seq<nat>)
    requires HasData(m, codes) && codes[|codes| - 1] == EoiCode(m)
    ensures LastDataBit(m, n, codes) + 2 * (m + 1) <= |Pack(m, n, codes)|
    decreases |codes|
  {
    HasDataCons(m, codes);
    var n', rest := NextSize(m, n, codes[0]), codes[1..];
    assert |Pack(m, n, codes)| == CodeBits(m, n) + |Pack(m, n', rest)|;
    if HasData(m, rest) {
      LastDataLeaves(m, n', rest);
    } else {
      assert |Pack(m, n', rest)| >= CodeBits(m, n');
    }
  }

  /** With three or more bits per index no text is ever lost, whatever the encoder. */
  lemma DecodeInvertsEncode(m: nat, s: seq<Byte>, codes: seq<nat>)
    requires 3 <= m <= 8 && Conforms(m, s, codes)
    ensures Decode(m, PackStream(m, codes)) == Ok(s)
  {
    hide Pack, LastDataBit, Encodes, Decode, CodesFit, Conforms, HasData, InitDict, Pow2;
    ConformsParts(m, s, codes);
    BytesRoundTrip(m, s, codes);
    if s != [] {
      LastDataLeaves(m, FirstFree(m), codes);
    }
  }

  lemma ThreePixelCodes()
    ensures Conforms(2, [0, 1, 2], [4, 0, 1, 2, 5])
  {
    assert Pow2(2) == 4;
    var e0 := InitDict(2);
    var s2: seq<Byte>, s1: seq<Byte>, s0: seq<Byte> := [2], [1, 2], [0, 1, 2];
    assert s0[1..] == s1 && s1[1..] == s2 && s2[1..] == [];
    var e1 := Extend(e0, [0], s1);
    var e2 := Extend(e1, [1], s2);
    var c3: seq<nat>, c2: seq<nat>, c1: seq<nat>, c0: seq<nat> := [5], [2, 5], [1, 2, 5], [0, 1, 2, 5];
    assert c0[1..] == c1 && c1[1..] == c2 && c2[1..] == c3;
    assert Encodes(2, Extend(e2, [2], []), [], c3);
    assert Encodes(2, e2, s2, c2);
    assert Encodes(2, e1, s1, c1);
    assert Encodes(2, e0, s0, c0);
    assert [4, 0, 1, 2, 5][1..] == c0;
  }

  lemma ThreePixelWidths()
    ensures CodeBits(2, 6) == CodeBits(2, 7) == CodeBits(2, 8) == 3 && CodeBits(2, 9) == 4
    ensures ClearCode(2) == 4 && EoiCode(2) == 5 && FirstFree(2) == 6
  {
    assert Pow2(2) == 4 && Pow2(3) == 8 && Pow2(4) == 16;
  }

  lemma ThreePixelBits()
    ensures LastDataBit(2, 6, [4, 0, 1, 2, 5]) == 9
    ensures |Pack(2, 6, [4, 0, 1, 2, 5])| == 16
  {
    ThreePixelWidths();
    hide CodeBits, ClearCode, EoiCode, FirstFree, ToBits;
    var c3: seq<nat>, c2: seq<nat>, c1: seq<nat>, c0: seq<nat> := [5], [2, 5], [1, 2, 5], [0, 1, 2, 5];
    assert c3[1..] == [] && c2[1..] == c3 && c1[1..] == c2 && c0[1..] == c1 && [4, 0, 1, 2, 5][1..] == c0;
    assert IsData(2, c2[0]) && IsData(2, c1[0]) && IsData(2, c0[0]) && !HasData(2, c3);
    assert |Pack(2, 9, c3)| == 4 && |Pack(2, 8, c2)| == 7 && |Pack(2, 7, c1)| == 10 && |Pack(2, 6, c0)| == 13;
    assert LastDataBit(2, 8, c2) == 0 && LastDataBit(2, 7, c1) == 3 && LastDataBit(2, 6, c0) == 6;
  }

  /** With two bits per index the loop guard loses the third of these three pixels. */
  lemma TwoBitStreamLosesAPixel()
    ensures Conforms(2, [0, 1, 2], [4, 0, 1, 2, 5])
    ensures Decode(2, PackStream(2, [4, 0, 1, 2, 5])) != Ok([0, 1, 2])
  {
    assert FirstFree(2) == 6 by { assert Pow2(2) == 4; }
    ThreePixelCodes();
    ThreePixelBits();
    hide Pack, LastDataBit, Conforms;
    BytesRoundTrip(2, [0, 1, 2], [4, 0, 1, 2, 5]);
  }

  // ---- The loop of the loader ----------------------------------------------------------------

  /** The arrays hold the entries of `d` below `next`. */
  ghost predicate Holds(table: array<int>, suffix: array<Byte>, next: nat, m: nat, d: Decoder)
    reads table, suffix
  {
    && table.Length == suffix.Length == TABLE_SIZE
    && next <= TABLE_SIZE
    && (d.parent == [] ==> next == FirstFree(m))
    && (d.parent != [] ==> table[..next] == d.parent && suffix[..next] == d.suffix)
  }

  method FindRoot(table: array<int>, code: nat, ghost parent: seq<int>, ghost suffix: seq<Byte>) returns (c: nat)
    requires IsTable(parent, suffix) && code < |parent| <= table.Length && table[..|parent|] == parent
    ensures c == Root(parent, suffix, code)
  {
    c := code;
    while table[c] != -1
      invariant c < |parent|
      invariant Root(parent, suffix, c) == Root(parent, suffix, code)
      decreases c
    {
      assert table[c] == parent[c];
      c := table[c];
    }
    assert table[c] == parent[c];
  }

  /** Walks the chain onto a stack of 4096, then pops it into the output while there is room. */
  method Emit(table: array<int>, suffix: array<Byte>, code: nat, indices: array<Byte>, outLen: nat, cap: nat,
              ghost parent: seq<int>, ghost suf: seq<Byte>)
      returns (len: nat)
    requires IsTable(parent, suf) && code < |parent| <= table.Length == suffix.Length
    requires table[..|parent|] == parent && suffix[..|parent|] == suf
    requires suffix != indices && outLen <= cap < indices.Length
    modifies indices
    ensures len == Min(cap, outLen + |Chain(parent, suf, code)|)
    ensures indices[..len] == (old(indices[..outLen]) + Chain(parent, suf, code))[..len]
  {
    hide Chain, IsTable;
    ghost var text := Chain(parent, suf, code);
    var stack := new Byte[4096];
    var sp := PushChain(table, suffix, code, stack, parent, suf);
    len := outLen;
    ghost var before := old(indices[..outLen]);
    while sp > 0 && len < cap
      invariant 0 <= sp <= |text| && len == outLen + (|text| - sp) && len <= cap
      invariant forall i :: 0 <= i < sp ==> stack[i] == text[|text| - 1 - i]
      invariant indices[..len] == before + text[..|text| - sp]
    {
      sp := sp - 1;
      indices[len] := stack[sp];
      len := len + 1;
      assert text[..|text| - sp] == text[..|text| - sp - 1] + [stack[sp]];
    }
  }

  /** Puts an entry's string on the stack, its last byte first; 4096 slots are always enough. */
  method PushChain(table: array<int>, suffix: array<Byte>, code: nat, stack: array<Byte>,
                   ghost parent: seq<int>, ghost suf: seq<Byte>) returns (sp: nat)
    requires IsTable(parent, suf) && code < |parent| <= table.Length == suffix.Length
    requires table[..|parent|] == parent && suffix[..|parent|] == suf
    requires stack.Length == 4096 && stack != suffix
    modifies stack
    ensures sp == |Chain(parent, suf, code)| <= 4096
    ensures forall i :: 0 <= i < sp ==> i < stack.Length && stack[i] == Chain(parent, suf, code)[sp - 1 - i]
  {
    sp := 0;
    var c := code as int;
    ghost var text := Chain(parent, suf, code);
    while c >= 0 && sp < 4096
      invariant -1 <= c <= code - sp && sp <= |text| <= 4096
      invariant c == -1 ==> sp == |text|
      invariant c >= 0 ==> Chain(parent, suf, c) == text[..|text| - sp]
      invariant forall i :: 0 <= i < sp ==> stack[i] == text[|text| - 1 - i]
      decreases c
    {
      assert table[c] == parent[c] && suffix[c] == suf[c];
      assert Chain(parent, suf, c)[|text| - sp - 1] == suf[c];
      stack[sp] := suffix[c];
      sp := sp + 1;
      c := table[c];
      assert c >= 0 ==> Chain(parent, suf, c) == text[..|text| - sp + 1][..|text| - sp];
    }
  }

  /** The bit buffer holds the bits from `pos` to the end of the last byte fetched. */
  ghost predicate Buffered(lzw: seq<Byte>, bitbuf: nat, bitcnt: nat, bytepos: nat, pos: nat) {
    && bytepos <= |lzw|
    && pos + bitcnt == 8 * bytepos
    && bitbuf == Val(BytesToBits(lzw)[pos..8 * bytepos])
  }

  /** Fetches bytes until the buffer holds a whole code, and takes the code off it. */
  method NextCode(lzw: seq<Byte>, buf: nat, cnt: nat, at: nat, width: nat, ghost pos: nat)
      returns (ok: bool, code: nat, bitbuf: nat, bitcnt: nat, bytepos: nat)
    requires Buffered(lzw, buf, cnt, at, pos) && cnt < 8
    ensures ok == (pos + width <= 8 * |lzw|)
    ensures ok ==> code == Val(BytesToBits(lzw)[pos..pos + width])
    ensures ok ==> Buffered(lzw, bitbuf, bitcnt, bytepos, pos + width) && bitcnt < 8
  {
    hide Val, Pow2, BytesToBits;
    bitbuf, bitcnt, bytepos := buf, cnt, at;
    while bitcnt < width && bytepos < |lzw|
      invariant Buffered(lzw, bitbuf, bitcnt, bytepos, pos) && bitcnt < width + 8
      decreases |lzw| - bytepos
    {
      LoadByte(lzw, pos, bytepos);
      bitbuf := bitbuf + lzw[bytepos] * Pow2(bitcnt);
      bytepos := bytepos + 1;
      bitcnt := bitcnt + 8;
    }
    ok, code := bitcnt >= width, 0;
    if ok {
      TakeCode(BytesToBits(lzw), pos, width, 8 * bytepos);
      code := bitbuf % Pow2(width);
      bitbuf := bitbuf / Pow2(width);
      bitcnt := bitcnt - width;
    }
  }

  /** Or-ing a byte in above the bits of the buffer appends its bits. */
  lemma LoadByte(lzw: seq<Byte>, pos: nat, at: nat)
    requires at < |lzw| && pos <= 8 * at
    ensures var bits := BytesToBits(lzw);
            Val(bits[pos..8 * (at + 1)]) == Val(bits[pos..8 * at]) + lzw[at] * Pow2(8 * at - pos)
  {
    hide Val, Pow2, BytesToBits;
    var bits := BytesToBits(lzw);
    var low, high := bits[pos..8 * at], bits[8 * at..8 * at + 8];
    ByteVal(lzw, at);
    assert low + high == bits[pos..8 * (at + 1)];
    ValConcat(low, high);
  }

  lemma ByteVal(lzw: seq<Byte>, at: nat)
    requires at < |lzw|
    ensures Val(BytesToBits(lzw)[8 * at..8 * at + 8]) == lzw[at]
  {
    BytesToBitsAt(lzw, at);
    Pow2Values();
    hide Val, ToBits;
    ValToBits(lzw[at], 8);
  }

  /** How one turn of the loop relates what is still to be decoded. */
  lemma LoopTurn(m: nat, d: Decoder, bits: seq<bool>, pos: nat, acc: seq<Byte>)
    requires Valid(m, d) && pos <= |bits| && DecodeBits(m, d, bits, pos, acc).Ok?
    ensures !HasByte(pos, |bits|) || pos + d.width > |bits| ==> DecodeBits(m, d, bits, pos, acc) == Ok(acc)
    ensures HasByte(pos, |bits|) && pos + d.width <= |bits| ==>
              var code := Val(bits[pos..pos + d.width]);
              if code == EoiCode(m) then DecodeBits(m, d, bits, pos, acc) == Ok(acc)
              else Readable(m, d, code)
                   && DecodeBits(m, d, bits, pos, acc)
                   == DecodeBits(m, Absorb(m, d, code), bits, pos + d.width, acc + Emitted(m, d, code))
  {
    hide Absorb, Emitted, Readable, Val, Valid;
  }

  /** Splits the next code off the buffer. */
  lemma TakeCode(bits: seq<bool>, pos: nat, width: nat, end: nat)
    requires pos + width <= end <= |bits|
    ensures Val(bits[pos..end]) % Pow2(width) == Val(bits[pos..pos + width])
    ensures Val(bits[pos..end]) / Pow2(width) == Val(bits[pos + width..end])
  {
    ValSplit(bits[pos..end], width);
    assert bits[pos..end][..width] == bits[pos..pos + width];
    assert bits[pos..end][width..] == bits[pos + width..end];
  }

  method ClearTable(table: array<int>, suffix: array<Byte>, m: nat) returns (next: nat)
    requires m <= 11 && table.Length == suffix.Length == TABLE_SIZE
    modifies table, suffix
    ensures next == FirstFree(m) && Holds(table, suffix, next, m, Cleared(m))
  {
    FirstFreeFits(m);
    next := FirstFree(m);
    for i := 0 to next
      invariant forall j :: 0 <= j < i ==> table[j] == -1 && suffix[j] == j % 256
    {
      table[i] := -1;
      suffix[i] := i % 256;
    }
  }

  /** Emits the text of a code, and finds the first byte of the entry to be added. */
  method EmitText(table: array<int>, suffix: array<Byte>, indices: array<Byte>, outLen: nat, cap: nat,
                  m: nat, next: nat, prev: int, code: nat, ghost d: Decoder, ghost acc: seq<Byte>)
      returns (len: nat, first: Byte)
    requires Valid(m, d) && Readable(m, d, code) && IsData(m, code) && d.prev == prev
    requires Holds(table, suffix, next, m, d) && indices != suffix && Written(indices, outLen, cap, acc)
    modifies indices
    ensures prev != -1 ==> first == Root(d.parent, d.suffix, if code < next then code else prev) % 256
    ensures Written(indices, len, cap, acc + Emitted(m, d, code))
  {
    hide Chain, Root, IsTable, Pow2;
    first := 0;
    if prev == -1 {
      len := Emit(table, suffix, code, indices, outLen, cap, d.parent, d.suffix);
    } else if code < next {
      len := Emit(table, suffix, code, indices, outLen, cap, d.parent, d.suffix);
      var c := FindRoot(table, code, d.parent, d.suffix);
      first := c % 256;
    } else {
      var c := FindRoot(table, prev, d.parent, d.suffix);
      first := c % 256;
      len := Emit(table, suffix, prev, indices, outLen, cap, d.parent, d.suffix);
      if len < cap {
        indices[len] := first;
        len := len + 1;
      }
    }
  }

  /** What the loop does with a code other than clear and end-of-information. */
  method Consume(table: array<int>, suffix: array<Byte>, indices: array<Byte>, outLen: nat, cap: nat,
                 m: nat, next: nat, prev: int, width: nat, code: nat, ghost d: Decoder, ghost acc: seq<Byte>)
      returns (next': nat, width': nat, len: nat)
    requires Valid(m, d) && Readable(m, d, code) && IsData(m, code) && d.prev == prev && d.width == width
    requires Holds(table, suffix, next, m, d) && indices != suffix && Written(indices, outLen, cap, acc)
    modifies table, suffix, indices
    ensures Holds(table, suffix, next', m, Absorb(m, d, code)) && width' == Absorb(m, d, code).width
    ensures Written(indices, len, cap, acc + Emitted(m, d, code))
  {
    hide Emitted, Root, IsTable, Pow2;
    next', width' := next, width;
    var first;
    len, first := EmitText(table, suffix, indices, outLen, cap, m, next, prev, code, d, acc);
    if prev != -1 {
      if next < TABLE_SIZE {
        table[next] := prev;
        suffix[next] := first;
        next' := next + 1;
        assert table[..next'] == d.parent + [prev] && suffix[..next'] == d.suffix + [first];
      }
      if next' == Pow2(width) && width < MAX_WIDTH {
        width' := width + 1;
      }
    }
  }

  /** The output buffer holds as much of the decoded text as fits. */
  ghost predicate Written(indices: array<Byte>, outLen: nat, cap: nat, acc: seq<Byte>)
    reads indices
  {
    && cap < indices.Length
    && outLen == Min(cap, |acc|)
    && indices[..outLen] == acc[..outLen]
  }

  /** What the loop does with a code other than end-of-information. */
  method TakeTurn(table: array<int>, suffix: array<Byte>, indices: array<Byte>, outLen: nat, cap: nat,
                  m: nat, next: nat, prev: int, width: nat, code: nat, ghost d: Decoder, ghost acc: seq<Byte>)
      returns (next': nat, prev': int, width': nat, len: nat)
    requires Valid(m, d) && Readable(m, d, code) && code != EoiCode(m) && d.prev == prev && d.width == width
    requires Holds(table, suffix, next, m, d) && indices != suffix && Written(indices, outLen, cap, acc)
    modifies table, suffix, indices
    ensures var d' := Absorb(m, d, code);
            Holds(table, suffix, next', m, d') && width' == d'.width && prev' == d'.prev
    ensures Written(indices, len, cap, acc + Emitted(m, d, code))
  {
    if code == ClearCode(m) {
      assert acc + [] == acc;
      width', prev', len := m + 1, -1, outLen;
      next' := ClearTable(table, suffix, m);
    } else {
      next', width', len := Consume(table, suffix, indices, outLen, cap, m, next, prev, width, code, d, acc);
      prev' := code;
    }
  }

  lemma ByteLeft(lzw: seq<Byte>, bitbuf: nat, bitcnt: nat, bytepos: nat, pos: nat)
    requires Buffered(lzw, bitbuf, bitcnt, bytepos, pos) && bitcnt < 8
    ensures HasByte(pos, 8 * |lzw|) <==> bytepos < |lzw|
  {
  }

  /** The LZW loop of `wubu_cv_load_gif`; `cap` is the number of pixels of the image. */
  method LzwDecode(m: nat, lzw: seq<Byte>, cap: nat) returns (indices: array<Byte>, outLen: nat)
    requires m <= 11 && Decode(m, lzw).Ok?
    ensures fresh(indices) && Written(indices, outLen, cap, Decode(m, lzw).out)
  {
    StartValid(m);
    FirstFreeFits(m);
    var table, suffix := new int[TABLE_SIZE], new Byte[TABLE_SIZE];
    indices := new Byte[cap + 1];
    outLen := DecodeLoop(m, lzw, cap, table, suffix, indices);
  }

  lemma NothingBuffered(lzw: seq<Byte>)
    ensures Buffered(lzw, 0, 0, 0, 0)
  {
  }

  method DecodeLoop(m: nat, lzw: seq<Byte>, cap: nat, table: array<int>, suffix: array<Byte>, indices: array<Byte>)
      returns (outLen: nat)
    requires m <= 11 && Decode(m, lzw).Ok? && table.Length == suffix.Length == TABLE_SIZE
    requires indices != suffix && cap < indices.Length
    modifies table, suffix, indices
    ensures Written(indices, outLen, cap, Decode(m, lzw).out)
  {
    hide DecodeBits, Emitted, Absorb, Val, Pow2, IsTable, BytesToBits, Readable, HasByte, Chain;
    StartValid(m);
    FirstFreeFits(m);
    outLen := 0;
    var width, next, prev: int := m + 1, FirstFree(m), -1;
    var bitbuf: nat, bitcnt: nat, bytepos: nat := 0, 0, 0;
    ghost var bits := BytesToBits(lzw);
    ghost var d, pos: nat, acc: seq<Byte> := Start(m), 0, [];
    ghost var goal := Decode(m, lzw);
    NothingBuffered(lzw);
    while bytepos < |lzw|
      invariant Buffered(lzw, bitbuf, bitcnt, bytepos, pos) && bitcnt < 8
      invariant Valid(m, d) && Holds(table, suffix, next, m, d) && width == d.width && prev == d.prev
      invariant DecodeBits(m, d, bits, pos, acc) == goal
      invariant Written(indices, outLen, cap, acc)
      decreases |bits| - pos
    {
      ByteLeft(lzw, bitbuf, bitcnt, bytepos, pos);
      LoopTurn(m, d, bits, pos, acc);
      var ok, code;
      ok, code, bitbuf, bitcnt, bytepos := NextCode(lzw, bitbuf, bitcnt, bytepos, width, pos);
      if !ok || code == EoiCode(m) {
        return;
      }
      next, prev, width, outLen :=
        TakeTurn(table, suffix, indices, outLen, cap, m, next, prev, width, code, d, acc);
      d, pos, acc := Absorb(m, d, code), pos + d.width, acc + Emitted(m, d, code);
    }
    ByteLeft(lzw, bitbuf, bitcnt, bytepos, pos);
    LoopTurn(m, d, bits, pos, acc);
  }
}
