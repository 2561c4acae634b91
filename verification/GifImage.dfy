/** From LZW data to pixels: the greedy encoder, the interlace passes and the palette. */
module GifImage {
  import opened Bits
  import opened Lzw
  import opened Grid

  // ---- The greedy encoder -----------------------------------------------------------

  predicate Matches(w: seq<Byte>, s: seq<Byte>) { w != [] && w <= s }

  /** The entry among the first k that matches the most of `s`; -1 if none matches. */
  function Longest(e: seq<seq<Byte>>, s: seq<Byte>, k: nat): (r: int)
    requires k <= |e|
    ensures -1 <= r < k
    ensures r >= 0 ==> Matches(e[r], s)
    ensures forall j :: 0 <= j < k && Matches(e[j], s) ==> r >= 0 && |e[j]| <= |e[r]|
  {
    if k == 0 then -1
    else
      var b := Longest(e, s, k - 1);
      if Matches(e[k - 1], s) && (b == -1 || |e[b]| < |e[k - 1]|) then k - 1 else b
  }

  predicate HasLiterals(m: nat, e: seq<seq<Byte>>)
    requires m <= 8
  {
    FirstFree(m) <= |e| && InitDict(m) <= e
  }

  predicate Fits(m: nat, s: seq<Byte>) { forall i :: 0 <= i < |s| ==> s[i] < Pow2(m) }

  function GreedyCodes(m: nat, e: seq<seq<Byte>>, s: seq<Byte>): (codes: seq<nat>)
    requires m <= 8 && HasLiterals(m, e) && Fits(m, s)
    ensures Encodes(m, e, s, codes)
    decreases |s|
  {
    if s == [] then [EoiCode(m)]
    else
      assert e[s[0]] == InitDict(m)[s[0]] == [s[0]];
      assert Matches(e[s[0]], s);
      var k := Longest(e, s, |e|);
      assert e[ClearCode(m)] == InitDict(m)[ClearCode(m)] && e[EoiCode(m)] == InitDict(m)[EoiCode(m)];
      var rest := s[|e[k]|..];
      var codes := [k] + GreedyCodes(m, Extend(e, e[k], rest), rest);
      assert codes[1..] == GreedyCodes(m, Extend(e, e[k], rest), rest);
      codes
  }

  function EncodeText(m: nat, s: seq<Byte>): (codes: seq<nat>)
    requires m <= 8 && Fits(m, s)
    ensures Conforms(m, s, codes)
  {
    var codes := [ClearCode(m)] + GreedyCodes(m, InitDict(m), s);
    assert codes[1..] == GreedyCodes(m, InitDict(m), s);
    codes
  }

  // ---- Interlace ----------------------------------------------------------------------

  function PassStart(p: nat): nat { if p == 0 then 0 else if p == 1 then 4 else if p == 2 then 2 else 1 }

  function PassStep(p: nat): (s: nat)
    ensures s > 0
  {
    if p <= 1 then 8 else if p == 2 then 4 else 2
  }

  /** How many rows of an image h rows high come before pass p. */
  function PassBase(h: nat, p: nat): nat
    requires p <= 4
  {
    if p == 0 then 0
    else if p == 1 then (h + 7) / 8
    else if p == 2 then (h + 7) / 8 + (h + 3) / 8
    else if p == 3 then (h + 7) / 8 + (h + 3) / 8 + (h + 1) / 4
    else h
  }

  function PassOf(y: nat): (p: nat)
    ensures p < 4
  {
    if y % 8 == 0 then 0 else if y % 8 == 4 then 1 else if y % 4 == 2 then 2 else 3
  }

  /** The place of row y in the order in which an interlaced image is sent. */
  function Rank(h: nat, y: nat): nat {
    PassBase(h, PassOf(y)) + (y - PassStart(PassOf(y))) / PassStep(PassOf(y))
  }

  /** The row sent in place k. */
  function RowSent(h: nat, k: nat): nat
    requires k < h
  {
    var p := if k < PassBase(h, 1) then 0 else if k < PassBase(h, 2) then 1 else if k < PassBase(h, 3) then 2 else 3;
    PassStart(p) + PassStep(p) * (k - PassBase(h, p))
  }

  lemma Bases(h: nat)
    ensures PassBase(h, 0) == 0
    ensures 8 * PassBase(h, 1) - 8 < h <= 8 * PassBase(h, 1)
    ensures 8 * (PassBase(h, 2) - PassBase(h, 1)) - 4 < h <= 8 * (PassBase(h, 2) - PassBase(h, 1)) + 4
    ensures 4 * (PassBase(h, 3) - PassBase(h, 2)) - 2 < h <= 4 * (PassBase(h, 3) - PassBase(h, 2)) + 2
    ensures 2 * (h - PassBase(h, 3)) - 1 < h <= 2 * (h - PassBase(h, 3)) + 1
    ensures PassBase(h, 4) == h
  {
    var a, b := h / 8, h % 8;
    assert (h + 7) / 8 == a + if b > 0 then 1 else 0;
    assert (h + 3) / 8 == a + if b > 4 then 1 else 0;
    assert (h + 1) / 4 == 2 * a + if b > 6 then 2 else if b > 2 then 1 else 0;
  }

  /** Row j of pass p, and its place in the order sent. */
  lemma RankInPass(h: nat, p: nat, j: nat)
    requires p < 4
    ensures var y := PassStart(p) + PassStep(p) * j; PassOf(y) == p && Rank(h, y) == PassBase(h, p) + j
  {
    hide PassBase;
    var y := PassStart(p) + PassStep(p) * j;
    if p == 0 {
      assert y == 8 * j;
    } else if p == 1 {
      assert y == 8 * j + 4;
    } else if p == 2 {
      assert y == 8 * (j / 2) + 4 * (j % 2) + 2;
    } else {
      assert y == 8 * (j / 4) + 2 * (j % 4) + 1;
    }
  }

  lemma OddRow(y: nat)
    requires y % 8 != 0 && y % 8 != 4 && y % 4 != 2
    ensures y == 1 + 2 * (y / 2)
  {
    var a, b := y / 8, y % 8;
    assert y == 8 * a + b;
    assert b != 2 && b != 6;
  }

  /** Every row belongs to a pass. */
  lemma RowInPass(y: nat) returns (j: nat)
    ensures y == PassStart(PassOf(y)) + PassStep(PassOf(y)) * j
  {
    var p := PassOf(y);
    if p == 0 {
      j := y / 8;
    } else if p == 1 {
      j := y / 8;
    } else if p == 2 {
      j := y / 4;
    } else {
      j := y / 2;
      OddRow(y);
    }
  }

  /** The four passes send every row exactly once, for any height. */
  lemma RowSentAtRank(h: nat, y: nat)
    requires y < h
    ensures Rank(h, y) < h && RowSent(h, Rank(h, y)) == y
  {
    hide PassBase, Rank, PassOf, PassStart, PassStep, RowSent;
    var j := RowInPass(y);
    RankInPass(h, PassOf(y), j);
    SentInPass(h, PassOf(y), j);
  }

  /** Row j of pass p is what its place in the order sends. */
  lemma SentInPass(h: nat, p: nat, j: nat)
    requires p < 4 && PassStart(p) + PassStep(p) * j < h
    ensures PassBase(h, p) + j < h && RowSent(h, PassBase(h, p) + j) == PassStart(p) + PassStep(p) * j
  {
    hide PassBase;
    Bases(h);
    if p == 0 {
      assert PassBase(h, 0) + j < PassBase(h, 1);
    } else if p == 1 {
      assert PassBase(h, 1) <= PassBase(h, 1) + j < PassBase(h, 2);
    } else if p == 2 {
      assert PassBase(h, 2) <= PassBase(h, 2) + j < PassBase(h, 3);
    }
  }

  lemma RankOfRowSent(h: nat, k: nat)
    requires k < h
    ensures RowSent(h, k) < h && Rank(h, RowSent(h, k)) == k
  {
    hide PassBase, Rank, PassOf;
    Bases(h);
    var p := if k < PassBase(h, 1) then 0 else if k < PassBase(h, 2) then 1 else if k < PassBase(h, 3) then 2 else 3;
    RankInPass(h, p, k - PassBase(h, p));
  }

  /** The group a row is sent in: every eighth row, those halfway between, every other even row, the odd rows. */
  function Group(y: nat): nat {
    if y % 2 == 1 then 3 else if y % 4 == 2 then 2 else if y % 8 == 4 then 1 else 0
  }

  /** Rows are sent group by group and, inside a group, from top to bottom. */
  lemma SentInOrder(h: nat, y: nat, z: nat)
    requires y < h && z < h
    ensures Rank(h, y) < Rank(h, z) <==> Group(y) < Group(z) || (Group(y) == Group(z) && y < z)
  {
    hide Rank, PassOf, PassBase, PassStart, PassStep;
    GroupIs(y);
    GroupIs(z);
    var j := RowInPass(y);
    var k := RowInPass(z);
    RankInPass(h, PassOf(y), j);
    RankInPass(h, PassOf(z), k);
    PassOrder(h, PassOf(y), j, PassOf(z), k);
  }

  lemma GroupIs(y: nat)
    ensures Group(y) == PassOf(y)
  {
    ModTwo(y / 8, y % 8);
    ModFour(y / 8, y % 8);
    SmallGroup(y % 8);
  }

  lemma ModTwo(a: nat, b: nat)
    ensures (8 * a + b) % 2 == b % 2
  {
  }

  lemma ModFour(a: nat, b: nat)
    ensures (8 * a + b) % 4 == b % 4
  {
  }

  lemma SmallGroup(b: nat)
    requires b < 8
    ensures b % 2 == 1 <==> b == 1 || b == 3 || b == 5 || b == 7
    ensures b % 4 == 2 <==> b == 2 || b == 6
  {
  }

  lemma PassOrder(h: nat, p: nat, j: nat, r: nat, k: nat)
    requires p < 4 && r < 4 && PassStart(p) + PassStep(p) * j < h && PassStart(r) + PassStep(r) * k < h
    ensures PassBase(h, p) + j < PassBase(h, r) + k
       <==> p < r || (p == r && PassStart(p) + PassStep(p) * j < PassStart(r) + PassStep(r) * k)
  {
    hide PassBase;
    Bases(h);
    InsidePass(h, p, j);
    InsidePass(h, r, k);
    PassesAscend(h);
    if p == r {
      if p <= 1 {
        assert PassStep(p) == 8;
      } else if p == 2 {
        assert PassStep(p) == 4;
      } else {
        assert PassStep(p) == 2;
      }
    }
  }

  lemma InsidePass(h: nat, p: nat, j: nat)
    requires p < 4 && PassStart(p) + PassStep(p) * j < h
    ensures PassBase(h, p) + j < PassBase(h, p + 1)
  {
    hide PassBase;
    Bases(h);
    if p == 0 {
      assert PassStart(0) + PassStep(0) * j == 8 * j;
    } else if p == 1 {
      assert PassStart(1) + PassStep(1) * j == 4 + 8 * j;
    } else if p == 2 {
      assert PassStart(2) + PassStep(2) * j == 2 + 4 * j;
    } else {
      assert PassStart(3) + PassStep(3) * j == 1 + 2 * j;
    }
  }

  lemma PassesAscend(h: nat)
    ensures PassBase(h, 0) <= PassBase(h, 1) <= PassBase(h, 2) <= PassBase(h, 3) <= PassBase(h, 4)
  {
    Bases(h);
    hide PassBase;
  }

  // ---- Pixels -----------------------------------------------------------------------------

  function Colour(palette: seq<Byte>, ci: Byte): Pixel
    requires |palette| == 768
  {
    var c: int := ci;
    0xFF00_0000 + palette[3 * c] as int * 0x1_0000 + palette[3 * c + 1] as int * 0x100 + palette[3 * c + 2]
  }

  /** A stream that ends early is continued with index 0. */
  function IndexAt(s: seq<Byte>, k: nat): Byte { if k < |s| then s[k] else 0 }

  /** Row y of the canvas shows row k of the stream. */
  ghost predicate RowShows(pixels: seq<Pixel>, w: nat, y: nat, palette: seq<Byte>, s: seq<Byte>, k: nat)
    requires |palette| == 768
  {
    forall x: nat {:trigger At(w, x, y)} :: x < w ==>
      At(w, x, y) < |pixels| && pixels[At(w, x, y)] == Colour(palette, IndexAt(s, At(w, x, k)))
  }

  function RowOf(h: nat, interlaced: bool, y: nat): nat { if interlaced then Rank(h, y) else y }

  ghost predicate Shows(pixels: seq<Pixel>, w: nat, h: nat, interlaced: bool, palette: seq<Byte>, s: seq<Byte>)
    requires |palette| == 768
  {
    forall y: nat :: y < h ==> RowShows(pixels, w, y, palette, s, RowOf(h, interlaced, y))
  }

  /** Paints canvas row y with the next w indices of the stream, of which `pos` were consumed. */
  method PaintRow(pixels: array<Pixel>, w: nat, ghost h: nat, y: nat, palette: seq<Byte>, s: seq<Byte>,
                  pos: nat, ghost k: nat) returns (pos': nat)
    requires |palette| == 768 && pixels.Length == w * h && y < h && pos == Min(|s|, At(w, 0, k))
    modifies pixels
    ensures pos' == Min(|s|, At(w, 0, k + 1))
    ensures RowShows(pixels[..], w, y, palette, s, k)
    ensures forall x: nat, y': nat {:trigger At(w, x, y')} ::
              x < w && y' < h && y' != y && At(w, x, y') < pixels.Length ==>
                pixels[At(w, x, y')] == old(pixels[At(w, x, y')])
  {
    AllUnique(w, h);
    AlongRow(w, k);
    hide At, Colour;
    pos' := pos;
    for x := 0 to w
      invariant pos' == Min(|s|, At(w, x, k))
      invariant forall x': nat {:trigger At(w, x', y)} :: x' < x ==>
                  pixels[At(w, x', y)] == Colour(palette, IndexAt(s, At(w, x', k)))
      invariant forall x': nat, y': nat {:trigger At(w, x', y')} ::
                  x' < w && y' < h && y' != y && At(w, x', y') < pixels.Length ==>
                    pixels[At(w, x', y')] == old(pixels[At(w, x', y')])
    {
      var ci: Byte := 0;
      if pos' < |s| {
        ci := s[pos'];
        pos' := pos' + 1;
      }
      pixels[At(w, x, y)] := Colour(palette, ci);
    }
  }

  /** Painting one more row keeps the rows painted before. */
  lemma RowsStay(before: seq<Pixel>, after: seq<Pixel>, w: nat, h: nat, y: nat, y': nat,
                 palette: seq<Byte>, s: seq<Byte>, k: nat)
    requires |palette| == 768 && |before| == |after| && y' < h && y' != y
    requires forall x: nat, z: nat {:trigger At(w, x, z)} ::
               x < w && z < h && z != y && At(w, x, z) < |after| ==> after[At(w, x, z)] == before[At(w, x, z)]
    requires RowShows(before, w, y', palette, s, k)
    ensures RowShows(after, w, y', palette, s, k)
  {
  }

  /** The rows of the first n places in the order sent are painted. */
  ghost predicate Painted(pixels: seq<Pixel>, w: nat, h: nat, interlaced: bool, palette: seq<Byte>, s: seq<Byte>,
                          n: nat)
    requires |palette| == 768
  {
    forall y: nat :: y < h && RowOf(h, interlaced, y) < n ==>
                       RowShows(pixels, w, y, palette, s, RowOf(h, interlaced, y))
  }

  method PaintNext(pixels: array<Pixel>, w: nat, h: nat, interlaced: bool, y: nat, palette: seq<Byte>, s: seq<Byte>,
                   pos: nat, ghost n: nat) returns (pos': nat)
    requires |palette| == 768 && pixels.Length == w * h && y < h && pos == Min(|s|, At(w, 0, n))
    requires RowOf(h, interlaced, y) == n
    requires Painted(pixels[..], w, h, interlaced, palette, s, n)
    modifies pixels
    ensures pos' == Min(|s|, At(w, 0, n + 1))
    ensures Painted(pixels[..], w, h, interlaced, palette, s, n + 1)
  {
    ghost var before := pixels[..];
    pos' := PaintRow(pixels, w, h, y, palette, s, pos, n);
    forall y': nat | y' < h && RowOf(h, interlaced, y') < n + 1
      ensures RowShows(pixels[..], w, y', palette, s, RowOf(h, interlaced, y'))
    {
      if y' != y {
        RowSentAtRank(h, y);
        RowSentAtRank(h, y');
        hide Rank, RowSent, RowShows, IndexAt, Colour;
        RowsStay(before, pixels[..], w, h, y, y', palette, s, RowOf(h, interlaced, y'));
      }
    }
  }

  /** One interlace pass. */
  method PaintPass(pixels: array<Pixel>, w: nat, h: nat, p: nat, palette: seq<Byte>, s: seq<Byte>, pos: nat)
      returns (pos': nat)
    requires |palette| == 768 && pixels.Length == w * h && p < 4 && pos == Min(|s|, At(w, 0, PassBase(h, p)))
    requires Painted(pixels[..], w, h, true, palette, s, PassBase(h, p))
    modifies pixels
    ensures pos' == Min(|s|, At(w, 0, PassBase(h, p + 1)))
    ensures Painted(pixels[..], w, h, true, palette, s, PassBase(h, p + 1))
  {
    hide At, Rank, Painted, PassBase;
    pos' := pos;
    var y := PassStart(p);
    ghost var j := 0;
    while y < h
      invariant y == PassStart(p) + PassStep(p) * j && (j == 0 || y - PassStep(p) < h)
      invariant pos' == Min(|s|, At(w, 0, PassBase(h, p) + j))
      invariant Painted(pixels[..], w, h, true, palette, s, PassBase(h, p) + j)
    {
      RankInPass(h, p, j);
      pos' := PaintNext(pixels, w, h, true, y, palette, s, pos', PassBase(h, p) + j);
      y := y + PassStep(p);
      j := j + 1;
    }
    PassEnds(h, p, j);
  }

  /** Maps the decoded indices to the canvas, row after row or in the four interlace passes. */
  method PaintImage(pixels: array<Pixel>, w: nat, h: nat, interlaced: bool, palette: seq<Byte>, s: seq<Byte>)
    requires |palette| == 768 && pixels.Length == w * h
    modifies pixels
    ensures Shows(pixels[..], w, h, interlaced, palette, s)
  {
    var pos := 0;
    assert At(w, 0, 0) == 0;
    Bases(h);
    hide At, Rank, RowShows, PassBase;
    if interlaced {
      for p := 0 to 4
        invariant pos == Min(|s|, At(w, 0, PassBase(h, p)))
        invariant Painted(pixels[..], w, h, true, palette, s, PassBase(h, p))
      {
        pos := PaintPass(pixels, w, h, p, palette, s, pos);
      }
    } else {
      for y := 0 to h
        invariant pos == Min(|s|, At(w, 0, y))
        invariant Painted(pixels[..], w, h, false, palette, s, y)
      {
        pos := PaintNext(pixels, w, h, false, y, palette, s, pos, y);
      }
    }
    forall y: nat | y < h
      ensures RowShows(pixels[..], w, y, palette, s, RowOf(h, interlaced, y))
    {
      RowSentAtRank(h, y);
    }
  }

  /** A pass ends where the next one starts. */
  lemma PassEnds(h: nat, p: nat, j: nat)
    requires p < 4
    requires PassStart(p) + PassStep(p) * j >= h
    requires j == 0 || PassStart(p) + PassStep(p) * (j - 1) < h
    ensures PassBase(h, p + 1) == PassBase(h, p) + j
  {
    Bases(h);
    hide PassBase;
  }

  /** The decoding half of the loader: LZW data to pixels. */
  method LoadImage(m: nat, lzw: seq<Byte>, w: nat, h: nat, interlaced: bool, palette: seq<Byte>)
      returns (pixels: array<Pixel>)
    requires m <= 11 && Decode(m, lzw).Ok? && |palette| == 768
    ensures fresh(pixels) && pixels.Length == w * h
    ensures Shows(pixels[..], w, h, interlaced, palette, Decode(m, lzw).out)
  {
    var indices, outLen := LzwDecode(m, lzw, w * h);
    pixels := new Pixel[w * h];
    PaintImage(pixels, w, h, interlaced, palette, indices[..outLen]);
    TruncationHarmless(pixels[..], w, h, interlaced, palette, Decode(m, lzw).out);
  }

  /** The output buffer has room for every index the canvas shows. */
  lemma TruncationHarmless(pixels: seq<Pixel>, w: nat, h: nat, interlaced: bool, palette: seq<Byte>, s: seq<Byte>)
    requires |palette| == 768 && Shows(pixels, w, h, interlaced, palette, s[..Min(w * h, |s|)])
    ensures Shows(pixels, w, h, interlaced, palette, s)
  {
    forall y: nat | y < h
      ensures RowShows(pixels, w, y, palette, s, RowOf(h, interlaced, y))
    {
      RowSentAtRank(h, y);
      AllUnique(w, h);
      hide At, Rank, RowSent, Colour;
      assert RowShows(pixels, w, y, palette, s[..Min(w * h, |s|)], RowOf(h, interlaced, y));
    }
  }

  /** A colour is opaque, with red, green and blue from the palette in this order. */
  lemma ColourBytes(palette: seq<Byte>, ci: Byte)
    requires |palette| == 768
    ensures var c := Colour(palette, ci);
            && c / 0x100_0000 == 0xFF && c / 0x1_0000 % 0x100 == palette[3 * (ci as int)]
            && c / 0x100 % 0x100 == palette[3 * (ci as int) + 1] && c % 0x100 == palette[3 * (ci as int) + 2]
  {
    Digits(palette[3 * (ci as int)], palette[3 * (ci as int) + 1], palette[3 * (ci as int) + 2]);
  }

  lemma Digits(r: Byte, g: Byte, b: Byte)
    ensures var c := 0xFF00_0000 + r as int * 0x1_0000 + g as int * 0x100 + b;
            && c / 0x100_0000 == 0xFF && c / 0x1_0000 % 0x100 == r && c / 0x100 % 0x100 == g && c % 0x100 == b
  {
    var c := 0xFF00_0000 + r as int * 0x1_0000 + g as int * 0x100 + b;
    assert c / 0x100 == 0xFF_0000 + r as int * 0x100 + g;
    assert c / 0x1_0000 == 0xFF00 + r as int;
  }

  /** The colour number of a pixel: the text's at the place its row is sent in, 0 behind the end of the text. */
  lemma PixelShown(pixels: seq<Pixel>, w: nat, h: nat, interlaced: bool, palette: seq<Byte>, s: seq<Byte>, x: nat,
                   y: nat)
    requires |palette| == 768 && Shows(pixels, w, h, interlaced, palette, s) && x < w && y < h
    ensures var k := At(w, x, if interlaced then Rank(h, y) else y);
            && At(w, x, y) < |pixels|
            && pixels[At(w, x, y)] == Colour(palette, if k < |s| then s[k] else 0)
  {
    hide At, Rank, Colour;
    assert RowShows(pixels, w, y, palette, s, RowOf(h, interlaced, y));
  }

  /** `s` is the text of an image: its rows in the order they are sent. */
  ghost predicate Scans(image: seq<Byte>, w: nat, h: nat, interlaced: bool, s: seq<Byte>) {
    && |image| == |s| == w * h
    && forall x: nat, y: nat {:trigger At(w, x, y)} :: x < w && y < h ==>
         && At(w, x, y) < |image|
         && At(w, x, RowOf(h, interlaced, y)) < |s|
         && s[At(w, x, RowOf(h, interlaced, y))] == image[At(w, x, y)]
  }

  /** Every image, sent by any conforming encoder with 3 to 8 bits per index, is shown as it was. */
  lemma ImageRoundTrip(m: nat, image: seq<Byte>, w: nat, h: nat, interlaced: bool, s: seq<Byte>, codes: seq<nat>,
                       palette: seq<Byte>, pixels: seq<Pixel>)
    requires 3 <= m <= 8 && Scans(image, w, h, interlaced, s) && Conforms(m, s, codes) && |palette| == 768
    requires Decode(m, PackStream(m, codes)).Ok? ==>
               Shows(pixels, w, h, interlaced, palette, Decode(m, PackStream(m, codes)).out)
    ensures forall x: nat, y: nat {:trigger At(w, x, y)} :: x < w && y < h ==>
              At(w, x, y) < |pixels| && At(w, x, y) < |image|
              && pixels[At(w, x, y)] == Colour(palette, image[At(w, x, y)])
  {
    hide Decode, Conforms, At, Colour, Rank, PackStream;
    DecodeInvertsEncode(m, s, codes);
    forall x: nat, y: nat | x < w && y < h
      ensures At(w, x, y) < |pixels| && At(w, x, y) < |image|
      ensures pixels[At(w, x, y)] == Colour(palette, image[At(w, x, y)])
    {
      assert RowShows(pixels, w, y, palette, s, RowOf(h, interlaced, y));
    }
  }

  /** The pixel of the image that is sent in place i. */
  function SentAt(w: nat, h: nat, interlaced: bool, i: nat): (j: nat)
    requires i < w * h
    ensures j < w * h
  {
    Cell(w, h, i);
    if interlaced then RankOfRowSent(h, i / w); InGrid(w, h, i % w, RowSent(h, i / w)); At(w, i % w, RowSent(h, i / w))
    else i
  }

  /** The rows of an image in the order they are sent. */
  function Scan(image: seq<Byte>, w: nat, h: nat, interlaced: bool): (s: seq<Byte>)
    requires |image| == w * h
    ensures |s| == w * h
  {
    seq(w * h, i requires 0 <= i < w * h => image[SentAt(w, h, interlaced, i)])
  }

  lemma ScanScans(image: seq<Byte>, w: nat, h: nat, interlaced: bool)
    requires |image| == w * h
    ensures Scans(image, w, h, interlaced, Scan(image, w, h, interlaced))
  {
    forall x: nat, y: nat | x < w && y < h
      ensures At(w, x, y) < |image| && At(w, x, RowOf(h, interlaced, y)) < w * h
      ensures SentAt(w, h, interlaced, At(w, x, RowOf(h, interlaced, y))) == At(w, x, y)
    {
      SentBack(w, h, interlaced, x, y);
    }
    hide SentAt, At;
  }

  lemma SentBack(w: nat, h: nat, interlaced: bool, x: nat, y: nat)
    requires x < w && y < h
    ensures At(w, x, y) < w * h && At(w, x, RowOf(h, interlaced, y)) < w * h
    ensures SentAt(w, h, interlaced, At(w, x, RowOf(h, interlaced, y))) == At(w, x, y)
  {
    hide Rank, RowSent, At;
    InGrid(w, h, x, y);
    RowSentAtRank(h, y);
    var k := RowOf(h, interlaced, y);
    InGrid(w, h, x, k);
    RowCol(w, x, k);
  }

  /** Encoding a picture with the encoder of Appendix F and loading it gives the picture back. */
  method LoadEncoded(m: nat, image: seq<Byte>, w: nat, h: nat, interlaced: bool, palette: seq<Byte>)
      returns (pixels: array<Pixel>)
    requires 3 <= m <= 8 && |image| == w * h && Fits(m, image) && |palette| == 768
    ensures fresh(pixels) && pixels.Length == w * h
    ensures forall i :: 0 <= i < w * h ==> pixels[i] == Colour(palette, image[i])
  {
    hide Scans, Conforms, Decode, Shows, At, PackStream, Colour;
    var s := Scan(image, w, h, interlaced);
    ScanScans(image, w, h, interlaced);
    var codes := EncodeText(m, s);
    DecodeInvertsEncode(m, s, codes);
    pixels := LoadImage(m, PackStream(m, codes), w, h, interlaced, palette);
    ImageRoundTrip(m, image, w, h, interlaced, s, codes, palette, pixels[..]);
    forall i | 0 <= i < w * h
      ensures pixels[i] == Colour(palette, image[i])
    {
      var x, y := CellOf(w, h, i);
      assert pixels[..][At(w, x, y)] == Colour(palette, image[At(w, x, y)]);
    }
  }
}
