/** The adaptive filters of PNG (section 6 of RFC 2083) and the loader's in-place unfilter. */
module PngFilter {
  import opened Bits
  import opened Grid

  function Paeth(a: int, b: int, c: int): int {
    var p := a + b - c;
    var pa, pb, pc := Abs(p - a), Abs(p - b), Abs(p - c);
    if pa <= pb && pa <= pc then a else if pb <= pc then b else c
  }

  /** What filter type `ft` predicts from the bytes to the left, above, and above to the left. */
  function Predict(ft: Byte, a: Byte, b: Byte, c: Byte): int {
    if ft == 0 then 0
    else if ft == 1 then a
    else if ft == 2 then b
    else if ft == 3 then (a as int + b) / 2
    else Paeth(a, b, c)
  }

  /** The byte one pixel to the left of byte x; 0 at the left edge. */
  function Left(row: seq<Byte>, x: nat, bpp: nat): Byte
    requires x < |row| + bpp
  {
    if x >= bpp && bpp > 0 then row[x - bpp] else 0
  }

  // ---- One row -----------------------------------------------------------------------------

  function FilterRow(ft: Byte, bpp: nat, row: seq<Byte>, prev: seq<Byte>): (line: seq<Byte>)
    requires |prev| == |row| && bpp > 0
    ensures |line| == |row|
  {
    seq(|row|, x requires 0 <= x < |row| =>
      (row[x] - Predict(ft, Left(row, x, bpp), prev[x], Left(prev, x, bpp))) % 256)
  }

  /** The first n bytes of a row restored from its filtered line. */
  function Restore(ft: Byte, bpp: nat, line: seq<Byte>, prev: seq<Byte>, n: nat): (row: seq<Byte>)
    requires |prev| == |line| && bpp > 0 && n <= |line|
    ensures |row| == n
  {
    if n == 0 then []
    else
      var r := Restore(ft, bpp, line, prev, n - 1);
      r + [(line[n - 1] + Predict(ft, Left(r, n - 1, bpp), prev[n - 1], Left(prev, n - 1, bpp))) % 256]
  }

  /** Adding a prediction modulo 256 undoes subtracting it. */
  lemma ByteCancel(x: Byte, l: Byte, p: int)
    ensures (x - p) % 256 == l <==> (l + p) % 256 == x
  {
  }

  /** Restoring the first n bytes gives the row's exactly when those bytes of the line are filtered ones. */
  lemma {:induction false} RestoreIff(ft: Byte, bpp: nat, line: seq<Byte>, prev: seq<Byte>, row: seq<Byte>, n: nat)
    requires |prev| == |line| == |row| && bpp > 0 && n <= |line|
    ensures Restore(ft, bpp, line, prev, n) == row[..n] <==> line[..n] == FilterRow(ft, bpp, row, prev)[..n]
  {
    hide Predict;
    if n > 0 {
      var x := n - 1;
      RestoreIff(ft, bpp, line, prev, row, x);
      var r, filtered := Restore(ft, bpp, line, prev, x), FilterRow(ft, bpp, row, prev);
      var p := Predict(ft, Left(row, x, bpp), prev[x], Left(prev, x, bpp));
      ByteCancel(row[x], line[x], p);
      Snoc(row, n);
      Snoc(line, n);
      Snoc(filtered, n);
      assert filtered[x] == (row[x] - p) % 256;
      hide FilterRow;
      if r == row[..x] {
        assert Left(r, x, bpp) == Left(row, x, bpp);
      } else {
        assert Restore(ft, bpp, line, prev, n)[..x] == r;
        assert row[..n][..x] == row[..x];
        assert line[..n][..x] == line[..x] && filtered[..n][..x] == filtered[..x];
      }
    }
  }

  lemma Snoc(s: seq<Byte>, n: nat)
    requires 0 < n <= |s|
    ensures s[..n] == s[..n - 1] + [s[n - 1]]
  {
  }

  // ---- The image -----------------------------------------------------------------------------

  /** Where row y starts; each row is a filter byte followed by `stride` bytes. */
  function Start(stride: nat, y: nat): nat {
    if y == 0 then 0 else Start(stride, y - 1) + stride + 1
  }

  lemma {:induction false} StartMono(stride: nat, y: nat, h: nat)
    requires y < h
    ensures Start(stride, y) + stride + 1 <= Start(stride, h)
    decreases h
  {
    if y < h - 1 {
      StartMono(stride, y, h - 1);
    }
  }

  predicate IsRaw(raw: seq<Byte>, stride: nat, h: nat) { |raw| == Start(stride, h) }

  function FilterType(raw: seq<Byte>, stride: nat, h: nat, y: nat): Byte
    requires IsRaw(raw, stride, h) && y < h
  {
    StartMono(stride, y, h);
    raw[Start(stride, y)]
  }

  function Line(raw: seq<Byte>, stride: nat, h: nat, y: nat): (l: seq<Byte>)
    requires IsRaw(raw, stride, h) && y < h
    ensures |l| == stride
  {
    StartMono(stride, y, h);
    raw[Start(stride, y) + 1..Start(stride, y) + 1 + stride]
  }

  function Zeros(n: nat): seq<Byte> { seq(n, _ => 0) }

  /** Row y of the image the raw bytes stand for. */
  function Decoded(raw: seq<Byte>, stride: nat, h: nat, bpp: nat, y: nat): (row: seq<Byte>)
    requires IsRaw(raw, stride, h) && y < h && bpp > 0
    ensures |row| == stride
  {
    var prev := if y == 0 then Zeros(stride) else Decoded(raw, stride, h, bpp, y - 1);
    Restore(FilterType(raw, stride, h, y), bpp, Line(raw, stride, h, y), prev, stride)
  }

  predicate IsImage(image: seq<seq<Byte>>, stride: nat, h: nat) {
    |image| == h && forall y :: 0 <= y < h ==> |image[y]| == stride
  }

  function Above(image: seq<seq<Byte>>, stride: nat, h: nat, y: nat): (row: seq<Byte>)
    requires IsImage(image, stride, h) && y < h
    ensures |row| == stride
  {
    if y == 0 then Zeros(stride) else image[y - 1]
  }

  /** Row y of the raw bytes is the image's row y under the filter its first byte names. */
  predicate IsFiltered(raw: seq<Byte>, image: seq<seq<Byte>>, stride: nat, h: nat, bpp: nat, y: nat)
    requires IsRaw(raw, stride, h) && IsImage(image, stride, h) && y < h && bpp > 0
  {
    Line(raw, stride, h, y) == FilterRow(FilterType(raw, stride, h, y), bpp, image[y], Above(image, stride, h, y))
  }

  lemma RowIff(raw: seq<Byte>, image: seq<seq<Byte>>, stride: nat, h: nat, bpp: nat, y: nat)
    requires IsRaw(raw, stride, h) && IsImage(image, stride, h) && bpp > 0 && y < h
    requires y > 0 ==> Decoded(raw, stride, h, bpp, y - 1) == image[y - 1]
    ensures Decoded(raw, stride, h, bpp, y) == image[y] <==> IsFiltered(raw, image, stride, h, bpp, y)
  {
    var ft, line, above := FilterType(raw, stride, h, y), Line(raw, stride, h, y), Above(image, stride, h, y);
    assert Decoded(raw, stride, h, bpp, y) == Restore(ft, bpp, line, above, stride);
    hide FilterRow, Restore, Line, FilterType, Decoded;
    RestoreIff(ft, bpp, line, above, image[y], stride);
    var filtered := FilterRow(ft, bpp, image[y], above);
    assert image[y][..stride] == image[y] && line[..stride] == line && filtered[..stride] == filtered;
  }

  /** The first n rows decode to the image's. */
  predicate DecodesTo(raw: seq<Byte>, image: seq<seq<Byte>>, stride: nat, h: nat, bpp: nat, n: nat)
    requires IsRaw(raw, stride, h) && IsImage(image, stride, h) && bpp > 0 && n <= h
  {
    forall y :: 0 <= y < n ==> Decoded(raw, stride, h, bpp, y) == image[y]
  }

  /** The first n rows are the image's, filtered. */
  predicate FilteredFrom(raw: seq<Byte>, image: seq<seq<Byte>>, stride: nat, h: nat, bpp: nat, n: nat)
    requires IsRaw(raw, stride, h) && IsImage(image, stride, h) && bpp > 0 && n <= h
  {
    forall y :: 0 <= y < n ==> IsFiltered(raw, image, stride, h, bpp, y)
  }

  /** For every image and every choice of filter per row: decoding inverts filtering, and only filtering. */
  lemma {:induction false} DecodeIffFiltered(raw: seq<Byte>, image: seq<seq<Byte>>, stride: nat, h: nat, bpp: nat,
                                             n: nat)
    requires IsRaw(raw, stride, h) && IsImage(image, stride, h) && bpp > 0 && n <= h
    ensures DecodesTo(raw, image, stride, h, bpp, n) <==> FilteredFrom(raw, image, stride, h, bpp, n)
  {
    hide IsFiltered, Decoded, IsRaw;
    if n > 0 {
      var y := n - 1;
      DecodeIffFiltered(raw, image, stride, h, bpp, y);
      if DecodesTo(raw, image, stride, h, bpp, y) {
        RowIff(raw, image, stride, h, bpp, y);
      }
    }
  }

  // ---- The filters byte by byte ------------------------------------------------------------------

  /** p is whichever of a, b and c is nearest to a + b - c; a before b before c where they are equally near. */
  predicate Nearest(p: int, a: int, b: int, c: int) {
    var e := a + b - c;
    && p in {a, b, c} && Abs(e - p) <= Abs(e - a) && Abs(e - p) <= Abs(e - b) && Abs(e - p) <= Abs(e - c)
    && (Abs(e - p) == Abs(e - a) ==> p == a)
    && (p != a && Abs(e - p) == Abs(e - b) ==> p == b)
  }

  lemma PaethIsNearest(a: int, b: int, c: int, p: int)
    ensures Nearest(p, a, b, c) <==> p == Paeth(a, b, c)
  {
  }

  /** The filtered byte of v, with a to its left, b above it and c above a. */
  ghost predicate FilteredByte(ft: Byte, byte: int, v: int, a: int, b: int, c: int) {
    match ft
    case 0 => byte == v
    case 1 => byte == (v - a) % 256
    case 2 => byte == (v - b) % 256
    case 3 => byte == (v - (a + b) / 2) % 256
    case 4 => exists p :: Nearest(p, a, b, c) && byte == (v - p) % 256
    case _ => false
  }

  lemma PredictedByte(ft: Byte, byte: int, v: Byte, a: Byte, b: Byte, c: Byte)
    requires ft <= 4
    ensures byte == (v - Predict(ft, a, b, c)) % 256 <==> FilteredByte(ft, byte, v, a, b, c)
  {
    if ft == 4 {
      hide Paeth, Nearest;
      PaethIsNearest(a, b, c, Paeth(a, b, c));
      forall p
        ensures Nearest(p, a, b, c) <==> p == Paeth(a, b, c)
      {
        PaethIsNearest(a, b, c, p);
      }
    }
  }

  /** Byte x of row y of an image; 0 above the first row. */
  function ByteOf(image: seq<seq<Byte>>, stride: nat, h: nat, y: int, x: nat): Byte
    requires IsImage(image, stride, h) && y < h && x < stride
  {
    if y >= 0 then image[y][x] else 0
  }

  lemma {:induction false} StartIs(stride: nat, y: nat)
    ensures Start(stride, y) == At(stride + 1, 0, y)
  {
    if y > 0 {
      StartIs(stride, y - 1);
      AlongRow(stride + 1, y - 1);
    }
  }

  /** Where the bytes of the rows lie: a filter byte, then the row's. */
  lemma RawIs(raw: seq<Byte>, stride: nat, h: nat, y: nat, x: nat)
    requires IsRaw(raw, stride, h) && y < h && x < stride
    ensures At(stride + 1, 0, y) <= At(stride + 1, 1 + x, y) < |raw|
    ensures FilterType(raw, stride, h, y) == raw[At(stride + 1, 0, y)]
    ensures Line(raw, stride, h, y)[x] == raw[At(stride + 1, 1 + x, y)]
  {
    hide Start, IsRaw;
    LineIs(raw, stride, h, y);
    StartIs(stride, y);
    AlongRow(stride + 1, y);
    hide At;
  }

  /** A row is filtered if and only if each of its bytes is what the named filter gives. */
  lemma FilteredIff(raw: seq<Byte>, image: seq<seq<Byte>>, stride: nat, h: nat, bpp: nat, y: nat)
    requires IsRaw(raw, stride, h) && IsImage(image, stride, h) && bpp > 0 && y < h
    requires FilterType(raw, stride, h, y) <= 4
    ensures IsFiltered(raw, image, stride, h, bpp, y)
       <==> forall x :: 0 <= x < stride ==> RowByte(raw, image, stride, h, bpp, y, x)
  {
    hide Predict, FilteredByte, IsRaw, Line, FilterType;
    var ft, above := FilterType(raw, stride, h, y), Above(image, stride, h, y);
    var l, f := Line(raw, stride, h, y), FilterRow(ft, bpp, image[y], above);
    forall x | 0 <= x < stride
      ensures l[x] == f[x] <==> RowByte(raw, image, stride, h, bpp, y, x)
    {
      PredictedByte(ft, l[x], image[y][x], Left(image[y], x, bpp), above[x], Left(above, x, bpp));
    }
    hide FilterRow, RowByte;
  }

  ghost predicate RowByte(raw: seq<Byte>, image: seq<seq<Byte>>, stride: nat, h: nat, bpp: nat, y: nat, x: nat)
    requires IsRaw(raw, stride, h) && IsImage(image, stride, h) && bpp > 0 && y < h && x < stride
  {
    FilteredByte(FilterType(raw, stride, h, y), Line(raw, stride, h, y)[x], image[y][x],
                 if x >= bpp then image[y][x - bpp] else 0,
                 ByteOf(image, stride, h, y - 1, x),
                 if x >= bpp then ByteOf(image, stride, h, y - 1, x - bpp) else 0)
  }

  /** The first byte of row y is above 4. */
  predicate BadByte(raw: seq<Byte>, stride: nat, y: nat) {
    At(stride + 1, 0, y) < |raw| && raw[At(stride + 1, 0, y)] > 4
  }

  /** The decoder fails on some row if and only if the rows are not empty and some first byte is above 4. */
  lemma BadRowIff(raw: seq<Byte>, stride: nat, h: nat)
    requires IsRaw(raw, stride, h)
    ensures FirstBad(raw, stride, h, 0) < h <==> stride > 0 && exists y: nat :: y < h && BadByte(raw, stride, y)
  {
    hide IsRaw, FilterType, At, FirstBad, BadByte;
    forall y: nat | y < h
      ensures !Known(raw, stride, h, y) <==> stride > 0 && BadByte(raw, stride, y)
    {
      if stride > 0 {
        RawBad(raw, stride, h, y);
      }
    }
    hide Known;
    if exists y: nat :: y < h && stride > 0 && BadByte(raw, stride, y) {
      var y: nat :| y < h && stride > 0 && BadByte(raw, stride, y);
      assert !Known(raw, stride, h, y);
    }
  }

  lemma RawBad(raw: seq<Byte>, stride: nat, h: nat, y: nat)
    requires IsRaw(raw, stride, h) && y < h && stride > 0
    ensures !Known(raw, stride, h, y) <==> BadByte(raw, stride, y)
  {
    hide IsRaw, FilterType, At;
    RawIs(raw, stride, h, y, 0);
  }

  // ---- In place --------------------------------------------------------------------------------

  /** A filter byte the decoder knows, or a row with nothing in it. */
  predicate Known(raw: seq<Byte>, stride: nat, h: nat, y: nat)
    requires IsRaw(raw, stride, h) && y < h
  {
    stride == 0 || FilterType(raw, stride, h, y) <= 4
  }

  /** One row, byte by byte, in place. */
  method UnfilterRow(raw: array<Byte>, base: nat, stride: nat, channels: nat, prev: array<Byte>) returns (ok: bool)
    requires base + 1 + stride <= raw.Length && prev.Length == stride && raw != prev
    requires channels > 0 || stride == 0
    modifies raw
    ensures ok <==> stride == 0 || raw[base] <= 4
    ensures raw[..base + 1] == old(raw[..base + 1]) && raw[base + 1 + stride..] == old(raw[base + 1 + stride..])
    ensures raw[base + 1..base + 1 + stride]
         == if ok && stride > 0
            then Restore(raw[base], channels, old(raw[base + 1..base + 1 + stride]), prev[..], stride)
            else old(raw[base + 1..base + 1 + stride])
  {
    hide Restore;
    var ft := raw[base];
    ok := true;
    ghost var whole, line, above := raw[..], raw[base + 1..base + 1 + stride], prev[..];
    for x := 0 to stride
      invariant x > 0 ==> ft <= 4
      invariant raw[..base + 1] == whole[..base + 1]
      invariant raw[base + 1 + x..] == whole[base + 1 + x..]
      invariant channels > 0 ==> raw[base + 1..base + 1 + x] == Restore(ft, channels, line, above, x)
    {
      var at := base + 1 + x;
      var a := if x >= channels then raw[at - channels] else 0;
      var b := prev[x];
      var c := if x >= channels then prev[x - channels] else 0;
      if ft > 4 {
        ok := false;
        return;
      }
      RestoreStep(ft, channels, line, above, x, a, c, raw[base + 1..base + 1 + x]);
      assert raw[at] == whole[at] == line[x];
      raw[at] := (raw[at] + Predict(ft, a, b, c)) % 256;
    }
  }

  lemma RestoreStep(ft: Byte, bpp: nat, line: seq<Byte>, prev: seq<Byte>, x: nat, a: Byte, c: Byte, r: seq<Byte>)
    requires |prev| == |line| && bpp > 0 && x < |line| && r == Restore(ft, bpp, line, prev, x)
    requires a == (if x >= bpp then r[x - bpp] else 0) && c == if x >= bpp then prev[x - bpp] else 0
    ensures Restore(ft, bpp, line, prev, x + 1) == r + [(line[x] + Predict(ft, a, prev[x], c)) % 256]
  {
  }

  /** The bytes before row y, and those from row y on, determine the rows there. */
  lemma SameRow(a: seq<Byte>, b: seq<Byte>, stride: nat, h: nat, y: nat, k: nat)
    requires IsRaw(a, stride, h) && IsRaw(b, stride, h) && y <= h && k < h && Start(stride, y) <= |a|
    requires if k < y then a[..Start(stride, y)] == b[..Start(stride, y)]
             else a[Start(stride, y)..] == b[Start(stride, y)..]
    ensures FilterType(a, stride, h, k) == FilterType(b, stride, h, k)
    ensures Line(a, stride, h, k) == Line(b, stride, h, k)
  {
    hide Start, Line, FilterType;
    assert |a| == |b|;
    LineIs(a, stride, h, k);
    LineIs(b, stride, h, k);
    var p, q := Start(stride, y), Start(stride, k);
    if k < y {
      StartMono(stride, k, y);
      SamePrefix(a, b, p, q, q + 1);
      SamePrefix(a, b, p, q + 1, q + 1 + stride);
    } else {
      if y < k { StartMono(stride, y, k); }
      SameSuffix(a, b, p, q, q + 1);
      SameSuffix(a, b, p, q + 1, q + 1 + stride);
    }
    assert a[q] == a[q..q + 1][0] && b[q] == b[q..q + 1][0];
  }

  lemma SamePrefix(a: seq<Byte>, b: seq<Byte>, p: nat, i: nat, j: nat)
    requires i <= j <= p <= |a| == |b| && a[..p] == b[..p]
    ensures a[i..j] == b[i..j]
  {
    forall k | i <= k < j
      ensures a[k] == b[k]
    {
      assert a[k] == a[..p][k] && b[k] == b[..p][k];
    }
  }

  lemma SameSuffix(a: seq<Byte>, b: seq<Byte>, p: nat, i: nat, j: nat)
    requires p <= i <= j <= |a| == |b| && a[p..] == b[p..]
    ensures a[i..j] == b[i..j]
  {
    forall k | i <= k < j
      ensures a[k] == b[k]
    {
      assert a[k] == a[p..][k - p] && b[k] == b[p..][k - p];
    }
  }

  /** After unfiltering y rows: those hold the image, the others are as they were. */
  ghost predicate Progress(now: seq<Byte>, was: seq<Byte>, stride: nat, h: nat, bpp: nat, y: nat)
    requires IsRaw(now, stride, h) && IsRaw(was, stride, h) && bpp > 0 && y <= h
  {
    forall k :: 0 <= k < h ==>
      && FilterType(now, stride, h, k) == FilterType(was, stride, h, k)
      && Line(now, stride, h, k) == if k < y then Decoded(was, stride, h, bpp, k) else Line(was, stride, h, k)
  }

  /** Unfiltering row y moves the progress on by one. */
  lemma RowDone(was: seq<Byte>, before: seq<Byte>, now: seq<Byte>, stride: nat, h: nat, bpp: nat, y: nat)
    requires IsRaw(was, stride, h) && IsRaw(before, stride, h) && IsRaw(now, stride, h) && bpp > 0 && y < h
    requires Progress(before, was, stride, h, bpp, y)
    requires Start(stride, y) + 1 + stride <= |now|
    requires now[..Start(stride, y) + 1] == before[..Start(stride, y) + 1]
    requires now[Start(stride, y) + 1 + stride..] == before[Start(stride, y) + 1 + stride..]
    requires Line(now, stride, h, y) == Decoded(was, stride, h, bpp, y)
    ensures Progress(now, was, stride, h, bpp, y + 1)
  {
    SameType(now, before, stride, h, y);
    forall k | 0 <= k < h && k != y
      ensures FilterType(now, stride, h, k) == FilterType(before, stride, h, k)
      ensures Line(now, stride, h, k) == Line(before, stride, h, k)
    {
      RowKept(now, before, stride, h, y, k);
    }
    hide Decoded, Start, Line, FilterType, IsRaw;
  }

  lemma RowKept(now: seq<Byte>, before: seq<Byte>, stride: nat, h: nat, y: nat, k: nat)
    requires IsRaw(before, stride, h) && IsRaw(now, stride, h) && y < h && k < h && k != y
    requires Start(stride, y) + 1 + stride <= |now|
    requires now[..Start(stride, y) + 1] == before[..Start(stride, y) + 1]
    requires now[Start(stride, y) + 1 + stride..] == before[Start(stride, y) + 1 + stride..]
    ensures FilterType(now, stride, h, k) == FilterType(before, stride, h, k)
    ensures Line(now, stride, h, k) == Line(before, stride, h, k)
  {
    hide Line, FilterType;
    var p := Start(stride, y);
    StartMono(stride, y, h);
    assert Start(stride, y + 1) == p + 1 + stride;
    if k < y {
      assert now[..p] == now[..p + 1][..p] && before[..p] == before[..p + 1][..p];
      SameRow(now, before, stride, h, y, k);
    } else {
      SameRow(now, before, stride, h, y + 1, k);
    }
  }

  lemma SameType(a: seq<Byte>, b: seq<Byte>, stride: nat, h: nat, y: nat)
    requires IsRaw(a, stride, h) && IsRaw(b, stride, h) && y < h
    requires Start(stride, y) + 1 <= |a| && a[..Start(stride, y) + 1] == b[..Start(stride, y) + 1]
    ensures FilterType(a, stride, h, y) == FilterType(b, stride, h, y)
  {
    var p := Start(stride, y);
    assert a[p] == a[..p + 1][p] && b[p] == b[..p + 1][p];
  }

  /** The first row from y on whose filter byte the decoder does not know; h if there is none. */
  function FirstBad(raw: seq<Byte>, stride: nat, h: nat, y: nat): (k: nat)
    requires IsRaw(raw, stride, h) && y <= h
    ensures y <= k <= h
    ensures forall j :: y <= j < k ==> Known(raw, stride, h, j)
    ensures k < h ==> !Known(raw, stride, h, k)
    decreases h - y
  {
    if y == h || !Known(raw, stride, h, y) then y else FirstBad(raw, stride, h, y + 1)
  }

  function AtLeastOne(n: nat): nat { if n == 0 then 1 else n }

  /** The row above row y in the restored image. */
  function DecodedAbove(raw: seq<Byte>, stride: nat, h: nat, bpp: nat, y: nat): seq<Byte>
    requires IsRaw(raw, stride, h) && y <= h && bpp > 0
  {
    if y == 0 then Zeros(stride) else Decoded(raw, stride, h, bpp, y - 1)
  }

  /** One turn of the row loop. */
  method UnfilterNext(raw: array<Byte>, base: nat, stride: nat, channels: nat, prev: array<Byte>,
                      ghost was: seq<Byte>, ghost h: nat, ghost y: nat) returns (ok: bool)
    requires y < h && IsRaw(raw[..], stride, h) && IsRaw(was, stride, h) && base == Start(stride, y)
    requires prev.Length == stride && raw != prev && (channels > 0 || stride == 0)
    requires Progress(raw[..], was, stride, h, AtLeastOne(channels), y)
    requires prev[..] == DecodedAbove(was, stride, h, AtLeastOne(channels), y)
    modifies raw, prev
    ensures IsRaw(raw[..], stride, h) && ok == Known(was, stride, h, y)
    ensures Progress(raw[..], was, stride, h, AtLeastOne(channels), if ok then y + 1 else y)
    ensures ok ==> prev[..] == DecodedAbove(was, stride, h, AtLeastOne(channels), y + 1)
  {
    hide Start, Restore, Progress, Decoded, Line, FilterType;
    ghost var before, bpp, above := raw[..], AtLeastOne(channels), prev[..];
    RowReady(before, was, stride, h, bpp, y, above);
    ok := UnfilterRow(raw, base, stride, channels, prev);
    if ok {
      LineIs(raw[..], stride, h, y);
      RowDone(was, before, raw[..], stride, h, bpp, y);
      CopyRow(raw, base + 1, prev);
    } else {
      Halves(raw[..], before, base + 1, base + 1 + stride);
    }
  }

  lemma LineIs(raw: seq<Byte>, stride: nat, h: nat, y: nat)
    requires IsRaw(raw, stride, h) && y < h
    ensures Start(stride, y) + 1 + stride <= |raw|
    ensures Line(raw, stride, h, y) == raw[Start(stride, y) + 1..Start(stride, y) + 1 + stride]
    ensures FilterType(raw, stride, h, y) == raw[Start(stride, y)]
  {
    StartMono(stride, y, h);
  }

  /** Before its turn row y is as it was, and restoring it gives the image's row. */
  lemma RowReady(now: seq<Byte>, was: seq<Byte>, stride: nat, h: nat, bpp: nat, y: nat, above: seq<Byte>)
    requires IsRaw(now, stride, h) && IsRaw(was, stride, h) && bpp > 0 && y < h
    requires Progress(now, was, stride, h, bpp, y) && above == DecodedAbove(was, stride, h, bpp, y)
    ensures var p := Start(stride, y);
            && p + 1 + stride <= |now|
            && now[p] == FilterType(was, stride, h, y)
            && Decoded(was, stride, h, bpp, y) == Restore(now[p], bpp, now[p + 1..p + 1 + stride], above, stride)
            && (stride == 0 ==> Decoded(was, stride, h, bpp, y) == [])
  {
    LineIs(now, stride, h, y);
    hide Start, Restore;
    assert FilterType(now, stride, h, y) == FilterType(was, stride, h, y);
    assert Line(now, stride, h, y) == Line(was, stride, h, y);
  }

  lemma Halves(a: seq<Byte>, b: seq<Byte>, i: nat, j: nat)
    requires i <= j <= |a| == |b| && a[..i] == b[..i] && a[i..j] == b[i..j] && a[j..] == b[j..]
    ensures a == b
  {
    assert a == a[..i] + a[i..j] + a[j..] && b == b[..i] + b[i..j] + b[j..];
  }

  method CopyRow(raw: array<Byte>, at: nat, prev: array<Byte>)
    requires at + prev.Length <= raw.Length && raw != prev
    modifies prev
    ensures prev[..] == raw[at..at + prev.Length]
  {
    for x := 0 to prev.Length
      invariant prev[..x] == raw[at..at + x]
    {
      prev[x] := raw[at + x];
    }
  }

  /**
    * `png_unfilter`. It fails exactly when some row has an unknown filter byte and is not empty; the
    * rows before the first such row then hold the image, and the rows from it on are untouched.
    */
  method Unfilter(raw: array<Byte>, w: nat, h: nat, channels: nat) returns (ret: int)
    requires IsRaw(raw[..], w * channels, h)
    modifies raw
    ensures IsRaw(raw[..], w * channels, h)
    ensures ret == if FirstBad(old(raw[..]), w * channels, h, 0) == h then 0 else -1
    ensures ret == -1 <==> w * channels > 0 && exists y: nat :: y < h && BadByte(old(raw[..]), w * channels, y)
    ensures Progress(raw[..], old(raw[..]), w * channels, h, AtLeastOne(channels),
                     FirstBad(old(raw[..]), w * channels, h, 0))
  {
    BadRowIff(raw[..], w * channels, h);
    assert channels == 0 ==> w * channels == 0;
    ret := UnfilterRows(raw, w * channels, h, channels);
  }

  lemma NothingDone(raw: seq<Byte>, stride: nat, h: nat, bpp: nat)
    requires IsRaw(raw, stride, h) && bpp > 0
    ensures Progress(raw, raw, stride, h, bpp, 0)
  {
  }

  method UnfilterRows(raw: array<Byte>, stride: nat, h: nat, channels: nat) returns (ret: int)
    requires IsRaw(raw[..], stride, h) && (channels > 0 || stride == 0)
    modifies raw
    ensures IsRaw(raw[..], stride, h)
    ensures ret == if FirstBad(old(raw[..]), stride, h, 0) == h then 0 else -1
    ensures Progress(raw[..], old(raw[..]), stride, h, AtLeastOne(channels), FirstBad(old(raw[..]), stride, h, 0))
  {
    hide Progress, Decoded, Known, IsRaw, Restore, Line, FilterType;
    var prev := new Byte[stride](_ => 0);
    ghost var was, bpp := raw[..], AtLeastOne(channels);
    NothingDone(was, stride, h, bpp);
    assert prev[..] == Zeros(stride);
    var base := 0;
    for y := 0 to h
      invariant base == Start(stride, y) && IsRaw(raw[..], stride, h)
      invariant FirstBad(was, stride, h, 0) == FirstBad(was, stride, h, y)
      invariant Progress(raw[..], was, stride, h, bpp, y)
      invariant prev[..] == DecodedAbove(was, stride, h, bpp, y)
    {
      var ok := UnfilterNext(raw, base, stride, channels, prev, was, h, y);
      if !ok {
        return -1;
      }
      base := base + stride + 1;
    }
    return 0;
  }

  /** After unfiltering rows filtered from an image, the bytes behind the filter bytes are the image's. */
  lemma RestoredBytes(now: seq<Byte>, was: seq<Byte>, image: seq<seq<Byte>>, stride: nat, h: nat, bpp: nat, y: nat,
                      x: nat)
    requires IsRaw(now, stride, h) && IsRaw(was, stride, h) && IsImage(image, stride, h) && bpp > 0
    requires Progress(now, was, stride, h, bpp, h) && FilteredFrom(was, image, stride, h, bpp, h) && y < h && x < stride
    ensures At(stride + 1, 1 + x, y) < |now| && now[At(stride + 1, 1 + x, y)] == image[y][x]
  {
    hide IsRaw, FilterType, Line, Decoded, IsFiltered, At;
    DecodeIffFiltered(was, image, stride, h, bpp, h);
    RawIs(now, stride, h, y, x);
  }
}
