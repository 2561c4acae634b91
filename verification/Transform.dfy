/** Flips and quarter turns of a layer kept in a flat array. */
module Transform {
  import opened Grid

  datatype Move = FlipH | FlipV | Cw | Ccw

  function Inverse(m: Move): Move {
    match m
    case FlipH => FlipH
    case FlipV => FlipV
    case Cw => Ccw
    case Ccw => Cw
  }

  predicate Turns(m: Move) { m.Cw? || m.Ccw? }

  function Width(m: Move, w: nat, h: nat): nat { if Turns(m) then h else w }

  function Height(m: Move, w: nat, h: nat): nat { if Turns(m) then w else h }

  /** Where the pixel of column x, row y goes. */
  function To(m: Move, w: nat, h: nat, x: nat, y: nat): (i: nat)
    requires x < w && y < h
  {
    match m
    case FlipH => At(w, w - 1 - x, y)
    case FlipV => At(w, x, h - 1 - y)
    case Cw => At(h, h - 1 - y, x)
    case Ccw => At(h, y, w - 1 - x)
  }

  /** q is p with every pixel moved. */
  ghost predicate Moved(m: Move, w: nat, h: nat, p: seq<Pixel>, q: seq<Pixel>) {
    && |p| == |q| == w * h
    && forall x: nat, y: nat {:trigger At(w, x, y)} {:trigger To(m, w, h, x, y)} :: x < w && y < h ==>
         At(w, x, y) < |p| && To(m, w, h, x, y) < |q| && q[To(m, w, h, x, y)] == p[At(w, x, y)]
  }

  /** The column and row a pixel moves to. */
  function ToX(m: Move, w: nat, h: nat, x: nat, y: nat): nat
    requires x < w && y < h
  {
    match m
    case FlipH => w - 1 - x
    case FlipV => x
    case Cw => h - 1 - y
    case Ccw => y
  }

  function ToY(m: Move, w: nat, h: nat, x: nat, y: nat): nat
    requires x < w && y < h
  {
    match m
    case FlipH => y
    case FlipV => h - 1 - y
    case Cw => x
    case Ccw => w - 1 - x
  }

  lemma ToIs(m: Move, w: nat, h: nat, x: nat, y: nat)
    requires x < w && y < h
    ensures ToX(m, w, h, x, y) < Width(m, w, h) && ToY(m, w, h, x, y) < Height(m, w, h)
    ensures To(m, w, h, x, y) == At(Width(m, w, h), ToX(m, w, h, x, y), ToY(m, w, h, x, y)) < w * h
  {
    InGrid(Width(m, w, h), Height(m, w, h), ToX(m, w, h, x, y), ToY(m, w, h, x, y));
    assert w * h == h * w;
  }

  /** A move sends the flat indices one to one onto the flat indices. */
  lemma MoveBijective(m: Move, w: nat, h: nat, i: nat) returns (x: nat, y: nat)
    requires i < w * h
    ensures x < w && y < h && To(m, w, h, x, y) == i
    ensures forall x': nat, y': nat :: x' < w && y' < h && To(m, w, h, x', y') == i ==> x' == x && y' == y
  {
    var n, w', h' := Inverse(m), Width(m, w, h), Height(m, w, h);
    assert w' * h' == w * h;
    var c, r := CellOf(w', h', i);
    x, y := ToX(n, w', h', c, r), ToY(n, w', h', c, r);
    forall x': nat, y': nat | x' < w && y' < h && To(m, w, h, x', y') == i
      ensures x' == x && y' == y
    {
      ToIs(m, w, h, x', y');
      Unique(w', ToX(m, w, h, x', y'), ToY(m, w, h, x', y'), c, r);
    }
  }

  /**
    * Where the edges of a picture go. A clockwise turn brings the left column, read upwards, to the top row; a
    * counterclockwise one the right column, read downwards.
    */
  lemma Edges(m: Move, w: nat, h: nat, p: seq<Pixel>, q: seq<Pixel>, x: nat, y: nat)
    requires Moved(m, w, h, p, q) && x < w && y < h
    ensures At(w, 0, y) < |p| && At(w, w - 1, y) < |p| && At(w, x, 0) < |p|
    ensures m.FlipH? ==> At(w, w - 1, y) < |q| && q[At(w, w - 1, y)] == p[At(w, 0, y)]
    ensures m.FlipV? ==> At(w, x, h - 1) < |q| && q[At(w, x, h - 1)] == p[At(w, x, 0)]
    ensures m.Cw? ==> At(h, h - 1 - y, 0) < |q| && q[At(h, h - 1 - y, 0)] == p[At(w, 0, y)]
    ensures m.Ccw? ==> At(h, y, 0) < |q| && q[At(h, y, 0)] == p[At(w, w - 1, y)]
  {
    hide At;
    assert To(m, w, h, 0, y) < |q| && To(m, w, h, x, 0) < |q| && To(m, w, h, w - 1, y) < |q|;
  }

  // ---- Moves that cancel ---------------------------------------------------------------------------

  /** Two images are the same when all their pixels are. */
  lemma SamePixels(w: nat, h: nat, p: seq<Pixel>, q: seq<Pixel>)
    requires |p| == |q| == w * h
    requires forall x: nat, y: nat {:trigger At(w, x, y)} :: x < w && y < h ==>
               At(w, x, y) < w * h && p[At(w, x, y)] == q[At(w, x, y)]
    ensures p == q
  {
    forall i | 0 <= i < w * h
      ensures p[i] == q[i]
    {
      var x, y := CellOf(w, h, i);
    }
  }

  /** Where a pixel goes in two moves. */
  lemma MovedTwice(m: Move, n: Move, w: nat, h: nat, p: seq<Pixel>, q: seq<Pixel>, r: seq<Pixel>, x: nat, y: nat)
    requires Moved(m, w, h, p, q) && Moved(n, Width(m, w, h), Height(m, w, h), q, r) && x < w && y < h
    ensures var x', y' := ToX(m, w, h, x, y), ToY(m, w, h, x, y);
            && x' < Width(m, w, h) && y' < Height(m, w, h) && At(w, x, y) < |p|
            && To(n, Width(m, w, h), Height(m, w, h), x', y') < |r|
            && r[To(n, Width(m, w, h), Height(m, w, h), x', y')] == p[At(w, x, y)]
  {
    ToIs(m, w, h, x, y);
    hide ToX, ToY;
    assert q[To(m, w, h, x, y)] == p[At(w, x, y)];
  }

  lemma ToInverse(m: Move, w: nat, h: nat, x: nat, y: nat)
    requires x < w && y < h
    ensures var x', y' := ToX(m, w, h, x, y), ToY(m, w, h, x, y);
            && x' < Width(m, w, h) && y' < Height(m, w, h)
            && To(Inverse(m), Width(m, w, h), Height(m, w, h), x', y') == At(w, x, y)
  {
  }

  /** Every move is undone by its inverse: flips by themselves, turns by the opposite turn. */
  lemma InverseRestores(m: Move, w: nat, h: nat, p: seq<Pixel>, q: seq<Pixel>, r: seq<Pixel>)
    requires Moved(m, w, h, p, q) && Moved(Inverse(m), Width(m, w, h), Height(m, w, h), q, r)
    ensures r == p
  {
    assert w * h == h * w && |r| == |p| == w * h;
    hide Moved, At, To, ToX, ToY, Inverse, Width, Height;
    forall x: nat, y: nat | x < w && y < h
      ensures At(w, x, y) < w * h && r[At(w, x, y)] == p[At(w, x, y)]
    {
      MovedTwice(m, Inverse(m), w, h, p, q, r, x, y);
      ToInverse(m, w, h, x, y);
    }
    SamePixels(w, h, p, r);
  }

  /** Two clockwise turns are a horizontal flip after a vertical one. */
  lemma TwoTurnsAreFlips(w: nat, h: nat, p: seq<Pixel>, q: seq<Pixel>, r: seq<Pixel>, u: seq<Pixel>, v: seq<Pixel>)
    requires Moved(Cw, w, h, p, q) && Moved(Cw, h, w, q, r)
    requires Moved(FlipV, w, h, p, u) && Moved(FlipH, w, h, u, v)
    ensures r == v
  {
    assert w * h == h * w && |r| == |v| == w * h;
    hide Moved, At;
    forall x: nat, y: nat | x < w && y < h
      ensures At(w, x, y) < w * h && r[At(w, x, y)] == v[At(w, x, y)]
    {
      TwoTurnsPixel(w, h, p, q, r, u, v, x, y);
    }
    SamePixels(w, h, r, v);
  }

  lemma TwoTurnsPixel(w: nat, h: nat, p: seq<Pixel>, q: seq<Pixel>, r: seq<Pixel>, u: seq<Pixel>, v: seq<Pixel>,
                      x: nat, y: nat)
    requires Moved(Cw, w, h, p, q) && Moved(Cw, h, w, q, r)
    requires Moved(FlipV, w, h, p, u) && Moved(FlipH, w, h, u, v) && x < w && y < h
    ensures At(w, x, y) < |r| == |v| == w * h && r[At(w, x, y)] == v[At(w, x, y)]
  {
    assert w * h == h * w && |r| == |v| == w * h;
    var x', y' := w - 1 - x, h - 1 - y;
    MovedTwice(Cw, Cw, w, h, p, q, r, x', y');
    MovedTwice(FlipV, FlipH, w, h, p, u, v, x', y');
    hide Moved, At;
    assert To(Cw, h, w, h - 1 - y', x') == At(w, x, y) == To(FlipH, w, h, x', h - 1 - y');
  }

  // ---- In place ------------------------------------------------------------------------------------

  /** A layer; its buffer is replaced when it is turned. */
  class Layer {
    var w: nat
    var h: nat
    var pixels: array<Pixel>

    ghost predicate Valid()
      reads this
    {
      pixels.Length == w * h
    }

    constructor (width: nat, height: nat, buffer: array<Pixel>)
      requires buffer.Length == width * height
      ensures Valid() && w == width && h == height && pixels == buffer
    {
      w, h, pixels := width, height, buffer;
    }

    method FlipHorizontal()
      requires Valid()
      modifies pixels
      ensures Moved(FlipH, w, h, old(pixels[..]), pixels[..])
    {
      hide At, RowsFlipped, Moved;
      ghost var was := pixels[..];
      NoneFlipped(w, h, was);
      for y := 0 to h
        invariant RowsFlipped(w, h, was, pixels[..], y)
      {
        ghost var q := pixels[..];
        RowInside(w, h, y);
        FlipRow(pixels, w, At(w, 0, y));
        assert RowReversed(w, At(w, 0, y), q, pixels[..]);
        RowFlipped(w, h, was, q, pixels[..], y);
      }
      FlippedRows(w, h, was, pixels[..]);
    }

    method FlipVertical()
      requires Valid()
      modifies pixels
      ensures Moved(FlipV, w, h, old(pixels[..]), pixels[..])
    {
      hide At, FromRow, RowsExchanged, PairSwapped, RowsSwapped, Moved;
      ghost var was := pixels[..];
      NoneSwapped(w, h, was);
      for y := 0 to h / 2
        invariant RowsSwapped(w, h, was, pixels[..], y)
      {
        ghost var q := pixels[..];
        RowsApart(w, h, y);
        SwapRows(pixels, w, At(w, 0, y), At(w, 0, h - 1 - y));
        ExchangedPair(w, h, q, pixels[..], y);
        RowsSwappedMore(w, h, was, q, pixels[..], y);
      }
      SwappedRows(w, h, was, pixels[..]);
    }

    /** A quarter turn into a new buffer. */
    method Rotate90(cw: bool)
      requires Valid()
      modifies this
      ensures Valid() && w == old(h) && h == old(w) && fresh(pixels)
      ensures Moved(if cw then Cw else Ccw, h, w, old(pixels[..]), pixels[..])
    {
      var next := new Pixel[h * w](_ => 0);
      TurnInto(pixels, next, w, h, cw);
      pixels := next;
      w, h := h, w;
    }
  }

  lemma AllInGrid(w: nat, h: nat)
    ensures forall x: nat, y: nat {:trigger At(w, x, y)} :: x < w && y < h ==> At(w, x, y) < w * h
  {
    AllUnique(w, h);
  }

  /** Reverses the row that starts at lo. */
  method FlipRow(a: array<Pixel>, w: nat, lo: nat)
    requires lo + w <= a.Length
    modifies a
    ensures forall k :: 0 <= k < a.Length ==> a[k] == old(a[if lo <= k < lo + w then 2 * lo + w - 1 - k else k])
  {
    for x := 0 to w / 2
      invariant forall k :: 0 <= k < a.Length ==>
                  a[k] == old(a[if lo <= k < lo + x || lo + w - x <= k < lo + w then 2 * lo + w - 1 - k else k])
    {
      a[lo + x], a[lo + (w - 1 - x)] := a[lo + (w - 1 - x)], a[lo + x];
    }
  }

  /** Cells of row y are those from its start on. */
  lemma InRow(w: nat, h: nat, y: nat, x': nat, y': nat)
    requires x' < w && y < h && y' < h
    ensures At(w, 0, y) + w <= w * h && At(w, x', y') < w * h
    ensures At(w, 0, y) <= At(w, x', y') < At(w, 0, y) + w <==> y == y'
    ensures y == y' ==> At(w, x', y') == At(w, 0, y) + x'
  {
    InGrid(w, h, w - 1, y);
    InGrid(w, h, x', y');
    if y' < y {
      RowApart(w, x', y', 0, y);
    } else if y < y' {
      RowApart(w, w - 1, y, x', y');
    }
  }

  /** Rows before y are reversed. */
  ghost predicate RowsFlipped(w: nat, h: nat, p: seq<Pixel>, q: seq<Pixel>, y: nat) {
    && |p| == |q| == w * h
    && forall x': nat, y': nat {:trigger At(w, x', y')} :: x' < w && y' < h ==>
         At(w, x', y') < |q| && At(w, w - 1 - x', y') < |p|
         && q[At(w, x', y')] == p[At(w, if y' < y then w - 1 - x' else x', y')]
  }

  /** The row that starts at lo is reversed. */
  ghost predicate RowReversed(w: nat, lo: nat, q: seq<Pixel>, r: seq<Pixel>) {
    && lo + w <= |q| == |r|
    && forall k :: 0 <= k < |r| ==> r[k] == q[if lo <= k < lo + w then 2 * lo + w - 1 - k else k]
  }

  lemma FlippedPixel(w: nat, h: nat, q: seq<Pixel>, r: seq<Pixel>, y: nat, x': nat, y': nat)
    requires |q| == w * h && y < h && RowReversed(w, At(w, 0, y), q, r) && x' < w && y' < h
    ensures At(w, x', y') < |r| && At(w, w - 1 - x', y') < |q|
    ensures r[At(w, x', y')] == q[At(w, if y' == y then w - 1 - x' else x', y')]
  {
    InRow(w, h, y, x', y');
    InRow(w, h, y, w - 1 - x', y');
    hide At;
  }

  lemma RowFlipped(w: nat, h: nat, p: seq<Pixel>, q: seq<Pixel>, r: seq<Pixel>, y: nat)
    requires RowsFlipped(w, h, p, q, y) && y < h && RowReversed(w, At(w, 0, y), q, r)
    ensures RowsFlipped(w, h, p, r, y + 1)
  {
    assert |r| == |q|;
    hide At, RowReversed;
    forall x': nat, y': nat {:trigger At(w, x', y')} | x' < w && y' < h
      ensures At(w, x', y') < |r| && At(w, w - 1 - x', y') < |p|
              && r[At(w, x', y')] == p[At(w, if y' < y + 1 then w - 1 - x' else x', y')]
    {
      FlippedPixel(w, h, q, r, y, x', y');
    }
  }

  /** The pixel of q at column x, row y is that of p at row y'. */
  predicate FromRow(w: nat, p: seq<Pixel>, q: seq<Pixel>, x: nat, y: nat, y': nat) {
    At(w, x, y) < |q| && At(w, x, y') < |p| && q[At(w, x, y)] == p[At(w, x, y')]
  }

  function Paired(h: nat, y: nat, y': nat): (z: nat)
    requires y' < h
    ensures z < h
  {
    if y' == y || y' == h - 1 - y then h - 1 - y' else y'
  }

  /** Row y and its mirror image are swapped. */
  ghost predicate PairSwapped(w: nat, h: nat, q: seq<Pixel>, r: seq<Pixel>, y: nat) {
    && |q| == |r| == w * h
    && forall x: nat, y': nat :: x < w && y' < h ==> FromRow(w, q, r, x, y', Paired(h, y, y'))
  }

  /** Exchanges the rows that start at lo and hi. */
  method SwapRows(a: array<Pixel>, w: nat, lo: nat, hi: nat)
    requires lo + w <= hi && hi + w <= a.Length
    modifies a
    ensures RowsExchanged(w, lo, hi, old(a[..]), a[..])
  {
    ghost var was, d := a[..], hi - lo;
    for x := 0 to w
      invariant forall k :: lo <= k < lo + x ==> a[k] == was[k + d]
      invariant forall k :: hi <= k < hi + x ==> a[k] == was[k - d]
      invariant forall k :: 0 <= k < a.Length && !(lo <= k < lo + x) && !(hi <= k < hi + x) ==> a[k] == was[k]
    {
      a[lo + x], a[hi + x] := a[hi + x], a[lo + x];
    }
  }

  ghost predicate RowsExchanged(w: nat, lo: nat, hi: nat, q: seq<Pixel>, r: seq<Pixel>) {
    && lo + w <= hi && hi + w <= |q| == |r|
    && forall k :: 0 <= k < |r| ==>
         r[k] == q[if lo <= k < lo + w then k + (hi - lo) else if hi <= k < hi + w then k - (hi - lo) else k]
  }

  lemma ExchangedPair(w: nat, h: nat, q: seq<Pixel>, r: seq<Pixel>, y: nat)
    requires |q| == w * h && y < h / 2 && RowsExchanged(w, At(w, 0, y), At(w, 0, h - 1 - y), q, r)
    ensures PairSwapped(w, h, q, r, y)
  {
    hide At;
    forall x: nat, y': nat | x < w && y' < h
      ensures FromRow(w, q, r, x, y', Paired(h, y, y'))
    {
      InRow(w, h, y, x, y');
      InRow(w, h, h - 1 - y, x, y');
      InRow(w, h, y, x, Paired(h, y, y'));
      InRow(w, h, h - 1 - y, x, Paired(h, y, y'));
    }
  }

  function Swapped(h: nat, y: nat, y': nat): (z: nat)
    requires y' < h
    ensures z < h
  {
    if y' < y || y' > h - 1 - y then h - 1 - y' else y'
  }

  /** Rows before y and their mirror images are swapped. */
  ghost predicate RowsSwapped(w: nat, h: nat, p: seq<Pixel>, q: seq<Pixel>, y: nat) {
    && |p| == |q| == w * h
    && forall x: nat, y': nat :: x < w && y' < h ==> FromRow(w, p, q, x, y', Swapped(h, y, y'))
  }

  lemma NoneSwapped(w: nat, h: nat, p: seq<Pixel>)
    requires |p| == w * h
    ensures RowsSwapped(w, h, p, p, 0)
  {
    AllInGrid(w, h);
    hide At;
  }

  lemma RowsSwappedMore(w: nat, h: nat, p: seq<Pixel>, q: seq<Pixel>, r: seq<Pixel>, y: nat)
    requires RowsSwapped(w, h, p, q, y) && PairSwapped(w, h, q, r, y) && y < h / 2
    ensures RowsSwapped(w, h, p, r, y + 1)
  {
    hide At;
    forall x: nat, y': nat {:trigger FromRow(w, p, r, x, y', Swapped(h, y + 1, y'))} | x < w && y' < h
      ensures FromRow(w, p, r, x, y', Swapped(h, y + 1, y'))
    {
      var z := Paired(h, y, y');
      assert FromRow(w, q, r, x, y', z) && FromRow(w, p, q, x, z, Swapped(h, y, z));
    }
  }

  lemma RowInside(w: nat, h: nat, y: nat)
    requires y < h
    ensures At(w, 0, y) + w <= w * h
  {
    AlongRow(w, y);
    RowBound(w, y + 1, h);
  }

  lemma RowsApart(w: nat, h: nat, y: nat)
    requires y < h / 2
    ensures At(w, 0, y) + w <= At(w, 0, h - 1 - y) && At(w, 0, h - 1 - y) + w <= w * h
  {
    RowInside(w, h, h - 1 - y);
    RowInside(w, y + 1, y);
    RowBound(w, y + 1, h - 1 - y);
  }

  lemma NoneFlipped(w: nat, h: nat, p: seq<Pixel>)
    requires |p| == w * h
    ensures RowsFlipped(w, h, p, p, 0)
  {
    AllInGrid(w, h);
    hide At;
  }

  lemma FlippedRows(w: nat, h: nat, p: seq<Pixel>, q: seq<Pixel>)
    requires RowsFlipped(w, h, p, q, h)
    ensures Moved(FlipH, w, h, p, q)
  {
    hide At;
  }

  lemma SwappedRows(w: nat, h: nat, p: seq<Pixel>, q: seq<Pixel>)
    requires RowsSwapped(w, h, p, q, h / 2)
    ensures Moved(FlipV, w, h, p, q)
  {
    hide At;
    forall x: nat, y: nat {:trigger At(w, x, y)} | x < w && y < h
      ensures At(w, x, y) < |p| && To(FlipV, w, h, x, y) < |q| && q[To(FlipV, w, h, x, y)] == p[At(w, x, y)]
    {
      var z := h - 1 - y;
      assert FromRow(w, p, q, x, z, Swapped(h, h / 2, z));
    }
  }

  /** Rows up to y, and columns up to x of row y, are in their new places. */
  ghost predicate Turned(m: Move, w: nat, h: nat, p: seq<Pixel>, q: seq<Pixel>, x: nat, y: nat) {
    && |p| == |q| == w * h
    && forall x': nat, y': nat {:trigger At(w, x', y')} {:trigger To(m, w, h, x', y')} ::
         x' < w && y' < h && (y' < y || (y' == y && x' < x)) ==>
         At(w, x', y') < |p| && To(m, w, h, x', y') < |q| && q[To(m, w, h, x', y')] == p[At(w, x', y')]
  }

  lemma TurnedMore(m: Move, w: nat, h: nat, p: seq<Pixel>, q: seq<Pixel>, x: nat, y: nat)
    requires x < w && y < h && Turned(m, w, h, p, q, x, y)
    ensures To(m, w, h, x, y) < w * h && At(w, x, y) < w * h
    ensures Turned(m, w, h, p, q[To(m, w, h, x, y) := p[At(w, x, y)]], x + 1, y)
  {
    InGrid(w, h, x, y);
    ToIs(m, w, h, x, y);
    var i, v := To(m, w, h, x, y), p[At(w, x, y)];
    hide To, At;
    forall x': nat, y': nat | x' < w && y' < h && (y' < y || (y' == y && x' < x + 1))
      ensures At(w, x', y') < |p| && To(m, w, h, x', y') < |q| && q[i := v][To(m, w, h, x', y')] == p[At(w, x', y')]
    {
      if To(m, w, h, x', y') == i {
        var _, _ := MoveBijective(m, w, h, i);
      }
    }
  }

  method TurnInto(a: array<Pixel>, next: array<Pixel>, w: nat, h: nat, cw: bool)
    requires a.Length == next.Length == w * h && a != next
    modifies next
    ensures Moved(if cw then Cw else Ccw, w, h, a[..], next[..])
  {
    ghost var m := if cw then Cw else Ccw;
    hide At;
    for y := 0 to h
      invariant Turned(m, w, h, a[..], next[..], 0, y)
    {
      for x := 0 to w
        invariant Turned(m, w, h, a[..], next[..], x, y)
      {
        TurnedMore(m, w, h, a[..], next[..], x, y);
        ghost var was := next[..];
        var to := if cw then At(h, h - 1 - y, x) else At(h, y, w - 1 - x);
        assert to == To(m, w, h, x, y);
        next[to] := a[At(w, x, y)];
        assert next[..] == was[to := a[At(w, x, y)]];
      }
    }
  }
}
