/** Row-major grids in flat arrays. */
module Grid {

  datatype Point = Point(x: int, y: int)

  type Pixel = x: int | 0 <= x < 0x1_0000_0000

  /** The flat index of column x in row y of a grid w cells wide. */
  function At(w: nat, x: nat, y: nat): (i: nat) { y * w + x }

  lemma InGrid(w: nat, h: nat, x: nat, y: nat)
    requires x < w && y < h
    ensures At(w, x, y) < w * h
  {
    assert (h - 1 - y) * w >= 0;
    assert w * h == y * w + (h - 1 - y) * w + w;
  }

  lemma RowApart(w: nat, x: nat, y: nat, x': nat, y': nat)
    requires x < w && y < y'
    ensures At(w, x, y) < At(w, x', y')
  {
    assert (y' - y - 1) * w >= 0;
    assert y' * w == y * w + (y' - y - 1) * w + w;
  }

  /** Different cells have different flat indices. */
  lemma Unique(w: nat, x: nat, y: nat, x': nat, y': nat)
    requires x < w && x' < w
    ensures At(w, x, y) == At(w, x', y') <==> x == x' && y == y'
  {
    if y < y' {
      RowApart(w, x, y, x', y');
    } else if y' < y {
      RowApart(w, x', y', x, y);
    }
  }

  lemma AllUnique(w: nat, h: nat)
    ensures forall x: nat, y: nat {:trigger At(w, x, y)} :: x < w && y < h ==> At(w, x, y) < w * h
    ensures forall x: nat, y: nat, x': nat, y': nat {:trigger At(w, x, y), At(w, x', y')} ::
              x < w && x' < w && At(w, x, y) == At(w, x', y') ==> x == x' && y == y'
  {
    forall x: nat, y: nat | x < w && y < h
      ensures At(w, x, y) < w * h
    {
      InGrid(w, h, x, y);
    }
    forall x: nat, y: nat, x': nat, y': nat | x < w && x' < w && At(w, x, y) == At(w, x', y')
      ensures x == x' && y == y'
    {
      Unique(w, x, y, x', y');
    }
  }

  /** Walking along a row, and from its end to the start of the next. */
  lemma AlongRow(w: nat, y: nat)
    ensures forall x: nat {:trigger At(w, x, y)} :: At(w, x, y) == At(w, 0, y) + x
    ensures At(w, w, y) == At(w, 0, y + 1)
  {
    assert (y + 1) * w == y * w + w;
  }

  /** Every flat index is that of one cell. */
  lemma Cell(w: nat, h: nat, i: nat)
    requires i < w * h
    ensures w > 0 && i % w < w && i / w < h && At(w, i % w, i / w) == i
  {
    RowBound(w, h, i / w);
  }

  lemma CellOf(w: nat, h: nat, i: nat) returns (x: nat, y: nat)
    requires i < w * h
    ensures x < w && y < h && At(w, x, y) == i
  {
    Cell(w, h, i);
    x, y := i % w, i / w;
  }

  lemma RowBound(w: nat, h: nat, y: nat)
    ensures y >= h ==> y * w >= w * h
  {
    if y >= h {
      assert (y - h) * w >= 0;
      assert y * w == (y - h) * w + w * h;
    }
  }

  /** Row and column of a flat index. */
  lemma RowCol(w: nat, x: nat, y: nat)
    requires x < w
    ensures At(w, x, y) / w == y && At(w, x, y) % w == x
  {
    var i := At(w, x, y);
    Cell(w, y + 1, i) by { InGrid(w, y + 1, x, y); }
    Unique(w, x, y, i % w, i / w);
  }
}
