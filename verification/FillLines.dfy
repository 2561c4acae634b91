/** What the fill tool does on canvases of one row or one column, in closed form. */
module FillLines {
  import opened Grid
  import opened Reach
  import opened Fill

  // ---- Skipping ------------------------------------------------------------------------------------

  predicate AllDead(c: Canvas, filled: set<Point>, ps: seq<Point>)
    requires Sound(c)
  {
    forall k :: 0 <= k < |ps| ==> Dead(c, filled, ps[k])
  }

  /** Dead points on top of the stack change nothing. */
  lemma {:induction false} SkipDead(c: Canvas, s: Search, base: seq<Point>, top: seq<Point>, cap: nat)
    requires Sound(c) && s.stack == base + top && AllDead(c, s.filled, top)
    ensures Run(c, s, cap) == Run(c, s.(stack := base), cap)
    decreases |top|
  {
    if top == [] {
      assert s.stack == base;
    } else {
      var n := |top| - 1;
      assert Top(s) == top[n] && Rest(s) == base + top[..n];
      hide Run, Dead;
      NextRun(c, s, cap);
      SkipDead(c, s.(stack := Rest(s)), base, top[..n], cap);
    }
  }

  lemma NextRun(c: Canvas, s: Search, cap: nat)
    requires Sound(c) && s.stack != []
    ensures Run(c, s, cap) == Run(c, Next(c, s, cap), cap)
    ensures Dead(c, s.filled, Top(s)) ==> Next(c, s, cap) == s.(stack := Rest(s))
  {
  }

  /** Filling the point on top and pushing its neighbours. */
  lemma TakePush(c: Canvas, s: Search, base: seq<Point>, p: Point, cap: nat)
    requires Sound(c) && s.stack == base + [p] && !Dead(c, s.filled, p) && |base| + 4 < cap
    ensures Run(c, s, cap) == Run(c, Search(s.filled + {p}, base + Around(p), s.refused), cap)
  {
    assert Top(s) == p && Rest(s) == base;
  }

  /** Filling the point on top while the guard refuses its neighbours. */
  lemma TakeRefuse(c: Canvas, s: Search, base: seq<Point>, p: Point, cap: nat)
    requires Sound(c) && s.stack == base + [p] && !Dead(c, s.filled, p) && |base| + 4 >= cap
    ensures Run(c, s, cap) == Run(c, Search(s.filled + {p}, base, s.refused + {p}), cap)
  {
    assert Top(s) == p && Rest(s) == base;
  }

  // ---- One row ---------------------------------------------------------------------------------------

  /** Columns a to b of a canvas of one row have the target colour, and the columns next to them do not. */
  predicate RowSpan(c: Canvas, a: nat, b: nat) {
    && Sound(c) && c.h == 1 && a <= b < c.w
    && (forall x :: a <= x <= b ==> Target(c, Point(x, 0)))
    && !Target(c, Point(a - 1, 0)) && !Target(c, Point(b + 1, 0))
  }

  lemma RowBasics(c: Canvas, a: nat, b: nat)
    requires RowSpan(c, a, b)
    ensures Sound(c) && c.h == 1 && a <= b < c.w
  {
  }

  function Row(i: int, j: int): set<Point> { set x | i <= x <= j :: Point(x, 0) }

  lemma RowGrows(i: int, j: int)
    requires i <= j + 1
    ensures Point(i - 1, 0) !in Row(i, j) && Row(i, j) + {Point(i - 1, 0)} == Row(i - 1, j)
    ensures Point(j + 1, 0) !in Row(i, j) && Row(i, j) + {Point(j + 1, 0)} == Row(i, j + 1)
    ensures i <= j ==> Point(i, 0) in Row(i, j) && Point(j, 0) in Row(i, j)
  {
  }

  lemma OffRow(c: Canvas, f: set<Point>, x: int)
    requires Sound(c) && c.h == 1
    ensures Dead(c, f, Point(x, 1)) && Dead(c, f, Point(x, -1))
  {
  }

  lemma RowEdge(c: Canvas, a: nat, b: nat, f: set<Point>, x: int)
    requires RowSpan(c, a, b) && a - 1 <= x <= b + 1 && Point(x, 0) !in f
    ensures Dead(c, f, Point(x, 0)) <==> x < a || x > b
  {
  }

  /** Going right: the stack never grows. */
  lemma {:induction false} RowRight(c: Canvas, a: nat, b: nat, i: int, x: int, refused: set<Point>)
    requires RowSpan(c, a, b) && c.w > 4 && a <= i < x <= b + 1
    ensures Run(c, Search(Row(i, x - 1), [Point(x, 0)], refused), c.w).filled == Row(i, b)
    decreases b - x
  {
    hide Row, RowSpan, Dead, Target, Around;
    RowBasics(c, a, b);
    var p, s := Point(x, 0), Search(Row(i, x - 1), [Point(x, 0)], refused);
    RowGrows(i, x - 1);
    RowEdge(c, a, b, s.filled, x);
    assert s.stack == [] + [p];
    if x > b {
      SkipDead(c, s, [], [p], c.w);
    } else {
      TakePush(c, s, [], p, c.w);
      RowRightSkips(c, i, x, refused);
      RowRight(c, a, b, i, x + 1, refused);
    }
  }

  lemma RowRightSkips(c: Canvas, i: int, x: int, refused: set<Point>)
    requires Sound(c) && c.h == 1 && i < x
    ensures Run(c, Search(Row(i, x), [] + Around(Point(x, 0)), refused), c.w)
         == Run(c, Search(Row(i, x), [Point(x + 1, 0)], refused), c.w)
  {
    var f, top := Row(i, x), [Point(x - 1, 0), Point(x, 1), Point(x, -1)];
    OffRow(c, f, x);
    assert Point(x - 1, 0) in f;
    hide Row, Run, Target;
    var t := Search(f, [] + Around(Point(x, 0)), refused);
    assert t.stack == [Point(x + 1, 0)] + top;
    SkipDead(c, t, [Point(x + 1, 0)], top, c.w);
  }

  /** How far left of the seed the fill gets before the guard stops it. */
  function RowEnd(n: nat, a: int, x: int): int { if x - a + 4 <= n then a else x - (n - 4) }

  /** What is left on the stack on the way left: the seed's right neighbour, below dead points. */
  predicate Behind(c: Canvas, filled: set<Point>, p: Point, left: seq<Point>)
    requires Sound(c)
  {
    left != [] && left[0] == p && AllDead(c, filled, left[1..])
  }

  lemma BehindMore(c: Canvas, f: set<Point>, g: set<Point>, p: Point, left: seq<Point>, more: seq<Point>)
    requires Sound(c) && f <= g && Behind(c, f, p, left) && AllDead(c, g, more)
    ensures Behind(c, g, p, left) && Behind(c, g, p, left + more)
  {
    DeadStays(c, f, g, left[1..]);
    hide Dead;
    assert (left + more)[1..] == left[1..] + more;
  }

  lemma DeadStays(c: Canvas, f: set<Point>, g: set<Point>, ps: seq<Point>)
    requires Sound(c) && f <= g && AllDead(c, f, ps)
    ensures AllDead(c, g, ps)
  {
    hide Target;
    assert forall k :: 0 <= k < |ps| ==> Dead(c, f, ps[k]);
  }

  /** The dead points are skipped, and the way right is taken. */
  lemma RowTurn(c: Canvas, a: nat, b: nat, i: int, x: int, left: seq<Point>, refused: set<Point>)
    requires RowSpan(c, a, b) && c.w > 4 && a <= i <= x <= b && Behind(c, Row(i, x), Point(x + 1, 0), left)
    ensures Run(c, Search(Row(i, x), left, refused), c.w).filled == Row(i, b)
  {
    hide Run, Row, RowSpan, Dead;
    RowBasics(c, a, b);
    var z := [Point(x + 1, 0)];
    assert left == z + left[1..];
    SkipDead(c, Search(Row(i, x), left, refused), z, left[1..], c.w);
    RowRight(c, a, b, i, x + 1, refused);
  }

  /** Going left: every pixel leaves its right neighbour on the stack. */
  lemma {:induction false} RowLeft(c: Canvas, a: nat, b: nat, x: int, k: nat, left: seq<Point>, refused: set<Point>)
    requires RowSpan(c, a, b) && x <= b && 0 < k && k + 3 < c.w && a <= x - k + 1
    requires |left| == k && Behind(c, Row(x - k + 1, x), Point(x + 1, 0), left)
    ensures Run(c, Search(Row(x - k + 1, x), left + [Point(x - k, 0)], refused), c.w).filled
         == Row(RowEnd(c.w, a, x), b)
    decreases x - k - a + 1
  {
    hide Run, Row, RowSpan, Behind, Target;
    RowBasics(c, a, b);
    var f, p, q := Row(x - k + 1, x), Point(x - k, 0), Point(x - k + 1, 0);
    RowGrows(x - k + 1, x);
    RowEdge(c, a, b, f, x - k);
    if x - k < a {
      BehindMore(c, f, f, Point(x + 1, 0), left, [p]);
      RowTurn(c, a, b, x - k + 1, x, left + [p], refused);
    } else {
      assert q in f + {p};
      BehindMore(c, f, f + {p}, Point(x + 1, 0), left, [q]);
      if k + 4 < c.w {
        RowLeftOn(c, x, k, left, refused);
        RowLeft(c, a, b, x, k + 1, left + [q], refused);
      } else {
        TakeRefuse(c, Search(f, left + [p], refused), left, p, c.w);
        RowTurn(c, a, b, x - k, x, left, refused + {p});
      }
    }
  }

  /** One pixel to the left, its neighbours pushed. */
  lemma RowLeftOn(c: Canvas, x: int, k: nat, left: seq<Point>, refused: set<Point>)
    requires Sound(c) && c.h == 1 && 0 < k == |left| && k + 4 < c.w && !Dead(c, Row(x - k + 1, x), Point(x - k, 0))
    ensures Run(c, Search(Row(x - k + 1, x), left + [Point(x - k, 0)], refused), c.w)
         == Run(c, Search(Row(x - k, x), left + [Point(x - k + 1, 0)] + [Point(x - k - 1, 0)], refused), c.w)
  {
    hide Run, Row, Dead;
    var p, f := Point(x - k, 0), Row(x - k, x);
    RowGrows(x - k + 1, x);
    OffRow(c, f, x - k);
    TakePush(c, Search(Row(x - k + 1, x), left + [p], refused), left, p, c.w);
    var base, top := left + [Point(x - k + 1, 0)] + [Point(x - k - 1, 0)], [Point(x - k, 1), Point(x - k, -1)];
    assert left + Around(p) == base + top;
    SkipDead(c, Search(f, left + Around(p), refused), base, top, c.w);
  }

  /** What the fill leaves in a row. */
  lemma RowReached(c: Canvas, a: nat, b: nat, x: nat)
    requires RowSpan(c, a, b) && a <= x <= b
    ensures Reached(c, Point(x, 0)) == if c.w <= 4 then {Point(x, 0)} else Row(RowEnd(c.w, a, x), b)
  {
    var p := Point(x, 0);
    assert c.w * c.h == c.w;
    if c.w <= 4 {
      TinyCanvas(c, p);
    } else {
      assert !Dead(c, {}, p);
      RowSeed(c, x);
      hide Run, Row, RowSpan, Dead;
      RowLeft(c, a, b, x, 1, [Point(x + 1, 0)], {});
    }
  }

  lemma RowSeed(c: Canvas, x: int)
    requires Sound(c) && c.h == 1 && c.w > 4 && !Dead(c, {}, Point(x, 0))
    ensures Run(c, Start(Point(x, 0)), c.w)
         == Run(c, Search(Row(x, x), [Point(x + 1, 0)] + [Point(x - 1, 0)], {}), c.w)
    ensures Behind(c, Row(x, x), Point(x + 1, 0), [Point(x + 1, 0)])
  {
    var p, s := Point(x, 0), Start(Point(x, 0));
    var base, top := [Point(x + 1, 0)] + [Point(x - 1, 0)], [Point(x, 1), Point(x, -1)];
    assert {} + {p} == Row(x, x);
    OffRow(c, Row(x, x), x);
    hide Run, Row, Dead;
    assert s.stack == [] + [p] && [] + Around(p) == base + top;
    TakePush(c, s, [], p, c.w);
    SkipDead(c, Search(Row(x, x), base + top, {}), base, top, c.w);
  }

  // ---- The component of a row -------------------------------------------------------------------------

  lemma {:induction false} RowConnected(c: Canvas, a: nat, b: nat, x: nat, y: nat)
    requires RowSpan(c, a, b) && a <= x <= b && a <= y <= b
    ensures InComponent(c, Point(x, 0), Point(y, 0))
    decreases if x < y then y - x else x - y
  {
    if x == y {
      ReachesSelf(Links(c), Point(x, 0));
    } else {
      var z := if x < y then y - 1 else y + 1;
      RowConnected(c, a, b, x, z);
      assert Point(y, 0) == Around(Point(z, 0))[if x < y then 0 else 1];
      assert Links(c)(Point(z, 0), Point(y, 0));
      StepAfter(Links(c), Point(x, 0), Point(z, 0), Point(y, 0));
    }
  }

  lemma RowClosed(c: Canvas, a: nat, b: nat, p: Point, q: Point)
    requires RowSpan(c, a, b) && p in Row(a, b) && Links(c)(p, q)
    ensures q in Row(a, b)
  {
    assert q == Point(q.x, q.y) && q.y == 0;
  }

  lemma RowJoined(c: Canvas, a: nat, b: nat, x: nat, p: Point)
    requires RowSpan(c, a, b) && a <= x <= b && p in Row(a, b)
    ensures InComponent(c, Point(x, 0), p)
  {
    RowConnected(c, a, b, x, p.x);
  }

  lemma RowSeedIn(c: Canvas, a: nat, b: nat, x: nat)
    requires RowSpan(c, a, b) && a <= x <= b
    ensures Target(c, Point(x, 0)) && Point(x, 0) in Row(a, b)
  {
  }

  lemma RowComponent(c: Canvas, a: nat, b: nat, x: nat)
    requires RowSpan(c, a, b) && a <= x <= b
    ensures Component(c, Point(x, 0)) == Row(a, b)
  {
    hide Row, RowSpan, Component, Links, Target, InComponent;
    RowBasics(c, a, b);
    RowSeedIn(c, a, b, x);
    var seed := Point(x, 0);
    forall p
      ensures p in Component(c, seed) <==> p in Row(a, b)
    {
      ComponentHas(c, seed, p);
      if p in Row(a, b) {
        RowJoined(c, a, b, x, p);
      }
      if InComponent(c, seed, p) {
        RowHolds(c, a, b, x, p);
      }
    }
  }

  lemma RowHolds(c: Canvas, a: nat, b: nat, x: nat, p: Point)
    requires RowSpan(c, a, b) && a <= x <= b && InComponent(c, Point(x, 0), p)
    ensures p in Row(a, b)
  {
    hide Row, RowSpan, Links;
    RowBasics(c, a, b);
    RowSeedIn(c, a, b, x);
    forall q, r | q in Row(a, b) && Links(c)(q, r)
      ensures r in Row(a, b)
    {
      RowClosed(c, a, b, q, r);
    }
    ClosedHoldsAll(Links(c), Row(a, b), Point(x, 0), p);
  }

  /** On a canvas of one row the whole component is filled exactly when this holds. */
  lemma RowFilledIff(c: Canvas, a: nat, b: nat, x: nat)
    requires RowSpan(c, a, b) && a <= x <= b
    ensures Reached(c, Point(x, 0)) == Component(c, Point(x, 0)) <==> a == b || (4 < c.w && x - a + 3 < c.w)
  {
    RowReached(c, a, b, x);
    RowComponent(c, a, b, x);
    hide Reached, Component;
    assert Point(a, 0) in Row(a, b) && Point(b, 0) in Row(a, b);
    if c.w <= 4 && a == b {
      assert Row(a, b) == {Point(x, 0)};
    }
    if c.w > 4 {
      assert Point(a, 0) in Row(RowEnd(c.w, a, x), b) <==> RowEnd(c.w, a, x) <= a;
    }
  }

  /** A blank row of five or more pixels is left incomplete from its last three pixels, and only from these. */
  lemma BlankRow(c: Canvas, x: nat)
    requires 5 <= c.w && RowSpan(c, 0, c.w - 1) && x < c.w
    ensures Reached(c, Point(x, 0)) == Component(c, Point(x, 0)) <==> x + 3 < c.w
  {
    RowFilledIff(c, 0, c.w - 1, x);
  }

  // ---- One column ------------------------------------------------------------------------------------

  /** Rows a to b of a canvas of one column have the target colour, and the rows next to them do not. */
  predicate ColumnSpan(c: Canvas, a: nat, b: nat) {
    && Sound(c) && c.w == 1 && a <= b < c.h
    && (forall y :: a <= y <= b ==> Target(c, Point(0, y)))
    && !Target(c, Point(0, a - 1)) && !Target(c, Point(0, b + 1))
  }

  lemma ColumnBasics(c: Canvas, a: nat, b: nat)
    requires ColumnSpan(c, a, b)
    ensures Sound(c) && c.w == 1 && a <= b < c.h
  {
  }

  function Column(i: int, j: int): set<Point> { set y | i <= y <= j :: Point(0, y) }

  lemma ColumnGrows(i: int, j: int)
    requires i <= j + 1
    ensures Point(0, i - 1) !in Column(i, j) && Column(i, j) + {Point(0, i - 1)} == Column(i - 1, j)
    ensures Point(0, j + 1) !in Column(i, j) && Column(i, j) + {Point(0, j + 1)} == Column(i, j + 1)
    ensures i <= j ==> Point(0, i) in Column(i, j) && Point(0, j) in Column(i, j)
  {
  }

  /** The points beside row y. */
  function Sides(y: int): (s: seq<Point>)
    ensures |s| == 2
  {
    [Point(1, y), Point(-1, y)]
  }

  lemma SidesDead(c: Canvas, f: set<Point>, y: int)
    requires Sound(c) && c.w == 1
    ensures AllDead(c, f, Sides(y))
  {
  }

  lemma ColumnEdge(c: Canvas, a: nat, b: nat, f: set<Point>, y: int)
    requires ColumnSpan(c, a, b) && a - 1 <= y <= b + 1 && Point(0, y) !in f
    ensures Dead(c, f, Point(0, y)) <==> y < a || y > b
  {
  }

  /** How far down from row y the fill gets: each row leaves two points on the stack. */
  function ColumnFoot(n: nat, b: int, y: int): int {
    if b == y || 2 * (b - y) + 2 < n then b else y + (n - 3) / 2
  }

  /** Going down from the seed, m rows below it. */
  lemma {:induction false} ColumnDown(c: Canvas, a: nat, b: nat, i: int, y: int, m: nat, left: seq<Point>,
                                      refused: set<Point>)
    requires ColumnSpan(c, a, b) && c.h > 4 && a <= i <= y && 0 < m && y + m - 1 <= b && (m > 1 ==> 2 * m + 2 < c.h)
    requires |left| == 2 * m && AllDead(c, Column(i, y + m - 1), left)
    ensures Run(c, Search(Column(i, y + m - 1), left + [Point(0, y + m)], refused), c.h).filled
         == Column(i, ColumnFoot(c.h, b, y))
    decreases b - y - m + 1
  {
    hide Run, Column, ColumnSpan, AllDead, Dead, Sides;
    ColumnBasics(c, a, b);
    var f, p := Column(i, y + m - 1), Point(0, y + m);
    ColumnGrows(i, y + m - 1);
    ColumnEdge(c, a, b, f, y + m);
    if y + m > b {
      ColumnDone(c, f, left, p, refused);
    } else {
      DeadStays(c, f, f + {p}, left);
      if 2 * m + 4 < c.h {
        ColumnDownOn(c, i, y + m, left, refused);
        ColumnDown(c, a, b, i, y, m + 1, left + Sides(y + m), refused);
      } else {
        TakeRefuse(c, Search(f, left + [p], refused), left, p, c.h);
        AllDone(c, f + {p}, left, refused + {p});
      }
    }
  }

  lemma AllDone(c: Canvas, f: set<Point>, left: seq<Point>, refused: set<Point>)
    requires Sound(c) && AllDead(c, f, left)
    ensures Run(c, Search(f, left, refused), c.h).filled == f
  {
    assert left == [] + left;
    SkipDead(c, Search(f, left, refused), [], left, c.h);
  }

  lemma ColumnDone(c: Canvas, f: set<Point>, left: seq<Point>, p: Point, refused: set<Point>)
    requires Sound(c) && AllDead(c, f, left) && Dead(c, f, p)
    ensures Run(c, Search(f, left + [p], refused), c.h).filled == f
  {
    hide Dead;
    assert AllDead(c, f, left + [p]);
    AllDone(c, f, left + [p], refused);
  }

  /** One row down from row z - 1, its neighbours pushed. */
  lemma ColumnDownOn(c: Canvas, i: int, z: int, left: seq<Point>, refused: set<Point>)
    requires Sound(c) && c.w == 1 && i < z && |left| + 4 < c.h && !Dead(c, Column(i, z - 1), Point(0, z))
    requires AllDead(c, Column(i, z), left)
    ensures AllDead(c, Column(i, z), left + Sides(z))
    ensures Run(c, Search(Column(i, z - 1), left + [Point(0, z)], refused), c.h)
         == Run(c, Search(Column(i, z), left + Sides(z) + [Point(0, z + 1)], refused), c.h)
  {
    hide Run, Column;
    var p, f, q := Point(0, z), Column(i, z), Point(0, z - 1);
    ColumnGrows(i, z - 1);
    SidesDead(c, f, z);
    assert Dead(c, f, q);
    TakePush(c, Search(Column(i, z - 1), left + [p], refused), left, p, c.h);
    var base := left + Sides(z) + [Point(0, z + 1)];
    assert left + Around(p) == base + [q];
    SkipDead(c, Search(f, left + Around(p), refused), base, [q], c.h);
  }

  /** How far up from row y the fill gets: each row leaves three points on the stack. */
  function ColumnHead(n: nat, a: int, y: int): int { if 3 * (y - a) + 1 < n then a else y - (n - 2) / 3 }

  /** After going up, the dead points are skipped and the way down is taken. */
  lemma ColumnTurn(c: Canvas, a: nat, b: nat, i: int, y: int, left: seq<Point>, refused: set<Point>)
    requires ColumnSpan(c, a, b) && c.h > 4 && a <= i <= y <= b && Behind(c, Column(i, y), Point(0, y + 1), left)
    ensures Run(c, Search(Column(i, y), Sides(y) + left, refused), c.h).filled == Column(i, ColumnFoot(c.h, b, y))
  {
    hide Run, Column, ColumnSpan, Dead, Sides, AllDead;
    ColumnBasics(c, a, b);
    var f, base := Column(i, y), Sides(y) + [Point(0, y + 1)];
    assert Sides(y) + left == base + left[1..];
    SidesDead(c, f, y);
    SkipDead(c, Search(f, Sides(y) + left, refused), base, left[1..], c.h);
    ColumnDown(c, a, b, i, y, 1, Sides(y), refused);
  }

  /** Going up from the seed, k rows above it. */
  lemma {:induction false} ColumnUp(c: Canvas, a: nat, b: nat, y: int, k: nat, left: seq<Point>, refused: set<Point>)
    requires ColumnSpan(c, a, b) && y <= b && 0 < k && 3 * k + 1 < c.h && c.h > 4 && a <= y - k + 1
    requires |left| == 3 * k - 2 && Behind(c, Column(y - k + 1, y), Point(0, y + 1), left)
    ensures Run(c, Search(Column(y - k + 1, y), Sides(y) + left + [Point(0, y - k)], refused), c.h).filled
         == Column(ColumnHead(c.h, a, y), ColumnFoot(c.h, b, y))
    decreases y - k - a + 1
  {
    hide Run, Column, ColumnSpan, Behind, Target, Sides;
    ColumnBasics(c, a, b);
    var f, p, z := Column(y - k + 1, y), Point(0, y - k), Point(0, y + 1);
    ColumnGrows(y - k + 1, y);
    ColumnEdge(c, a, b, f, y - k);
    assert Sides(y) + left + [p] == Sides(y) + (left + [p]);
    if y - k < a {
      BehindMore(c, f, f, z, left, [p]);
      ColumnTurn(c, a, b, y - k + 1, y, left + [p], refused);
    } else {
      var more := Sides(y - k) + [Point(0, y - k + 1)];
      UpDead(c, f + {p}, y - k);
      BehindMore(c, f, f + {p}, z, left, more);
      if 3 * k + 4 < c.h {
        ColumnUpOn(c, y, y - k, left, refused);
        assert Sides(y) + left + more == Sides(y) + (left + more);
        ColumnUp(c, a, b, y, k + 1, left + more, refused);
      } else {
        TakeRefuse(c, Search(f, Sides(y) + left + [p], refused), Sides(y) + left, p, c.h);
        ColumnTurn(c, a, b, y - k, y, left, refused + {p});
      }
    }
  }

  lemma UpDead(c: Canvas, f: set<Point>, z: int)
    requires Sound(c) && c.w == 1 && Point(0, z + 1) in f
    ensures AllDead(c, f, Sides(z) + [Point(0, z + 1)])
  {
    SidesDead(c, f, z);
  }

  /** One row up to row z, its neighbours pushed. */
  lemma ColumnUpOn(c: Canvas, y: int, z: int, left: seq<Point>, refused: set<Point>)
    requires Sound(c) && z < y && |left| + 6 < c.h && !Dead(c, Column(z + 1, y), Point(0, z))
    ensures var more := left + (Sides(z) + [Point(0, z + 1)]);
            Run(c, Search(Column(z + 1, y), Sides(y) + left + [Point(0, z)], refused), c.h)
            == Run(c, Search(Column(z, y), Sides(y) + more + [Point(0, z - 1)], refused), c.h)
  {
    hide Run, Column, Dead;
    var p, base := Point(0, z), Sides(y) + left;
    ColumnGrows(z + 1, y);
    TakePush(c, Search(Column(z + 1, y), base + [p], refused), base, p, c.h);
    assert base + Around(p) == Sides(y) + (left + (Sides(z) + [Point(0, z + 1)])) + [Point(0, z - 1)];
  }

  /** What the fill leaves in a column. */
  lemma ColumnReached(c: Canvas, a: nat, b: nat, y: nat)
    requires ColumnSpan(c, a, b) && a <= y <= b
    ensures Reached(c, Point(0, y))
         == if c.h <= 4 then {Point(0, y)} else Column(ColumnHead(c.h, a, y), ColumnFoot(c.h, b, y))
  {
    var p := Point(0, y);
    assert c.w * c.h == c.h;
    if c.h <= 4 {
      TinyCanvas(c, p);
    } else {
      assert !Dead(c, {}, p);
      ColumnSeed(c, y);
      hide Run, Column, ColumnSpan, Dead;
      ColumnUp(c, a, b, y, 1, [Point(0, y + 1)], {});
    }
  }

  lemma ColumnSeed(c: Canvas, y: int)
    requires Sound(c) && c.h > 4 && !Dead(c, {}, Point(0, y))
    ensures Run(c, Start(Point(0, y)), c.h)
         == Run(c, Search(Column(y, y), Sides(y) + [Point(0, y + 1)] + [Point(0, y - 1)], {}), c.h)
    ensures Behind(c, Column(y, y), Point(0, y + 1), [Point(0, y + 1)])
  {
    var p, s := Point(0, y), Start(Point(0, y));
    assert {} + {p} == Column(y, y);
    hide Run, Column, Dead;
    assert s.stack == [] + [p] && [] + Around(p) == Sides(y) + [Point(0, y + 1)] + [Point(0, y - 1)];
    TakePush(c, s, [], p, c.h);
  }

  lemma {:induction false} ColumnConnected(c: Canvas, a: nat, b: nat, x: nat, y: nat)
    requires ColumnSpan(c, a, b) && a <= x <= b && a <= y <= b
    ensures InComponent(c, Point(0, x), Point(0, y))
    decreases if x < y then y - x else x - y
  {
    if x == y {
      ReachesSelf(Links(c), Point(0, x));
    } else {
      var z := if x < y then y - 1 else y + 1;
      ColumnConnected(c, a, b, x, z);
      assert Point(0, y) == Around(Point(0, z))[if x < y then 2 else 3];
      assert Links(c)(Point(0, z), Point(0, y));
      StepAfter(Links(c), Point(0, x), Point(0, z), Point(0, y));
    }
  }

  lemma ColumnClosed(c: Canvas, a: nat, b: nat, p: Point, q: Point)
    requires ColumnSpan(c, a, b) && p in Column(a, b) && Links(c)(p, q)
    ensures q in Column(a, b)
  {
    assert q == Point(q.x, q.y) && q.x == 0;
  }

  lemma ColumnJoined(c: Canvas, a: nat, b: nat, y: nat, p: Point)
    requires ColumnSpan(c, a, b) && a <= y <= b && p in Column(a, b)
    ensures InComponent(c, Point(0, y), p)
  {
    ColumnConnected(c, a, b, y, p.y);
  }

  lemma ColumnSeedIn(c: Canvas, a: nat, b: nat, y: nat)
    requires ColumnSpan(c, a, b) && a <= y <= b
    ensures Target(c, Point(0, y)) && Point(0, y) in Column(a, b)
  {
  }

  lemma ColumnComponent(c: Canvas, a: nat, b: nat, y: nat)
    requires ColumnSpan(c, a, b) && a <= y <= b
    ensures Component(c, Point(0, y)) == Column(a, b)
  {
    hide Column, ColumnSpan, Component, Links, Target, InComponent;
    ColumnBasics(c, a, b);
    ColumnSeedIn(c, a, b, y);
    var seed := Point(0, y);
    forall p
      ensures p in Component(c, seed) <==> p in Column(a, b)
    {
      ComponentHas(c, seed, p);
      if p in Column(a, b) {
        ColumnJoined(c, a, b, y, p);
      }
      if InComponent(c, seed, p) {
        ColumnHolds(c, a, b, y, p);
      }
    }
  }

  lemma ColumnHolds(c: Canvas, a: nat, b: nat, y: nat, p: Point)
    requires ColumnSpan(c, a, b) && a <= y <= b && InComponent(c, Point(0, y), p)
    ensures p in Column(a, b)
  {
    hide Column, ColumnSpan, Links;
    ColumnBasics(c, a, b);
    ColumnSeedIn(c, a, b, y);
    forall q, r | q in Column(a, b) && Links(c)(q, r)
      ensures r in Column(a, b)
    {
      ColumnClosed(c, a, b, q, r);
    }
    ClosedHoldsAll(Links(c), Column(a, b), Point(0, y), p);
  }

  /** On a canvas of one column the whole component is filled exactly when this holds. */
  lemma ColumnFilledIff(c: Canvas, a: nat, b: nat, y: nat)
    requires ColumnSpan(c, a, b) && a <= y <= b
    ensures Reached(c, Point(0, y)) == Component(c, Point(0, y))
       <==> a == b || (4 < c.h && 3 * (y - a) + 1 < c.h && 2 * (b - y) + 2 < c.h)
  {
    ColumnReached(c, a, b, y);
    ColumnComponent(c, a, b, y);
    hide Reached, Component;
    assert Point(0, a) in Column(a, b) && Point(0, b) in Column(a, b);
    if c.h <= 4 && a == b {
      assert Column(a, b) == {Point(0, y)};
    }
    if c.h > 4 {
      var i, j := ColumnHead(c.h, a, y), ColumnFoot(c.h, b, y);
      assert Point(0, a) in Column(i, j) <==> i <= a <= j;
      assert Point(0, b) in Column(i, j) <==> i <= b <= j;
    }
  }

  /** A blank column of two or more pixels is never filled, whatever the seed. */
  lemma BlankColumn(c: Canvas, y: nat)
    requires 2 <= c.h && ColumnSpan(c, 0, c.h - 1) && y < c.h
    ensures Reached(c, Point(0, y)) < Component(c, Point(0, y))
  {
    ColumnFilledIff(c, 0, c.h - 1, y);
    ReachedInComponent(c, Point(0, y));
  }
}
