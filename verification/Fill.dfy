/** The fill tool: a flood fill with an explicit, bounded stack. */
module Fill {
  import opened Grid
  import opened Reach

  predicate Inside(w: nat, h: nat, p: Point) { 0 <= p.x < w && 0 <= p.y < h }

  function Index(w: nat, h: nat, p: Point): (i: nat)
    requires Inside(w, h, p)
    ensures i < w * h
  {
    InGrid(w, h, p.x, p.y);
    At(w, p.x, p.y)
  }

  function Around(p: Point): (s: seq<Point>)
    ensures |s| == 4
  {
    [Point(p.x + 1, p.y), Point(p.x - 1, p.y), Point(p.x, p.y + 1), Point(p.x, p.y - 1)]
  }

  /** The four points one step away, along one axis. */
  lemma AroundIs(p: Point, q: Point)
    ensures q in Around(p)
       <==> (q.y == p.y && (q.x == p.x + 1 || q.x == p.x - 1)) || (q.x == p.x && (q.y == p.y + 1 || q.y == p.y - 1))
  {
    var s := Around(p);
    assert q == Point(q.x, q.y);
    assert q in s <==> q == s[0] || q == s[1] || q == s[2] || q == s[3];
  }

  /** A canvas before the fill, and the colour to be replaced. */
  datatype Canvas = Canvas(w: nat, h: nat, was: seq<Pixel>, target: Pixel)

  predicate Sound(c: Canvas) { |c.was| == c.w * c.h }

  /** A point on the canvas that has the target colour. */
  predicate Target(c: Canvas, p: Point)
    requires Sound(c)
  {
    Inside(c.w, c.h, p) && c.was[Index(c.w, c.h, p)] == c.target
  }

  /** 4-connected neighbours of the target colour. */
  predicate Linked(c: Canvas, p: Point, q: Point)
    requires Sound(c)
  {
    Target(c, p) && Target(c, q) && q in Around(p)
  }

  ghost function Links(c: Canvas): (Point, Point) -> bool
    requires Sound(c)
  {
    (p: Point, q: Point) => Linked(c, p, q)
  }

  /** Points of the target colour that now show the fill colour. */
  function Filled(c: Canvas, now: seq<Pixel>): set<Point>
    requires Sound(c) && |now| == |c.was|
  {
    set x, y | 0 <= x < c.w && 0 <= y < c.h && Target(c, Point(x, y)) && now[Index(c.w, c.h, Point(x, y))] != c.target
      :: Point(x, y)
  }

  lemma FilledHas(c: Canvas, now: seq<Pixel>, p: Point)
    requires Sound(c) && |now| == |c.was|
    ensures p in Filled(c, now) <==> Target(c, p) && now[Index(c.w, c.h, p)] != c.target
  {
    assert p == Point(p.x, p.y);
  }

  /** All points of the target colour. */
  function Targets(c: Canvas): set<Point>
    requires Sound(c)
  {
    set x, y | 0 <= x < c.w && 0 <= y < c.h && Target(c, Point(x, y)) :: Point(x, y)
  }

  /** Only target-coloured pixels changed, and only to the fill colour. */
  predicate OnlyFills(c: Canvas, now: seq<Pixel>, fill: Pixel)
    requires Sound(c)
  {
    |now| == |c.was| && forall i :: 0 <= i < |now| ==> now[i] == c.was[i] || (c.was[i] == c.target && now[i] == fill)
  }

  /** The component of the seed: what a fill should change. */
  ghost predicate InComponent(c: Canvas, seed: Point, p: Point)
    requires Sound(c)
  {
    Reaches(Links(c), seed, p)
  }

  ghost function Component(c: Canvas, seed: Point): set<Point>
    requires Sound(c)
  {
    set p | p in Targets(c) && InComponent(c, seed, p)
  }

  lemma ComponentHas(c: Canvas, seed: Point, p: Point)
    requires Sound(c) && Target(c, seed)
    ensures p in Component(c, seed) <==> InComponent(c, seed, p)
  {
    if InComponent(c, seed, p) {
      TargetsHas(c, seed);
      forall x, y | x in Targets(c) && Links(c)(x, y)
        ensures y in Targets(c)
      {
        TargetsHas(c, y);
      }
      ClosedHoldsAll(Links(c), Targets(c), seed, p);
    }
  }

  lemma TargetsHas(c: Canvas, p: Point)
    requires Sound(c)
    ensures p in Targets(c) <==> Target(c, p)
  {
    assert p == Point(p.x, p.y);
  }

  // ---- The search --------------------------------------------------------------------------------

  /** The state of the loop: `refused` are the filled points whose neighbours were not pushed. */
  datatype Search = Search(filled: set<Point>, stack: seq<Point>, refused: set<Point>)

  /** A point that a turn of the loop skips. */
  predicate Dead(c: Canvas, filled: set<Point>, p: Point)
    requires Sound(c)
  {
    !Target(c, p) || p in filled
  }

  function Top(s: Search): Point
    requires s.stack != []
  {
    s.stack[|s.stack| - 1]
  }

  function Rest(s: Search): (r: seq<Point>)
    requires s.stack != []
    ensures |r| == |s.stack| - 1
  {
    s.stack[..|s.stack| - 1]
  }

  /** One turn with room for fewer than `cap` points on the stack. */
  function Next(c: Canvas, s: Search, cap: nat): Search
    requires Sound(c) && s.stack != []
  {
    if Dead(c, s.filled, Top(s)) then s.(stack := Rest(s))
    else if |Rest(s)| + 4 < cap then Search(s.filled + {Top(s)}, Rest(s) + Around(Top(s)), s.refused)
    else Search(s.filled + {Top(s)}, Rest(s), s.refused + {Top(s)})
  }

  lemma NextCloser(c: Canvas, s: Search, cap: nat)
    requires Sound(c) && s.stack != []
    ensures var t := Next(c, s, cap);
            if Dead(c, s.filled, Top(s)) then t.filled == s.filled && |t.stack| == |s.stack| - 1
            else |Targets(c) - t.filled| < |Targets(c) - s.filled|
  {
    var t := Next(c, s, cap);
    if !Dead(c, s.filled, Top(s)) {
      TargetsHas(c, Top(s));
      assert Targets(c) - t.filled == (Targets(c) - s.filled) - {Top(s)};
    }
  }

  function Run(c: Canvas, s: Search, cap: nat): Search
    requires Sound(c)
    decreases |Targets(c) - s.filled|, |s.stack|
  {
    if s.stack == [] then s
    else
      NextCloser(c, s, cap);
      Run(c, Next(c, s, cap), cap)
  }

  function Start(seed: Point): Search { Search({}, [seed], {}) }

  /** What the fill tool fills: its stack has room for one point per pixel. */
  function Reached(c: Canvas, seed: Point): set<Point>
    requires Sound(c)
  {
    Run(c, Start(seed), c.w * c.h).filled
  }

  // ---- What the search keeps ----------------------------------------------------------------------

  /** The neighbours of z that have the target colour are filled or on the stack. */
  predicate Covered(c: Canvas, filled: set<Point>, stack: seq<Point>, z: Point)
    requires Sound(c)
  {
    forall q :: q in Around(z) && Target(c, q) ==> q in filled || q in stack
  }

  ghost predicate Filling(c: Canvas, seed: Point, s: Search)
    requires Sound(c)
  {
    && Target(c, seed)
    && (forall p :: p in s.filled ==> Target(c, p) && InComponent(c, seed, p))
    && (forall p :: p in s.stack && Target(c, p) ==> InComponent(c, seed, p))
    && (seed in s.filled || seed in s.stack)
    && s.refused <= s.filled
    && (forall z :: z in s.filled && z !in s.refused ==> Covered(c, s.filled, s.stack, z))
  }

  lemma StartFilling(c: Canvas, seed: Point)
    requires Sound(c) && Target(c, seed)
    ensures Filling(c, seed, Start(seed))
  {
    ReachesSelf(Links(c), seed);
  }

  lemma NextFilling(c: Canvas, seed: Point, s: Search, cap: nat)
    requires Sound(c) && s.stack != [] && Filling(c, seed, s)
    ensures Filling(c, seed, Next(c, s, cap))
  {
    var p := Top(s);
    assert s.stack == Rest(s) + [p];
    if !Dead(c, s.filled, p) {
      forall q | q in Around(p) && Target(c, q)
        ensures InComponent(c, seed, q)
      {
        StepAfter(Links(c), seed, p, q);
      }
    }
    hide Around, Target, InComponent;
  }

  lemma {:induction false} RunFilling(c: Canvas, seed: Point, s: Search, cap: nat)
    requires Sound(c) && Filling(c, seed, s)
    ensures var t := Run(c, s, cap); Filling(c, seed, t) && t.stack == [] && s.refused <= t.refused
    decreases |Targets(c) - s.filled|, |s.stack|
  {
    assert s.refused <= s.filled;
    hide Targets, Target, Around, Covered, InComponent;
    if s.stack != [] {
      NextFilling(c, seed, s, cap);
      NextCloser(c, s, cap);
      RunFilling(c, seed, Next(c, s, cap), cap);
    }
  }

  /** The fill never leaves the component and always fills the seed. */
  lemma ReachedInComponent(c: Canvas, seed: Point)
    requires Sound(c) && Target(c, seed)
    ensures seed in Reached(c, seed) && Reached(c, seed) <= Component(c, seed)
  {
    StartFilling(c, seed);
    RunFilling(c, seed, Start(seed), c.w * c.h);
    forall p | p in Reached(c, seed)
      ensures p in Component(c, seed)
    {
      ComponentHas(c, seed, p);
    }
  }

  /** A finished search has the whole component exactly when no refused point has a neighbour left over. */
  lemma FillIsComponentIff(c: Canvas, seed: Point, s: Search)
    requires Sound(c) && Filling(c, seed, s) && s.stack == []
    ensures s.filled == Component(c, seed) <==> forall z :: z in s.refused ==> Covered(c, s.filled, [], z)
  {
    hide Around;
    var f := s.filled;
    forall p
      ensures p in Component(c, seed) <==> InComponent(c, seed, p)
    {
      ComponentHas(c, seed, p);
    }
    if forall z :: z in s.refused ==> Covered(c, f, [], z) {
      forall p | InComponent(c, seed, p)
        ensures p in f
      {
        forall x, y | x in f && Links(c)(x, y)
          ensures y in f
        {
          assert Covered(c, f, [], x);
        }
        ClosedHoldsAll(Links(c), f, seed, p);
      }
    }
    if f == Component(c, seed) {
      forall z, q | z in s.refused && q in Around(z) && Target(c, q)
        ensures q in f
      {
        assert Links(c)(z, q);
        StepAfter(Links(c), seed, z, q);
      }
    }
  }

  // ---- When the guard refuses a push ----------------------------------------------------------------

  function Max(a: nat, b: nat): nat { if a < b then b else a }

  /** The greatest height of the stack at which a search that never refuses fills a point. */
  function Height(c: Canvas, s: Search): nat
    requires Sound(c)
    decreases |Targets(c) - s.filled|, |s.stack|
  {
    if s.stack == [] then 0
    else
      NextCloser(c, s, |s.stack| + 4);
      Max(if Dead(c, s.filled, Top(s)) then 0 else |s.stack|, Height(c, Next(c, s, |s.stack| + 4)))
  }

  function Peak(c: Canvas, seed: Point): nat
    requires Sound(c)
  {
    Height(c, Start(seed))
  }

  lemma {:induction false} RefusesIff(c: Canvas, seed: Point, s: Search, cap: nat)
    requires Sound(c) && Filling(c, seed, s) && s.refused == {}
    ensures Run(c, s, cap).refused == {} <==> Height(c, s) == 0 || Height(c, s) + 3 < cap
    decreases |Targets(c) - s.filled|, |s.stack|
  {
    hide Filling, Targets, Target, Around;
    if s.stack != [] {
      var t := Next(c, s, cap);
      NextFilling(c, seed, s, cap);
      NextCloser(c, s, cap);
      if t.refused == {} {
        assert t == Next(c, s, |s.stack| + 4);
        RefusesIff(c, seed, t, cap);
      } else {
        RunFilling(c, seed, t, cap);
      }
    }
  }

  /** The fill refuses no push exactly when the peak of the unguarded search fits the stack. */
  lemma GuardRefusesIff(c: Canvas, seed: Point)
    requires Sound(c) && Target(c, seed)
    ensures Run(c, Start(seed), c.w * c.h).refused == {} <==> Peak(c, seed) + 3 < c.w * c.h
  {
    StartFilling(c, seed);
    RefusesIff(c, seed, Start(seed), c.w * c.h);
    assert Height(c, Start(seed)) >= 1;
  }

  /** When the peak fits, the fill fills the component. */
  lemma FitsFillsComponent(c: Canvas, seed: Point)
    requires Sound(c) && Target(c, seed) && Peak(c, seed) + 3 < c.w * c.h
    ensures Reached(c, seed) == Component(c, seed)
  {
    GuardRefusesIff(c, seed);
    StartFilling(c, seed);
    RunFilling(c, seed, Start(seed), c.w * c.h);
    FillIsComponentIff(c, seed, Run(c, Start(seed), c.w * c.h));
  }

  lemma {:induction false} HeightBound(c: Canvas, seed: Point, s: Search)
    requires Sound(c) && Filling(c, seed, s) && |s.stack| <= 1 + 3 * |s.filled|
    ensures Height(c, s) + 2 <= Max(2, 3 * |Component(c, seed)|)
    decreases |Targets(c) - s.filled|, |s.stack|
  {
    hide Filling, Component, Targets, Target, Around;
    if s.stack != [] {
      var t := Next(c, s, |s.stack| + 4);
      NextFilling(c, seed, s, |s.stack| + 4);
      NextCloser(c, s, |s.stack| + 4);
      FilledBound(c, seed, t);
      HeightBound(c, seed, t);
    }
  }

  lemma FilledBound(c: Canvas, seed: Point, s: Search)
    requires Sound(c) && Filling(c, seed, s)
    ensures |s.filled| <= |Component(c, seed)|
  {
    forall p | p in s.filled
      ensures p in Component(c, seed)
    {
      ComponentHas(c, seed, p);
    }
    Subset(s.filled, Component(c, seed));
  }

  /** A component of less than a third of the canvas always fits. */
  lemma SmallComponentFits(c: Canvas, seed: Point)
    requires Sound(c) && Target(c, seed) && 3 * |Component(c, seed)| + 1 < c.w * c.h
    ensures Peak(c, seed) + 3 < c.w * c.h
  {
    StartFilling(c, seed);
    HeightBound(c, seed, Start(seed));
    ReachesSelf(Links(c), seed);
    ComponentHas(c, seed, seed);
    assert |Component(c, seed)| >= 1 by { Subset({seed}, Component(c, seed)); }
  }

  /** A canvas of at most four pixels never pushes at all. */
  lemma TinyCanvas(c: Canvas, seed: Point)
    requires Sound(c) && Target(c, seed) && c.w * c.h <= 4
    ensures Reached(c, seed) == {seed}
  {
    var s := Start(seed);
    var t := Next(c, s, c.w * c.h);
    assert t == Search({seed}, [], {seed});
    assert Run(c, s, c.w * c.h) == Run(c, t, c.w * c.h) == t;
  }

  lemma FilledMore(c: Canvas, now: seq<Pixel>, fill: Pixel, p: Point)
    requires Sound(c) && fill != c.target && OnlyFills(c, now, fill) && Inside(c.w, c.h, p)
    requires now[Index(c.w, c.h, p)] == c.target
    ensures var next := now[Index(c.w, c.h, p) := fill];
            && OnlyFills(c, next, fill) && Target(c, p) && p !in Filled(c, now)
            && Filled(c, next) == Filled(c, now) + {p}
  {
    var next := now[Index(c.w, c.h, p) := fill];
    FilledHas(c, now, p);
    AllUnique(c.w, c.h);
    forall q | Target(c, q)
      ensures q in Filled(c, next) <==> q in Filled(c, now) || q == p
    {
      FilledHas(c, now, q);
      FilledHas(c, next, q);
      hide At;
    }
  }

  // ---- The loop -----------------------------------------------------------------------------------

  /** The array holds the points of the stack, two cells each. */
  ghost predicate Holds(cells: array<int>, sp: nat, stack: seq<Point>)
    reads cells
  {
    && sp == 2 * |stack| <= cells.Length
    && forall k {:trigger stack[k]} :: 0 <= k < |stack| ==> cells[2 * k] == stack[k].x && cells[2 * k + 1] == stack[k].y
  }

  method Push(cells: array<int>, sp: nat, ghost stack: seq<Point>, x: int, y: int) returns (sp': nat)
    requires Holds(cells, sp, stack) && sp + 2 <= cells.Length
    modifies cells
    ensures Holds(cells, sp', stack + [Point(x, y)]) && sp' == sp + 2
  {
    cells[sp] := x;
    cells[sp + 1] := y;
    sp' := sp + 2;
  }

  method PushAround(cells: array<int>, sp: nat, ghost stack: seq<Point>, cx: int, cy: int) returns (sp': nat)
    requires Holds(cells, sp, stack) && sp + 8 <= cells.Length
    modifies cells
    ensures Holds(cells, sp', stack + Around(Point(cx, cy))) && sp' == sp + 8
  {
    hide Holds;
    ghost var s1 := stack + [Point(cx + 1, cy)];
    ghost var s2 := s1 + [Point(cx - 1, cy)];
    ghost var s3 := s2 + [Point(cx, cy + 1)];
    sp' := Push(cells, sp, stack, cx + 1, cy);
    sp' := Push(cells, sp', s1, cx - 1, cy);
    sp' := Push(cells, sp', s2, cx, cy + 1);
    sp' := Push(cells, sp', s3, cx, cy - 1);
    assert s3 + [Point(cx, cy - 1)] == stack + Around(Point(cx, cy));
  }

  /** The pixels show what the search has filled, and nothing else has changed. */
  ghost predicate ShowsSearch(c: Canvas, now: seq<Pixel>, fill: Pixel, s: Search)
    requires Sound(c)
  {
    OnlyFills(c, now, fill) && Filled(c, now) == s.filled
  }

  lemma NothingShown(c: Canvas, fill: Pixel, seed: Point)
    requires Sound(c)
    ensures ShowsSearch(c, c.was, fill, Start(seed))
  {
  }

  lemma SearchShown(c: Canvas, now: seq<Pixel>, fill: Pixel, s: Search)
    requires Sound(c) && ShowsSearch(c, now, fill, s)
    ensures OnlyFills(c, now, fill) && Filled(c, now) == s.filled
  {
  }

  /** One turn of the loop: pop a point, and fill it if it still has the target colour. */
  method Turn(pixels: array<Pixel>, cells: array<int>, sp: nat, cap: nat, w: nat, h: nat, fill: Pixel, target: Pixel,
              ghost c: Canvas, ghost s: Search)
      returns (sp': nat)
    requires Sound(c) && c.w == w && c.h == h && c.target == target != fill && cap == w * h == pixels.Length
    requires cells.Length == 2 * cap && (cells as object) != pixels && Holds(cells, sp, s.stack) && s.stack != []
    requires ShowsSearch(c, pixels[..], fill, s)
    modifies pixels, cells
    ensures Holds(cells, sp', Next(c, s, cap).stack) && ShowsSearch(c, pixels[..], fill, Next(c, s, cap))
  {
    var cy, cx := cells[sp - 1], cells[sp - 2];
    sp' := sp - 2;
    ghost var p, now := Point(cx, cy), pixels[..];
    assert Top(s) == p && s.stack == Rest(s) + [p];
    FilledHas(c, now, p);
    hide Filled, Around;
    if cx < 0 || cx >= w || cy < 0 || cy >= h {
      return;
    }
    var off := Index(w, h, Point(cx, cy));
    if pixels[off] != target {
      return;
    }
    FilledMore(c, now, fill, p);
    pixels[off] := fill;
    if sp' + 8 < cap * 2 {
      sp' := PushAround(cells, sp', Rest(s), cx, cy);
    }
  }

  /** `wubu_cv_fill`: the pixels of `Reached` get the fill colour, and no others change. */
  method FloodFill(pixels: array<Pixel>, w: nat, h: nat, x: int, y: int, fill: Pixel)
    requires pixels.Length == w * h
    modifies pixels
    ensures !Inside(w, h, Point(x, y)) ==> pixels[..] == old(pixels[..])
    ensures Inside(w, h, Point(x, y)) ==>
              var c := Canvas(w, h, old(pixels[..]), old(pixels[Index(w, h, Point(x, y))]));
              if c.target == fill then pixels[..] == old(pixels[..])
              else OnlyFills(c, pixels[..], fill) && Filled(c, pixels[..]) == Reached(c, Point(x, y))
  {
    if x < 0 || x >= w || y < 0 || y >= h {
      return;
    }
    var seed := Point(x, y);
    var target := pixels[Index(w, h, seed)];
    if target == fill {
      return;
    }
    hide Filled, Targets, Around, Next, ShowsSearch, Dead;
    var cap := w * h;
    var cells := new int[cap * 2];
    ghost var c, s := Canvas(w, h, pixels[..], target), Start(seed);
    var sp := Push(cells, 0, [], x, y);
    assert [] + [Point(x, y)] == s.stack;
    NothingShown(c, fill, seed);
    while sp > 0
      invariant fresh(cells) && cells.Length == 2 * cap && Holds(cells, sp, s.stack)
      invariant ShowsSearch(c, pixels[..], fill, s) && Run(c, s, cap) == Run(c, Start(seed), cap)
      decreases |Targets(c) - s.filled|, |s.stack|
    {
      NextCloser(c, s, cap);
      sp := Turn(pixels, cells, sp, cap, w, h, fill, target, c, s);
      s := Next(c, s, cap);
    }
    assert s.stack == [];
    SearchShown(c, pixels[..], fill, s);
  }
}
