/** The line tool: Bresenham's loop draws the rounded ideal line. */
module Line {
  import opened Grid
  import opened Bits

  function Sign(from: int, to: int): int { if from < to then 1 else -1 }

  /** rise * t / run, rounded to the nearest integer, halves up. */
  function Rounded(t: nat, rise: nat, run: nat): nat
    requires run > 0
  {
    (2 * rise * t + run) / (2 * run)
  }

  datatype Segment = Segment(a: Point, b: Point)

  function Dx(s: Segment): nat { Abs(s.b.x - s.a.x) }

  function Dy(s: Segment): nat { Abs(s.b.y - s.a.y) }

  /** The number of steps from one end to the other. */
  function Length(s: Segment): nat { if Dx(s) >= Dy(s) then Dx(s) else Dy(s) }

  /** Steps taken along each axis when t steps have been taken along the longer one. */
  function AlongX(s: Segment, t: nat): nat
    requires t <= Length(s)
  {
    if Dx(s) >= Dy(s) then t else Rounded(t, Dx(s), Dy(s))
  }

  function AlongY(s: Segment, t: nat): nat
    requires t <= Length(s)
  {
    if Dx(s) < Dy(s) then t else if Dx(s) == 0 then 0 else Rounded(t, Dy(s), Dx(s))
  }

  /** Point t of the ideal line, rounded. */
  function PointAt(s: Segment, t: nat): Point
    requires t <= Length(s)
  {
    Point(s.a.x + Sign(s.a.x, s.b.x) * AlongX(s, t), s.a.y + Sign(s.a.y, s.b.y) * AlongY(s, t))
  }

  // ---- Rounding --------------------------------------------------------------------------

  /** An integer within half of rise * t / run, above or on the half, is the rounded value. */
  lemma RoundedIs(t: nat, rise: nat, run: nat, j: nat)
    requires run > 0 && -(run as int) < 2 * (run * j - rise * t) <= run
    ensures Rounded(t, rise, run) == j
  {
    var x, r := 2 * rise * t + run, 2 * rise * t + run - 2 * run * j;
    assert 2 * rise * t == 2 * (rise * t) && 2 * run * j == 2 * (run * j);
    DivModUnique(x, 2 * run, j, r);
  }

  /** The rounded value is within half a unit of the ideal one. */
  lemma RoundedNear(t: nat, rise: nat, run: nat)
    requires run > 0
    ensures -(run as int) < 2 * (run * Rounded(t, rise, run) - rise * t) <= run
  {
    var j := Rounded(t, rise, run);
    var x := 2 * rise * t + run;
    assert x == 2 * run * j + x % (2 * run);
    assert 2 * rise * t == 2 * (rise * t) && 2 * run * j == 2 * (run * j);
  }

  lemma RoundedAtEnd(rise: nat, run: nat)
    requires run > 0
    ensures Rounded(run, rise, run) == rise
  {
    assert run * rise - rise * run == 0;
    RoundedIs(run, rise, run, rise);
  }

  /** Between the ends the rounded value stays between 0 and the rise. */
  lemma RoundedBounded(t: nat, rise: nat, run: nat)
    requires 0 < run && t <= run
    ensures Rounded(t, rise, run) <= rise
  {
    RoundedNear(t, rise, run);
    MulStrict(run, rise, Rounded(t, rise, run));
    hide Rounded;
    MulMono(rise, t, run);
  }

  lemma MulMono(k: nat, a: nat, b: nat)
    requires a <= b
    ensures k * a <= b * k
  {
    assert b * k == k * a + k * (b - a);
    assert k * (b - a) >= 0;
  }

  /** Every point drawn lies within half a pixel of the ideal line, and between the ends. */
  lemma PointNearLine(s: Segment, t: nat)
    requires t <= Length(s)
    ensures 2 * Abs(Dx(s) * AlongY(s, t) - Dy(s) * AlongX(s, t)) <= Length(s)
    ensures AlongX(s, t) <= Dx(s) && AlongY(s, t) <= Dy(s)
    ensures Dx(s) >= Dy(s) && Dx(s) > 0 ==>
              AlongX(s, t) == t && -(Dx(s) as int) < 2 * (Dx(s) * AlongY(s, t) - Dy(s) * t) <= Dx(s)
    ensures Dx(s) < Dy(s) ==>
              AlongY(s, t) == t && -(Dy(s) as int) < 2 * (Dy(s) * AlongX(s, t) - Dx(s) * t) <= Dy(s)
  {
    if Dx(s) == 0 && Dy(s) == 0 {
    } else if Dx(s) >= Dy(s) {
      RoundedNear(t, Dy(s), Dx(s));
      RoundedBounded(t, Dy(s), Dx(s));
    } else {
      RoundedNear(t, Dx(s), Dy(s));
      RoundedBounded(t, Dx(s), Dy(s));
      assert Dx(s) * t == t * Dx(s);
    }
  }

  lemma Ends(s: Segment)
    ensures PointAt(s, 0) == s.a && PointAt(s, Length(s)) == s.b
    ensures AlongX(s, 0) == AlongY(s, 0) == 0
  {
    if Dx(s) == 0 && Dy(s) == 0 {
    } else if Dx(s) >= Dy(s) {
      RoundedIs(0, Dy(s), Dx(s), 0);
      RoundedAtEnd(Dy(s), Dx(s));
    } else {
      RoundedIs(0, Dx(s), Dy(s), 0);
      RoundedAtEnd(Dx(s), Dy(s));
    }
  }

  // ---- The loop ------------------------------------------------------------------------------

  /**
    * The error term after i steps along x and j along y is dx*(j+1) - dy*(i+1); with it inside the
    * half-pixel band the loop steps along the longer axis, and along the shorter one exactly when
    * the rounded line does.
    */
  ghost predicate InBand(s: Segment, err: int, i: nat, j: nat) {
    && err == Dx(s) * j - Dy(s) * i + Dx(s) - Dy(s)
    && if Dx(s) >= Dy(s) then -(Dx(s) as int) < 2 * (err - Dx(s) + Dy(s)) <= Dx(s) || Dx(s) == 0
       else -(Dy(s) as int) <= 2 * (err - Dx(s) + Dy(s)) < Dy(s)
  }

  lemma BandIsRounded(s: Segment, err: int, i: nat, j: nat, t: nat)
    requires InBand(s, err, i, j) && t <= Length(s) && t == (if Dx(s) >= Dy(s) then i else j)
    requires Dx(s) == 0 ==> Dy(s) >= t
    ensures Length(s) > 0 ==> i == AlongX(s, t) && j == AlongY(s, t)
  {
    if Dx(s) >= Dy(s) {
      if Dx(s) > 0 {
        RoundedIs(t, Dy(s), Dx(s), j);
      }
    } else {
      assert Dx(s) * j == j * Dx(s) && Dy(s) * i == i * Dy(s);
      RoundedIs(t, Dx(s), Dy(s), i);
    }
  }

  /** One turn of the loop keeps the error term in the band. */
  lemma BandStep(s: Segment, err: int, i: nat, j: nat)
    requires InBand(s, err, i, j) && Length(s) > 0
    ensures var stepX, stepY := 2 * err >= -(Dy(s) as int), 2 * err <= Dx(s);
            && (if Dx(s) >= Dy(s) then stepX else stepY)
            && InBand(s, err - (if stepX then Dy(s) else 0) + (if stepY then Dx(s) else 0),
                      if stepX then i + 1 else i, if stepY then j + 1 else j)
  {
    assert Dx(s) * (j + 1) == Dx(s) * j + Dx(s);
    assert Dy(s) * (i + 1) == Dy(s) * i + Dy(s);
  }

  /** The first n points of the line pass through (x, y). */
  ghost predicate Passes(s: Segment, n: nat, x: int, y: int)
    requires n <= Length(s) + 1
  {
    exists t: nat :: t < n && PointAt(s, t) == Point(x, y)
  }

  /** The canvas with the first n points of the line drawn, clipped to it. */
  ghost predicate Drawn(now: seq<Pixel>, was: seq<Pixel>, w: nat, h: nat, s: Segment, n: nat, colour: Pixel)
    requires n <= Length(s) + 1
  {
    && |now| == |was| == w * h
    && forall x: nat, y: nat {:trigger At(w, x, y)} :: x < w && y < h && At(w, x, y) < |now| ==>
         now[At(w, x, y)] == if Passes(s, n, x, y) then colour else was[At(w, x, y)]
  }

  /** Plotting point n. */
  lemma PlotKeepsDrawn(now: seq<Pixel>, next: seq<Pixel>, was: seq<Pixel>, w: nat, h: nat, s: Segment, n: nat,
                       colour: Pixel)
    requires n <= Length(s) && Drawn(now, was, w, h, s, n, colour)
    requires var p := PointAt(s, n);
             if 0 <= p.x < w && 0 <= p.y < h
             then At(w, p.x, p.y) < |now| && next == now[At(w, p.x, p.y) := colour] else next == now
    ensures Drawn(next, was, w, h, s, n + 1, colour)
  {
    AllUnique(w, h);
    hide At, PointAt;
    var p := PointAt(s, n);
    forall x: nat, y: nat | x < w && y < h && At(w, x, y) < |next|
      ensures next[At(w, x, y)] == if Passes(s, n + 1, x, y) then colour else was[At(w, x, y)]
    {
      PassesMore(s, n, x, y);
    }
  }

  lemma PassesMore(s: Segment, n: nat, x: int, y: int)
    requires n <= Length(s)
    ensures Passes(s, n + 1, x, y) <==> Passes(s, n, x, y) || PointAt(s, n) == Point(x, y)
  {
    hide PointAt;
    if Passes(s, n, x, y) {
      var t: nat :| t < n && PointAt(s, t) == Point(x, y);
    }
  }

  /** One point, clipped to the canvas. */
  method Plot(pixels: array<Pixel>, w: nat, h: nat, x: int, y: int, colour: Pixel,
              ghost was: seq<Pixel>, ghost s: Segment, ghost n: nat)
    requires n <= Length(s) && PointAt(s, n) == Point(x, y) && Drawn(pixels[..], was, w, h, s, n, colour)
    modifies pixels
    ensures Drawn(pixels[..], was, w, h, s, n + 1, colour)
  {
    ghost var now := pixels[..];
    if 0 <= x < w && 0 <= y < h {
      InGrid(w, h, x, y);
      pixels[At(w, x, y)] := colour;
    }
    hide Drawn;
    PlotKeepsDrawn(now, pixels[..], was, w, h, s, n, colour);
  }

  /** k steps from a in direction d. */
  function Walk(a: int, d: int, k: nat): int { a + d * k }

  lemma WalkOn(a: int, d: int, k: nat)
    ensures Walk(a, d, k + 1) == Walk(a, d, k) + d && Walk(a, d, 0) == a
  {
  }

  /** The state of the loop after t turns. */
  ghost predicate AtTurn(s: Segment, err: int, x: int, y: int, i: nat, j: nat, t: nat) {
    && t <= Length(s)
    && i == AlongX(s, t) && j == AlongY(s, t)
    && x == Walk(s.a.x, Sign(s.a.x, s.b.x), i) && y == Walk(s.a.y, Sign(s.a.y, s.b.y), j)
    && InBand(s, err, i, j)
  }

  lemma TurnStarts(s: Segment)
    ensures AtTurn(s, Dx(s) - Dy(s), s.a.x, s.a.y, 0, 0, 0)
  {
    Ends(s);
  }

  lemma TurnPoint(s: Segment, err: int, x: int, y: int, i: nat, j: nat, t: nat)
    requires AtTurn(s, err, x, y, i, j, t)
    ensures PointAt(s, t) == Point(x, y)
    ensures x == s.b.x && y == s.b.y <==> t == Length(s)
  {
    Ends(s);
  }

  /** One turn of the loop body. */
  lemma TurnStep(s: Segment, err: int, x: int, y: int, i: nat, j: nat, t: nat)
    requires AtTurn(s, err, x, y, i, j, t) && t < Length(s)
    ensures var stepX, stepY := 2 * err >= -(Dy(s) as int), 2 * err <= Dx(s);
            AtTurn(s, err - (if stepX then Dy(s) else 0) + (if stepY then Dx(s) else 0),
                   if stepX then x + Sign(s.a.x, s.b.x) else x, if stepY then y + Sign(s.a.y, s.b.y) else y,
                   if stepX then i + 1 else i, if stepY then j + 1 else j, t + 1)
  {
    var stepX, stepY := 2 * err >= -(Dy(s) as int), 2 * err <= Dx(s);
    var err' := err - (if stepX then Dy(s) else 0) + (if stepY then Dx(s) else 0);
    var i', j' := if stepX then i + 1 else i, if stepY then j + 1 else j;
    BandStep(s, err, i, j);
    assert InBand(s, err', i', j');
    assert t + 1 == if Dx(s) >= Dy(s) then i' else j';
    BandIsRounded(s, err', i', j', t + 1);
    WalkOn(s.a.x, Sign(s.a.x, s.b.x), i);
    WalkOn(s.a.y, Sign(s.a.y, s.b.y), j);
    hide InBand, Walk, AlongX, AlongY;
  }

  /** `wubu_cv_line`: draws exactly the rounded line, in exactly `Length` steps. */
  method DrawLine(pixels: array<Pixel>, w: nat, h: nat, x0: int, y0: int, x1: int, y1: int, colour: Pixel)
      returns (ghost steps: nat)
    requires pixels.Length == w * h
    modifies pixels
    ensures var s := Segment(Point(x0, y0), Point(x1, y1));
            steps == Length(s) && Drawn(pixels[..], old(pixels[..]), w, h, s, Length(s) + 1, colour)
  {
    ghost var s, was := Segment(Point(x0, y0), Point(x1, y1)), pixels[..];
    var dx, sx := Abs(x1 - x0), Sign(x0, x1);
    var dy, sy := -(Abs(y1 - y0) as int), Sign(y0, y1);
    var err := dx + dy;
    var x, y := x0, y0;
    ghost var i: nat, j: nat := 0, 0;
    steps := 0;
    TurnStarts(s);
    assert dx == Dx(s) && -dy == Dy(s);
    assert Drawn(pixels[..], was, w, h, s, 0, colour);
    hide Drawn, PointAt, AtTurn, Dx, Dy, Length;
    while true
      invariant steps <= Length(s) && AtTurn(s, err, x, y, i, j, steps)
      invariant Drawn(pixels[..], was, w, h, s, steps, colour)
      decreases Length(s) - steps
    {
      TurnPoint(s, err, x, y, i, j, steps);
      Plot(pixels, w, h, x, y, colour, was, s, steps);
      if x == x1 && y == y1 {
        return;
      }
      TurnStep(s, err, x, y, i, j, steps);
      var e2 := 2 * err;
      if e2 >= dy {
        err, x, i := err + dy, x + sx, i + 1;
      }
      if e2 <= dx {
        err, y, j := err + dx, y + sy, j + 1;
      }
      steps := steps + 1;
    }
  }
}
