/** Minesweeper on values: neighbours, the flood of a reveal, and counting. */
module MineField {
  import opened Grid
  import opened Reach

  datatype Square = Hidden | Revealed | Flagged

  /** A field: its size, its mines and the number of mines around each cell. */
  datatype Field = Field(cols: nat, rows: nat, mine: seq<bool>, adj: seq<nat>)

  predicate Sound(f: Field) {
    f.cols > 0 && f.rows > 0 && |f.mine| == |f.adj| == f.cols * f.rows
  }

  function Dist(a: int, b: int): nat { if a < b then b - a else a - b }

  /** Cells that touch, by flat index. */
  predicate Touch(cols: nat, i: nat, j: nat)
    requires cols > 0
  {
    i != j && Dist(i / cols, j / cols) <= 1 && Dist(i % cols, j % cols) <= 1
  }

  lemma TouchAt(cols: nat, r: nat, c: nat, r': nat, c': nat)
    requires c < cols && c' < cols
    ensures Touch(cols, At(cols, c, r), At(cols, c', r'))
        <==> (r != r' || c != c') && Dist(r, r') <= 1 && Dist(c, c') <= 1
  {
    RowCol(cols, c, r);
    RowCol(cols, c', r');
  }

  function MinesAround(cols: nat, mine: seq<bool>, i: nat): set<nat>
    requires cols > 0
  {
    set j: nat | j < |mine| && Touch(cols, i, j) && mine[j]
  }

  /** Every cell knows how many mines touch it. */
  predicate Counted(f: Field)
    requires Sound(f)
  {
    forall i :: 0 <= i < |f.adj| ==> f.adj[i] == |MinesAround(f.cols, f.mine, i)|
  }

  // ---- The flood ---------------------------------------------------------------------------

  /** The flood passes from a hidden cell with no mine around it to a hidden safe cell it touches. */
  predicate Flows(f: Field, s: seq<Square>, i: nat, j: nat)
    requires Sound(f)
  {
    && i < |s| == |f.mine| && j < |s|
    && s[i].Hidden? && !f.mine[i] && f.adj[i] == 0
    && Touch(f.cols, i, j)
    && s[j].Hidden? && !f.mine[j]
  }

  ghost function Flow(f: Field, s: seq<Square>): (nat, nat) -> bool
    requires Sound(f)
  {
    (i: nat, j: nat) => Flows(f, s, i, j)
  }

  /** Cells revealed between two states. */
  function Opened(s: seq<Square>, t: seq<Square>): set<nat> {
    set j: nat | j < |s| && j < |t| && s[j].Hidden? && t[j].Revealed?
  }

  /** Nothing changed except hidden cells that became revealed. */
  predicate OnlyOpens(s: seq<Square>, t: seq<Square>) {
    |s| == |t| && forall j :: 0 <= j < |s| ==> t[j] == s[j] || (s[j].Hidden? && t[j].Revealed?)
  }

  /** No hidden safe cell touches cell z. */
  predicate Drained(f: Field, t: seq<Square>, z: nat)
    requires Sound(f) && |t| == |f.mine|
  {
    forall j: nat :: j < |t| && Touch(f.cols, z, j) && t[j].Hidden? ==> f.mine[j]
  }

  /** A flood from cell i on its way: everything opened is reachable, and drained except for i. */
  ghost predicate Flooding(f: Field, s: seq<Square>, t: seq<Square>, i: nat)
    requires Sound(f)
  {
    && |s| == |f.mine| && i < |s|
    && OnlyOpens(s, t)
    && i in Opened(s, t)
    && (forall z :: z in Opened(s, t) ==> Reaches(Flow(f, s), i, z) && !f.mine[z])
    && (forall z :: z in Opened(s, t) && z != i && f.adj[z] == 0 ==> Drained(f, t, z))
  }

  /** A finished flood. */
  ghost predicate Flooded(f: Field, s: seq<Square>, t: seq<Square>, i: nat)
    requires Sound(f)
  {
    Flooding(f, s, t, i) && (f.adj[i] == 0 ==> Drained(f, t, i))
  }

  lemma FloodStarts(f: Field, s: seq<Square>, i: nat)
    requires Sound(f) && |s| == |f.mine| && i < |s| && s[i].Hidden? && !f.mine[i]
    ensures Flooding(f, s, s[i := Revealed], i)
    ensures Opened(s, s[i := Revealed]) == {i}
  {
    ReachesSelf(Flow(f, s), i);
  }

  lemma OpenedTwice(s: seq<Square>, t: seq<Square>, u: seq<Square>)
    requires OnlyOpens(s, t) && OnlyOpens(t, u)
    ensures OnlyOpens(s, u)
    ensures Opened(s, u) == Opened(s, t) + Opened(t, u)
    ensures Opened(s, t) !! Opened(t, u)
    ensures |Opened(s, u)| == |Opened(s, t)| + |Opened(t, u)|
  {
    assert |Opened(s, t) + Opened(t, u)| == |Opened(s, t)| + |Opened(t, u)|;
  }

  lemma DrainedStays(f: Field, t: seq<Square>, u: seq<Square>, z: nat)
    requires Sound(f) && |t| == |f.mine| && Drained(f, t, z) && OnlyOpens(t, u)
    ensures Drained(f, u, z)
  {
  }

  /** Flooding on from a neighbour j of i. */
  lemma FloodsOn(f: Field, s: seq<Square>, t: seq<Square>, u: seq<Square>, i: nat, j: nat)
    requires Sound(f) && Flooding(f, s, t, i) && Flooded(f, t, u, j)
    requires f.adj[i] == 0 && Touch(f.cols, i, j)
    ensures Flooding(f, s, u, i)
  {
    OpenedTwice(s, t, u);
    hide Touch;
    assert t[j].Hidden? && s[j].Hidden? && !f.mine[j] && !f.mine[i];
    assert Flow(f, s)(i, j);
    forall z | z in Opened(s, u)
      ensures Reaches(Flow(f, s), i, z) && !f.mine[z]
    {
      if z in Opened(t, u) {
        MoreEdges(Flow(f, t), Flow(f, s), j, z);
        StepBefore(Flow(f, s), i, j, z);
      }
    }
    forall z | z in Opened(s, u) && z != i && f.adj[z] == 0
      ensures Drained(f, u, z)
    {
      if z in Opened(s, t) {
        DrainedStays(f, t, u, z);
      }
    }
  }

  /** A finished flood opens exactly the cells its start reaches. */
  lemma FloodIsReach(f: Field, s: seq<Square>, t: seq<Square>, i: nat, z: nat)
    requires Sound(f) && Flooded(f, s, t, i)
    ensures z in Opened(s, t) <==> Reaches(Flow(f, s), i, z)
  {
    if Reaches(Flow(f, s), i, z) {
      var got := Opened(s, t);
      forall x: nat, y: nat | x in got && Flow(f, s)(x, y)
        ensures y in got
      {
        assert Drained(f, t, x);
        assert !t[y].Hidden?;
      }
      ClosedHoldsAll(Flow(f, s), got, i, z);
    }
  }

  // ---- Walking round a cell --------------------------------------------------------------------

  /** Offset (dr', dc') comes before (dr, dc) in the two nested loops. */
  predicate Before(r: int, c: int, dr: int, dc: int, r': int, c': int) {
    r' < r + dr || (r' == r + dr && c' < c + dc)
  }

  /** The neighbours of (r, c) already visited are no longer hidden, or are mines. */
  predicate Passed(f: Field, t: seq<Square>, r: nat, c: nat, dr: int, dc: int)
    requires Sound(f) && |t| == |f.mine|
  {
    forall r': nat, c': nat {:trigger At(f.cols, c', r')} ::
      r' < f.rows && c' < f.cols && At(f.cols, c', r') < |t|
      && (r' != r || c' != c) && Dist(r, r') <= 1 && Dist(c, c') <= 1 && Before(r, c, dr, dc, r', c')
      ==> t[At(f.cols, c', r')].Hidden? ==> f.mine[At(f.cols, c', r')]
  }

  /**
    * What a finished flood opened: hidden safe cells; with a zero cell all its hidden safe neighbours; and
    * apart from the first cell only neighbours of opened zero cells.
    */
  lemma FloodShape(f: Field, s: seq<Square>, t: seq<Square>, i: nat, z: nat)
    requires Sound(f) && Flooded(f, s, t, i) && z in Opened(s, t)
    ensures z < |s| == |f.mine| == |f.adj| && s[z].Hidden? && !f.mine[z]
    ensures f.adj[z] == 0 ==>
              forall j: nat :: j < |s| && Touch(f.cols, z, j) && s[j].Hidden? && !f.mine[j] ==> j in Opened(s, t)
    ensures z != i ==> exists y :: y in Opened(s, t) && y < |f.adj| && f.adj[y] == 0 && Touch(f.cols, y, z)
  {
    hide Touch;
    if f.adj[z] == 0 {
      assert Drained(f, t, z);
    }
    if z != i {
      var p :| IsPath(Flow(f, s), p, i, z);
      var k := |p| - 2;
      assert Flow(f, s)(p[k], p[k + 1]);
      assert IsPath(Flow(f, s), p[..k + 1], i, p[k]);
      FloodIsReach(f, s, t, i, p[k]);
    }
  }

  lemma PassedStays(f: Field, t: seq<Square>, u: seq<Square>, r: nat, c: nat, dr: int, dc: int)
    requires Sound(f) && |t| == |f.mine| && Passed(f, t, r, c, dr, dc) && OnlyOpens(t, u)
    ensures Passed(f, u, r, c, dr, dc)
  {
    hide At, Dist;
  }

  /** Visiting one more offset. */
  lemma PassedStep(f: Field, t: seq<Square>, r: nat, c: nat, dr: int, dc: int)
    requires Sound(f) && |t| == |f.mine| && Passed(f, t, r, c, dr, dc)
    requires (dr == 0 && dc == 0)
             || !(0 <= r + dr < f.rows && 0 <= c + dc < f.cols)
             || (At(f.cols, c + dc, r + dr) < |t|
                 && (t[At(f.cols, c + dc, r + dr)].Hidden? ==> f.mine[At(f.cols, c + dc, r + dr)]))
    ensures Passed(f, t, r, c, dr, dc + 1)
  {
    hide At, Dist;
  }

  lemma PassedRow(f: Field, t: seq<Square>, r: nat, c: nat, dr: int)
    requires Sound(f) && |t| == |f.mine| && Passed(f, t, r, c, dr, 2)
    ensures Passed(f, t, r, c, dr + 1, -1)
  {
    hide At;
  }

  lemma PassedAll(f: Field, t: seq<Square>, r: nat, c: nat)
    requires Sound(f) && |t| == |f.mine| && r < f.rows && c < f.cols && Passed(f, t, r, c, 2, -1)
    ensures Drained(f, t, At(f.cols, c, r))
  {
    hide At, Touch, Dist;
    var i := At(f.cols, c, r);
    forall j: nat | j < |t| && Touch(f.cols, i, j) && t[j].Hidden?
      ensures f.mine[j]
    {
      var r', c' := TouchCell(f.cols, f.rows, r, c, j);
    }
  }

  /** Row and column of a cell that touches (r, c). */
  lemma TouchCell(cols: nat, rows: nat, r: nat, c: nat, j: nat) returns (r': nat, c': nat)
    requires c < cols && j < cols * rows && Touch(cols, At(cols, c, r), j)
    ensures r' < rows && c' < cols && At(cols, c', r') == j
    ensures (r' != r || c' != c) && Dist(r, r') <= 1 && Dist(c, c') <= 1
    ensures Before(r, c, 2, -1, r', c') && !Before(r, c, -1, -1, r', c')
    ensures r' == j / cols && c' == j % cols
  {
    Cell(cols, rows, j);
    r', c' := j / cols, j % cols;
    TouchAt(cols, r, c, r', c');
  }

  /** Mines around (r, c) that the loops have met before offset (dr, dc). */
  function Met(cols: nat, mine: seq<bool>, r: nat, c: nat, dr: int, dc: int): set<nat>
    requires cols > 0
  {
    set j: nat | j < |mine| && mine[j] && Touch(cols, At(cols, c, r), j)
                 && Before(r, c, dr, dc, j / cols, j % cols)
  }

  lemma MetEnds(cols: nat, rows: nat, mine: seq<bool>, r: nat, c: nat)
    requires c < cols && |mine| == cols * rows
    ensures Met(cols, mine, r, c, -1, -1) == {}
    ensures Met(cols, mine, r, c, 2, -1) == MinesAround(cols, mine, At(cols, c, r))
  {
    hide Dist, Before, At, Touch;
    forall j: nat | j < |mine| && mine[j] && Touch(cols, At(cols, c, r), j)
      ensures j in Met(cols, mine, r, c, 2, -1) && j !in Met(cols, mine, r, c, -1, -1)
    {
      var r', c' := TouchCell(cols, rows, r, c, j);
    }
  }

  lemma MetRow(cols: nat, rows: nat, mine: seq<bool>, r: nat, c: nat, dr: int)
    requires c < cols && |mine| == cols * rows
    ensures Met(cols, mine, r, c, dr, 2) == Met(cols, mine, r, c, dr + 1, -1)
  {
    hide At, Touch;
    forall j: nat | j < |mine| && mine[j] && Touch(cols, At(cols, c, r), j)
      ensures j in Met(cols, mine, r, c, dr, 2) <==> j in Met(cols, mine, r, c, dr + 1, -1)
    {
      var r', c' := TouchCell(cols, rows, r, c, j);
    }
  }

  /** Meeting the cell at offset (dr, dc). */
  lemma MetStep(cols: nat, rows: nat, mine: seq<bool>, r: nat, c: nat, dr: int, dc: int)
    requires c < cols && |mine| == cols * rows && -1 <= dr <= 1 && -1 <= dc <= 1
    ensures var rr, cc := r + dr, c + dc;
            if (dr != 0 || dc != 0) && 0 <= rr < rows && 0 <= cc < cols && At(cols, cc, rr) < |mine|
               && mine[At(cols, cc, rr)]
            then Met(cols, mine, r, c, dr, dc + 1) == Met(cols, mine, r, c, dr, dc) + {At(cols, cc, rr)}
                 && At(cols, cc, rr) !in Met(cols, mine, r, c, dr, dc)
            else Met(cols, mine, r, c, dr, dc + 1) == Met(cols, mine, r, c, dr, dc)
  {
    var rr, cc := r + dr, c + dc;
    if 0 <= rr < rows && 0 <= cc < cols {
      TouchAt(cols, r, c, rr, cc);
      RowCol(cols, cc, rr);
    }
    hide At, Touch;
    forall j: nat | j < |mine| && mine[j] && Touch(cols, At(cols, c, r), j)
      ensures Before(r, c, dr, dc + 1, j / cols, j % cols)
          <==> Before(r, c, dr, dc, j / cols, j % cols)
               || (0 <= rr < rows && 0 <= cc < cols && j == At(cols, cc, rr))
    {
      var r', c' := TouchCell(cols, rows, r, c, j);
    }
  }

  // ---- Counting -------------------------------------------------------------------------------

  function Mines(mine: seq<bool>): set<nat> { set j: nat | j < |mine| && mine[j] }

  function Flags(s: seq<Square>): set<nat> { set j: nat | j < |s| && s[j].Flagged? }

  function SafeRevealed(mine: seq<bool>, s: seq<Square>): set<nat> {
    set j: nat | j < |s| && j < |mine| && s[j].Revealed? && !mine[j]
  }

  predicate MineRevealed(mine: seq<bool>, s: seq<Square>) {
    exists j :: 0 <= j < |s| && j < |mine| && s[j].Revealed? && mine[j]
  }

  function HiddenCells(s: seq<Square>): set<nat> { set j: nat | j < |s| && s[j].Hidden? }

  /** Opening safe cells adds them to the count, and changes no flag. */
  lemma OpeningCounts(mine: seq<bool>, s: seq<Square>, t: seq<Square>)
    requires OnlyOpens(s, t) && |mine| == |s|
    requires forall z :: z in Opened(s, t) ==> !mine[z]
    ensures |SafeRevealed(mine, t)| == |SafeRevealed(mine, s)| + |Opened(s, t)|
    ensures Flags(t) == Flags(s)
    ensures MineRevealed(mine, t) <==> MineRevealed(mine, s)
  {
    assert SafeRevealed(mine, t) == SafeRevealed(mine, s) + Opened(s, t);
    assert SafeRevealed(mine, s) !! Opened(s, t);
    if MineRevealed(mine, s) {
      var j :| 0 <= j < |s| && s[j].Revealed? && mine[j];
      assert t[j].Revealed?;
    }
    if MineRevealed(mine, t) {
      var j :| 0 <= j < |t| && t[j].Revealed? && mine[j];
      assert j !in Opened(s, t);
    }
  }

  function Below(n: nat): (s: set<nat>)
    ensures |s| == n && forall j: nat :: j in s <==> j < n
  {
    if n == 0 then {} else Below(n - 1) + {n - 1}
  }

  /** The count of revealed safe cells is complete exactly when every safe cell is revealed. */
  lemma AllSafeRevealed(mine: seq<bool>, s: seq<Square>)
    requires |mine| == |s|
    ensures |SafeRevealed(mine, s)| == |s| - |Mines(mine)|
        <==> forall j :: 0 <= j < |s| && !mine[j] ==> s[j].Revealed?
  {
    var open, shut := SafeRevealed(mine, s), set j: nat | j < |s| && !mine[j] && !s[j].Revealed?;
    assert Below(|s|) == Mines(mine) + open + shut;
    assert |Mines(mine) + open + shut| == |Mines(mine)| + |open| + |shut|;
    if shut == {} {
      forall j | 0 <= j < |s| && !mine[j]
        ensures s[j].Revealed?
      {
        assert j !in shut;
      }
    } else {
      var j :| j in shut;
    }
  }

  // ---- Placing mines --------------------------------------------------------------------------------

  /** The 3x3 block around the first click. */
  predicate Spared(cols: nat, sr: nat, sc: nat, i: nat)
    requires cols > 0
  {
    Dist(i / cols, sr) <= 1 && Dist(i % cols, sc) <= 1
  }

  /** Cells a mine may go to. */
  function Allowed(cols: nat, n: nat, sr: nat, sc: nat): set<nat>
    requires cols > 0
  {
    set i: nat | i < n && !Spared(cols, sr, sc, i)
  }

  /** The cell a random number names. */
  function CellDrawn(draw: nat, n: nat): (i: nat)
    requires n > 0
    ensures i < n && (draw < n ==> i == draw) && exists q: nat :: draw == At(n, i, q)
  {
    DrawParts(draw, n);
    draw % n
  }

  lemma DrawParts(draw: nat, n: nat)
    requires n > 0
    ensures draw % n < n && draw / n >= 0 && draw == At(n, draw % n, draw / n)
    ensures draw < n ==> draw % n == draw
  {
  }

  lemma CellDrawnIs(draw: nat, n: nat, i: nat, q: nat)
    requires i < n && draw == At(n, i, q)
    ensures CellDrawn(draw, n) == i
  {
    hide CellDrawn, At;
    var k: nat :| draw == At(n, CellDrawn(draw, n), k);
    Unique(n, i, q, CellDrawn(draw, n), k);
  }

  /** The allowed cells among those the random numbers name. */
  function Hits(cols: nat, n: nat, sr: nat, sc: nat, draws: seq<nat>): set<nat>
    requires cols > 0 && n > 0
  {
    set k | 0 <= k < |draws| && !Spared(cols, sr, sc, CellDrawn(draws[k], n)) :: CellDrawn(draws[k], n)
  }

  /** A cell may be mined unless it lies in the 3x3 block around the first click. */
  lemma AllowedAt(cols: nat, rows: nat, sr: nat, sc: nat, r: nat, c: nat)
    requires c < cols && r < rows
    ensures At(cols, c, r) in Allowed(cols, cols * rows, sr, sc)
       <==> r > sr + 1 || sr > r + 1 || c > sc + 1 || sc > c + 1
  {
    InGrid(cols, rows, c, r);
    RowCol(cols, c, r);
    hide At;
  }

  /** The cells that random numbers hit: the allowed remainders of the numbers by the number of cells. */
  lemma HitsAre(cols: nat, n: nat, sr: nat, sc: nat, draws: seq<nat>, i: nat)
    requires cols > 0 && n > 0
    ensures i in Hits(cols, n, sr, sc, draws)
       <==> i in Allowed(cols, n, sr, sc) && exists k, q: nat :: 0 <= k < |draws| && draws[k] == At(n, i, q)
  {
    hide Spared, CellDrawn, At;
    if i in Hits(cols, n, sr, sc, draws) {
      var k :| 0 <= k < |draws| && i == CellDrawn(draws[k], n);
      var q: nat :| draws[k] == At(n, i, q);
    }
    if i in Allowed(cols, n, sr, sc) && exists k, q: nat :: 0 <= k < |draws| && draws[k] == At(n, i, q) {
      var k, q: nat :| 0 <= k < |draws| && draws[k] == At(n, i, q);
      CellDrawnIs(draws[k], n, i, q);
    }
  }

  /** The first k random numbers hit `mines` cells, and fewer of them hit fewer. */
  predicate Suffices(cols: nat, n: nat, sr: nat, sc: nat, draws: seq<nat>, k: nat, mines: nat)
    requires cols > 0 && n > 0
  {
    && k <= |draws| && |Hits(cols, n, sr, sc, draws[..k])| == mines
    && forall j :: 0 <= j < k ==> |Hits(cols, n, sr, sc, draws[..j])| < mines
  }

  lemma HitsNone(cols: nat, n: nat, sr: nat, sc: nat)
    requires cols > 0 && n > 0
    ensures Hits(cols, n, sr, sc, []) == {}
  {
  }

  lemma HitsStep(cols: nat, n: nat, sr: nat, sc: nat, draws: seq<nat>, k: nat)
    requires cols > 0 && n > 0 && k < |draws|
    ensures var i := CellDrawn(draws[k], n);
            Hits(cols, n, sr, sc, draws[..k + 1])
            == Hits(cols, n, sr, sc, draws[..k]) + if Spared(cols, sr, sc, i) then {} else {i}
  {
    hide Spared, CellDrawn;
    var a, b := draws[..k], draws[..k + 1];
    assert b == a + [draws[k]];
    forall j | 0 <= j < |a|
      ensures b[j] == a[j]
    {
    }
    assert b[k] == draws[k];
  }

  lemma HitsMono(cols: nat, n: nat, sr: nat, sc: nat, draws: seq<nat>, k: nat)
    requires cols > 0 && n > 0 && k <= |draws|
    ensures Hits(cols, n, sr, sc, draws[..k]) <= Hits(cols, n, sr, sc, draws)
    ensures |Hits(cols, n, sr, sc, draws[..k])| <= |Hits(cols, n, sr, sc, draws)|
  {
    hide Spared;
    var a, b := Hits(cols, n, sr, sc, draws[..k]), Hits(cols, n, sr, sc, draws);
    assert a <= b;
    assert b == a + (b - a);
  }

  lemma HitsAllowed(cols: nat, n: nat, sr: nat, sc: nat, draws: seq<nat>)
    requires cols > 0 && n > 0
    ensures Hits(cols, n, sr, sc, draws) <= Allowed(cols, n, sr, sc)
  {
    hide Spared, CellDrawn;
  }

  lemma {:induction false} Listing(s: set<nat>) returns (q: seq<nat>)
    ensures forall x :: x in s <==> x in q
    decreases |s|
  {
    if s == {} {
      q := [];
    } else {
      var x :| x in s;
      var rest := Listing(s - {x});
      q := [x] + rest;
    }
  }

  /**
    * The rejection loop can finish exactly when the mines fit outside the spared block: then some
    * random numbers let it finish, and otherwise none do.
    */
  lemma PlacementCanFinishIff(cols: nat, n: nat, sr: nat, sc: nat, mines: nat)
    requires cols > 0 && n > 0
    ensures (exists draws: seq<nat> :: mines <= |Hits(cols, n, sr, sc, draws)|)
        <==> mines <= |Allowed(cols, n, sr, sc)|
  {
    hide Spared, Hits, Allowed;
    var all := Allowed(cols, n, sr, sc);
    if mines <= |all| {
      var q := Listing(all);
      ListingHits(cols, n, sr, sc, q);
      Subset(all, Hits(cols, n, sr, sc, q));
    }
    forall draws: seq<nat>
      ensures |Hits(cols, n, sr, sc, draws)| <= |all|
    {
      HitsAllowed(cols, n, sr, sc, draws);
      Subset(Hits(cols, n, sr, sc, draws), all);
    }
  }

  lemma ListingHits(cols: nat, n: nat, sr: nat, sc: nat, q: seq<nat>)
    requires cols > 0 && n > 0 && forall x :: x in Allowed(cols, n, sr, sc) <==> x in q
    ensures Allowed(cols, n, sr, sc) <= Hits(cols, n, sr, sc, q)
  {
    hide Spared, CellDrawn;
    forall x | x in Allowed(cols, n, sr, sc)
      ensures x in Hits(cols, n, sr, sc, q)
    {
      var k :| 0 <= k < |q| && q[k] == x;
      assert CellDrawn(q[k], n) == x;
    }
  }

  /** Nine cells with eight mines: a first click in the middle never stops drawing. */
  lemma CentreClickHangs(draws: seq<nat>)
    ensures |Hits(3, 9, 1, 1, draws)| < 8
  {
    hide Hits;
    HitsAllowed(3, 9, 1, 1, draws);
    assert Allowed(3, 9, 1, 1) == {};
    assert Hits(3, 9, 1, 1, draws) == {};
  }

  /** No mine is placed in or next to the first cell, so it has no mine around it. */
  lemma FirstCellIsZero(f: Field, sr: nat, sc: nat)
    requires Sound(f) && Counted(f) && sr < f.rows && sc < f.cols
    requires Mines(f.mine) <= Allowed(f.cols, |f.mine|, sr, sc)
    ensures At(f.cols, sc, sr) < |f.mine| && !f.mine[At(f.cols, sc, sr)] && f.adj[At(f.cols, sc, sr)] == 0
  {
    var i := At(f.cols, sc, sr);
    InGrid(f.cols, f.rows, sc, sr);
    RowCol(f.cols, sc, sr);
    assert i !in Mines(f.mine);
    forall j: nat | j < |f.mine| && Touch(f.cols, i, j)
      ensures !f.mine[j]
    {
      assert j !in Mines(f.mine);
    }
    assert MinesAround(f.cols, f.mine, i) == {};
  }
}
