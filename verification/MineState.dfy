/** The minesweeper engine in its own form: arrays and counters updated in place. */
module MineStateModel {
  import opened Grid
  import opened Reach
  import opened MineField

  const MAX_CELLS := 900
  const PLAYING := 0
  const WON := 1
  const LOST := 2

  class MineState {
    var cols: nat
    var rows: nat
    var mines: nat
    const mine: array<bool>
    const adj: array<nat>
    const state: array<Square>
    var revealedCount: int
    var flagCount: int
    var firstClick: bool
    var gameOver: int

    ghost predicate Sized()
      reads this
    {
      && mine.Length == adj.Length == state.Length == MAX_CELLS
      && (mine as object) != adj && (mine as object) != state && (adj as object) != state
      && cols > 0 && rows > 0 && cols * rows <= MAX_CELLS
    }

    /** The field in play. */
    ghost function Board(): (f: Field)
      requires Sized()
      reads this, mine, adj
      ensures Sound(f)
    {
      Field(cols, rows, mine[..cols * rows], adj[..cols * rows])
    }

    ghost function Squares(): (s: seq<Square>)
      requires Sized()
      reads this, state
      ensures |s| == cols * rows
    {
      state[..cols * rows]
    }

    predicate InRange(r: int, c: int)
      reads this
    {
      0 <= r < rows && 0 <= c < cols
    }

    /** What revealing cell (r, c) does, given the squares and counters before. */
    ghost predicate RevealSpec(r: int, c: int, s: seq<Square>, t: seq<Square>, count: int, over: int)
      requires Sized() && |s| == |t| == cols * rows
      reads this, mine, adj
    {
      InGridRC(r, c);
      if !InRange(r, c) || !s[At(cols, c, r)].Hidden? then t == s && revealedCount == count && gameOver == over
      else if mine[At(cols, c, r)] then
        t == s[At(cols, c, r) := Revealed] && revealedCount == count && gameOver == LOST
      else Flooded(Board(), s, t, At(cols, c, r)) && revealedCount == count + |Opened(s, t)| && gameOver == over
    }

    lemma InGridRC(r: int, c: int)
      requires Sized()
      ensures InRange(r, c) ==> At(cols, c, r) < cols * rows
    {
      if InRange(r, c) {
        InGrid(cols, rows, c, r);
      }
    }

    method RevealCell(r: int, c: int)
      requires Sized()
      modifies state, this`revealedCount, this`gameOver
      ensures RevealSpec(r, c, old(Squares()), Squares(), old(revealedCount), old(gameOver))
      decreases |HiddenCells(Squares())|, 0
    {
      InGridRC(r, c);
      if r < 0 || r >= rows || c < 0 || c >= cols {
        return;
      }
      var i := At(cols, c, r);
      if state[i] != Hidden {
        return;
      }
      ghost var f, s := Board(), Squares();
      state[i] := Revealed;
      assert Squares() == s[i := Revealed];
      if mine[i] {
        gameOver := LOST;
        return;
      }
      revealedCount := revealedCount + 1;
      FloodStarts(f, s, i);
      HiddenShrinks(s, i);
      if adj[i] == 0 {
        ghost var t := Squares();
        FloodAround(r, c, s);
        OpenedTwice(s, t, Squares());
      }
    }

    /** The two nested loops over the neighbours of a cell with no mine around it. */
    method FloodAround(r: nat, c: nat, ghost s: seq<Square>)
      requires Sized() && InRange(r, c) && At(cols, c, r) < cols * rows
      requires Flooding(Board(), s, Squares(), At(cols, c, r)) && adj[At(cols, c, r)] == 0
      modifies state, this`revealedCount, this`gameOver
      ensures Flooded(Board(), s, Squares(), At(cols, c, r))
      ensures OnlyOpens(old(Squares()), Squares())
      ensures revealedCount == old(revealedCount) + |Opened(old(Squares()), Squares())| && gameOver == old(gameOver)
      decreases |HiddenCells(Squares())|, 2
    {
      ghost var f, t, i := Board(), Squares(), At(cols, c, r);
      assert Opened(t, t) == {} && OnlyOpens(t, t) && Passed(f, t, r, c, -1, -1);
      hide Flooding, Passed, OnlyOpens, Opened, HiddenCells, Dist, At;
      for dr := -1 to 2
        invariant Flooding(f, s, Squares(), i) && OnlyOpens(t, Squares())
        invariant revealedCount == old(revealedCount) + |Opened(t, Squares())| && gameOver == old(gameOver)
        invariant Passed(f, Squares(), r, c, dr, -1)
      {
        for dc := -1 to 2
          invariant Flooding(f, s, Squares(), i) && OnlyOpens(t, Squares())
          invariant revealedCount == old(revealedCount) + |Opened(t, Squares())| && gameOver == old(gameOver)
          invariant Passed(f, Squares(), r, c, dr, dc)
        {
          if dr != 0 || dc != 0 {
            HiddenMono(t, Squares());
            Visit(r, c, dr, dc, s, t);
          }
          PassedStep(f, Squares(), r, c, dr, dc);
        }
        PassedRow(f, Squares(), r, c, dr);
      }
      PassedAll(f, Squares(), r, c);
    }

    /** One turn of the inner loop. */
    method Visit(r: nat, c: nat, dr: int, dc: int, ghost s: seq<Square>, ghost t: seq<Square>)
      requires Sized() && InRange(r, c) && At(cols, c, r) < cols * rows
      requires -1 <= dr <= 1 && -1 <= dc <= 1 && (dr != 0 || dc != 0)
      requires Flooding(Board(), s, Squares(), At(cols, c, r)) && adj[At(cols, c, r)] == 0
      requires OnlyOpens(t, Squares()) && Passed(Board(), Squares(), r, c, dr, dc)
      modifies state, this`revealedCount, this`gameOver
      ensures Flooding(Board(), s, Squares(), At(cols, c, r))
      ensures OnlyOpens(t, Squares()) && Passed(Board(), Squares(), r, c, dr, dc)
      ensures revealedCount == old(revealedCount) + |Opened(t, Squares())| - |Opened(t, old(Squares()))|
      ensures gameOver == old(gameOver)
      ensures InRange(r + dr, c + dc) ==>
                At(cols, c + dc, r + dr) < cols * rows
                && (state[At(cols, c + dc, r + dr)].Hidden? ==> mine[At(cols, c + dc, r + dr)])
      decreases |HiddenCells(Squares())|, 1
    {
      var rr, cc := r + dr, c + dc;
      InGridRC(rr, cc);
      if rr < 0 || rr >= rows || cc < 0 || cc >= cols {
        return;
      }
      var j := At(cols, cc, rr);
      if state[j] == Hidden && !mine[j] {
        ghost var f, u := Board(), Squares();
        RevealCell(rr, cc);
        hide At, Touch, Passed;
        TouchAt(cols, r, c, rr, cc);
        FloodsOn(f, s, u, Squares(), At(cols, c, r), j);
        OpenedTwice(t, u, Squares());
        PassedStays(f, u, Squares(), r, c, dr, dc);
      }
    }

    // ---- Placing mines --------------------------------------------------------------------------

    /** The number of mines around (r, c). */
    method CountAround(r: nat, c: nat) returns (n: nat)
      requires Sized() && InRange(r, c)
      ensures n == |MinesAround(cols, mine[..cols * rows], At(cols, c, r))|
    {
      hide Met, MinesAround, At;
      ghost var m := mine[..cols * rows];
      MetEnds(cols, rows, m, r, c);
      n := 0;
      for dr := -1 to 2
        invariant n == |Met(cols, m, r, c, dr, -1)|
      {
        for dc := -1 to 2
          invariant n == |Met(cols, m, r, c, dr, dc)|
        {
          MetStep(cols, rows, m, r, c, dr, dc);
          var rr, cc := r + dr, c + dc;
          InGridRC(rr, cc);
          if (dr != 0 || dc != 0) && 0 <= rr < rows && 0 <= cc < cols {
            if mine[At(cols, cc, rr)] {
              n := n + 1;
            }
          }
        }
        MetRow(cols, rows, m, r, c, dr);
      }
    }

    /** The cells of the first y rows know their mines. */
    ghost predicate CountedTo(x: nat, y: nat)
      requires Sized()
      reads this, mine, adj
    {
      forall x': nat, y': nat {:trigger At(cols, x', y')} ::
        x' < cols && y' < rows && (y' < y || (y' == y && x' < x)) && At(cols, x', y') < MAX_CELLS ==>
          adj[At(cols, x', y')] == |MinesAround(cols, mine[..cols * rows], At(cols, x', y'))|
    }

    method CountAll()
      requires Sized()
      modifies adj
      ensures Counted(Board())
    {
      for r := 0 to rows
        invariant CountedTo(0, r)
      {
        for c := 0 to cols
          invariant CountedTo(c, r)
        {
          CountCell(r, c);
        }
        assert CountedTo(0, r + 1) by { hide MinesAround, At; }
      }
      CountedEverywhere();
    }

    method CountCell(r: nat, c: nat)
      requires Sized() && InRange(r, c) && CountedTo(c, r)
      modifies adj
      ensures CountedTo(c + 1, r)
    {
      AllUnique(cols, rows);
      var k := CountAround(r, c);
      hide At, MinesAround;
      adj[At(cols, c, r)] := k;
    }

    lemma CountedEverywhere()
      requires Sized() && CountedTo(0, rows)
      ensures Counted(Board())
    {
      hide MinesAround, At;
      forall i | 0 <= i < cols * rows
        ensures adj[i] == |MinesAround(cols, mine[..cols * rows], i)|
      {
        var x, y := CellOf(cols, rows, i);
      }
    }

    /**
      * Draws cells until `mines` of them are mined. `done` is false when the random numbers given
      * ran out first: the C loop would then still be drawing.
      */
    method DrawMines(sr: nat, sc: nat, draws: seq<nat>) returns (done: bool, used: nat)
      requires Sized() && Mines(mine[..cols * rows]) == {}
      modifies mine
      ensures used <= |draws| && Mines(mine[..cols * rows]) == Hits(cols, cols * rows, sr, sc, draws[..used])
      ensures if done then Suffices(cols, cols * rows, sr, sc, draws, used, mines)
              else used == |draws| && |Mines(mine[..cols * rows])| < mines
      ensures done <==> mines <= |Hits(cols, cols * rows, sr, sc, draws)|
      ensures Mines(mine[..cols * rows]) <= Allowed(cols, cols * rows, sr, sc)
    {
      hide Hits, Mines, CellDrawn;
      var n := cols * rows;
      var placed := 0;
      used := 0;
      HitsNone(cols, n, sr, sc);
      assert draws[..0] == [];
      while placed < mines && used < |draws|
        invariant used <= |draws| && placed <= mines
        invariant Mines(mine[..n]) == Hits(cols, n, sr, sc, draws[..used])
        invariant placed == |Mines(mine[..n])|
        invariant forall k :: 0 <= k < used ==> |Hits(cols, n, sr, sc, draws[..k])| < mines
      {
        var i := CellDrawn(draws[used], n);
        var r, c := i / cols, i % cols;
        HitsStep(cols, n, sr, sc, draws, used);
        MinesPlus(mine[..n], i);
        if !(Dist(r, sr) <= 1 && Dist(c, sc) <= 1) && !mine[i] {
          ghost var before := mine[..n];
          mine[i] := true;
          assert mine[..n] == before[i := true];
          placed := placed + 1;
        }
        used := used + 1;
      }
      HitsMono(cols, n, sr, sc, draws, used);
      HitsAllowed(cols, n, sr, sc, draws[..used]);
      assert draws[..|draws|] == draws;
      done := placed == mines;
    }

    // ---- The game ---------------------------------------------------------------------------------

    /** The invariant of every game: counters, placement and outcome agree with the squares. */
    ghost predicate Valid()
      reads this, mine, adj, state
    {
      && Sized()
      && var n, m, s := cols * rows, mine[..cols * rows], Squares();
         && mines < n
         && flagCount == |Flags(s)|
         && revealedCount == |SafeRevealed(m, s)|
         && (if firstClick then Mines(m) == {} && (forall j :: 0 <= j < n ==> !s[j].Revealed?)
             else |Mines(m)| == mines && Counted(Board()))
         && PLAYING <= gameOver <= LOST
         && (gameOver == LOST <==> MineRevealed(m, s))
         && (gameOver == WON <==> !MineRevealed(m, s) && revealedCount == n - mines)
    }

    constructor (gw: nat, gh: nat, count: nat)
      requires gw > 0 && gh > 0 && gw * gh <= 900
      ensures Valid() && fresh(mine) && fresh(adj) && fresh(state)
      ensures cols == gw && rows == gh && firstClick
    {
      mine, adj, state := new bool[MAX_CELLS], new nat[MAX_CELLS], new Square[MAX_CELLS];
      cols, rows := gw, gh;
      new;
      NewGame(gw, gh, count);
    }

    /** Starts over; the number of mines is cut to one less than the number of cells. */
    method NewGame(gw: nat, gh: nat, count: nat)
      requires gw > 0 && gh > 0 && gw * gh <= 900
      requires mine.Length == adj.Length == state.Length == MAX_CELLS
      requires (mine as object) != adj && (mine as object) != state && (adj as object) != state
      modifies this, mine, adj, state
      ensures Valid() && cols == gw && rows == gh && firstClick && gameOver == PLAYING
      ensures mines == if count >= gw * gh then gw * gh - 1 else count
    {
      forall i | 0 <= i < MAX_CELLS { mine[i] := false; }
      forall i | 0 <= i < MAX_CELLS { adj[i] := 0; }
      forall i | 0 <= i < MAX_CELLS { state[i] := Hidden; }
      revealedCount, flagCount := 0, 0;
      cols, rows, mines := gw, gh, if count >= gw * gh then gw * gh - 1 else count;
      firstClick, gameOver := true, PLAYING;
      assert Mines(mine[..gw * gh]) == {} && Flags(Squares()) == {} && SafeRevealed(mine[..gw * gh], Squares()) == {};
    }

    method CheckWin()
      modifies this`gameOver
      ensures gameOver
           == if old(gameOver) == PLAYING && revealedCount == cols * rows - mines then WON else old(gameOver)
    {
      if gameOver != PLAYING {
        return;
      }
      if revealedCount == cols * rows - mines {
        gameOver := WON;
      }
    }

    /** A reveal has an effect: the game goes on and the cell carries no flag. */
    ghost predicate Acts(r: int, c: int)
      requires Sized() && InRange(r, c)
      reads this, state
    {
      InGridRC(r, c);
      gameOver == PLAYING && !state[At(cols, c, r)].Flagged?
    }

    /** The random numbers are enough for the placement to finish. */
    ghost predicate Enough(r: int, c: int, draws: seq<nat>)
      requires Sized() && InRange(r, c)
      reads this
    {
      firstClick ==> mines <= |Hits(cols, cols * rows, r, c, draws)|
    }

    /** A first click at (r, c) is still drawing cells: too few mines lie outside its 3x3 block. */
    ghost predicate Drawing(r: int, c: int)
      reads this, mine, state
    {
      && Sized() && InRange(r, c) && firstClick && gameOver == PLAYING && revealedCount == 0
      && flagCount == |Flags(Squares())| && (forall j :: 0 <= j < cols * rows ==> !Squares()[j].Revealed?)
      && Mines(mine[..cols * rows]) <= Allowed(cols, cols * rows, r, c) && |Mines(mine[..cols * rows])| < mines
    }

    method Flag(r: nat, c: nat)
      requires Valid() && InRange(r, c)
      modifies state, this`flagCount
      ensures Valid()
      ensures var i, s := At(cols, c, r), old(Squares());
              && i < |s|
              && (gameOver != PLAYING || s[i].Revealed? ==> Squares() == s && flagCount == old(flagCount))
              && (gameOver == PLAYING && s[i].Flagged? ==> Squares() == s[i := Hidden])
              && (gameOver == PLAYING && s[i].Hidden? ==> Squares() == s[i := Flagged])
    {
      InGridRC(r, c);
      hide At, Counted;
      if gameOver != PLAYING {
        return;
      }
      var i := At(cols, c, r);
      ghost var m, s := mine[..cols * rows], Squares();
      if state[i] == Revealed {
        return;
      }
      if state[i] == Flagged {
        state[i] := Hidden;
        flagCount := flagCount - 1;
        Unflag(m, s, i);
      } else {
        state[i] := Flagged;
        flagCount := flagCount + 1;
        Unflag(m, s[i := Flagged], i);
        assert s[i := Flagged][i := Hidden] == s;
      }
    }

    /** Places the mines on the first click and counts them around every cell. */
    method PlaceMines(sr: nat, sc: nat, draws: seq<nat>) returns (done: bool)
      requires Valid() && InRange(sr, sc) && firstClick && gameOver == PLAYING
      modifies mine, adj, this`firstClick
      ensures done <==> mines <= |Hits(cols, cols * rows, sr, sc, draws)|
      ensures done ==> Valid() && !firstClick && Mines(Board().mine) <= Allowed(cols, cols * rows, sr, sc)
      ensures done ==> exists k: nat :: Suffices(cols, cols * rows, sr, sc, draws, k, mines)
                                        && Mines(Board().mine) == Hits(cols, cols * rows, sr, sc, draws[..k])
      ensures done ==> At(cols, sc, sr) < cols * rows && !mine[At(cols, sc, sr)] && adj[At(cols, sc, sr)] == 0
      ensures !done ==> Drawing(sr, sc)
    {
      hide At, Hits, Allowed, Counted;
      assert SafeRevealed(mine[..cols * rows], Squares()) == {};
      var used;
      done, used := DrawMines(sr, sc, draws);
      if !done {
        return;
      }
      CountAll();
      firstClick := false;
      FirstCellIsZero(Board(), sr, sc);
      assert SafeRevealed(mine[..cols * rows], Squares()) == {};
    }

    /** Reveals a cell of a placed field and looks for the end of the game. */
    method RevealPlaced(r: nat, c: nat)
      requires Valid() && InRange(r, c) && !firstClick && gameOver == PLAYING
      modifies state, this`revealedCount, this`gameOver
      ensures Valid()
      ensures RevealShape(r, c, old(Squares()), Squares())
      ensures At(cols, c, r) < cols * rows && !mine[At(cols, c, r)] ==> gameOver != LOST
    {
      hide At, Counted, Flow, Reaches;
      InGridRC(r, c);
      ghost var m, s, count := mine[..cols * rows], Squares(), revealedCount;
      RevealCell(r, c);
      ghost var t, i := Squares(), At(cols, c, r);
      if s[i].Hidden? {
        if mine[i] {
          MineOpens(m, s, i);
        } else {
          OpeningCounts(m, s, t);
        }
      }
      CheckWin();
    }

    /** What a reveal does to the squares: exactly the reachable cells open, or the one mine. */
    ghost predicate RevealShape(r: int, c: int, s: seq<Square>, t: seq<Square>)
      requires Sized() && |s| == |t| == cols * rows && InRange(r, c)
      reads this, mine, adj
    {
      InGridRC(r, c);
      var i := At(cols, c, r);
      if !s[i].Hidden? then t == s
      else if mine[i] then t == s[i := Revealed]
      else Flooded(Board(), s, t, i)
    }

    /** The action behind a left click; `done` is false when it is still drawing mines. */
    method Reveal(r: nat, c: nat, draws: seq<nat>) returns (done: bool)
      requires Valid() && InRange(r, c)
      modifies mine, adj, state, this`revealedCount, this`gameOver, this`firstClick
      ensures done <==> old(Acts(r, c) ==> Enough(r, c, draws))
      ensures if done then Valid() else Drawing(r, c) && Squares() == old(Squares())
      ensures !old(Acts(r, c)) ==>
                Squares() == old(Squares()) && gameOver == old(gameOver) && firstClick == old(firstClick)
      ensures !old(Acts(r, c) && firstClick) ==> mine[..] == old(mine[..]) && adj[..] == old(adj[..])
      ensures done && old(Acts(r, c)) ==> !firstClick && RevealShape(r, c, old(Squares()), Squares())
      ensures done && old(Acts(r, c) && firstClick) ==>
                At(cols, c, r) < cols * rows && adj[At(cols, c, r)] == 0 && !mine[At(cols, c, r)] && gameOver != LOST
    {
      hide At, Hits, Allowed, Counted, Flooded;
      InGridRC(r, c);
      done := true;
      if gameOver != PLAYING {
        return;
      }
      if state[At(cols, c, r)] == Flagged {
        return;
      }
      if firstClick {
        done := PlaceMines(r, c, draws);
        if !done {
          return;
        }
      }
      RevealPlaced(r, c);
    }

    /**
      * Any run of clicks, until one of them is left drawing mines; `n` is the number of clicks made.
      * Only a first click draws, and a finished game never changes.
      */
    method Play(moves: seq<Move>) returns (n: nat)
      requires Valid()
      modifies mine, adj, state, this`revealedCount, this`flagCount, this`gameOver, this`firstClick
      ensures n <= |moves| && (n < |moves| ==> old(firstClick) && Stuck(moves[n]))
      ensures old(gameOver) != PLAYING ==>
                n == |moves| && gameOver == old(gameOver) && Squares() == old(Squares())
                && mine[..] == old(mine[..]) && adj[..] == old(adj[..])
      ensures n == |moves| ==> Valid()
      ensures n == |moves| ==> (gameOver == LOST <==> MineRevealed(Board().mine, Squares()))
      ensures n == |moves| && !firstClick ==> (gameOver == WON <==>
                forall j :: 0 <= j < cols * rows ==> (Squares()[j].Revealed? <==> !Board().mine[j]))
    {
      n := 0;
      while n < |moves|
        invariant n <= |moves| && Valid() && (!old(firstClick) ==> !firstClick)
        invariant old(gameOver) != PLAYING ==>
                    gameOver == old(gameOver) && Squares() == old(Squares())
                    && mine[..] == old(mine[..]) && adj[..] == old(adj[..])
      {
        hide Counted, At, Hits;
        var mv := moves[n];
        if mv.r < rows && mv.c < cols {
          match mv {
            case LeftClick(r, c, draws) =>
              var done := Reveal(r, c, draws);
              if !done {
                return;
              }
            case RightClick(r, c) => Flag(r, c);
          }
        }
        n := n + 1;
      }
      AllSafeRevealed(Board().mine, Squares());
    }

    /** The click is a left click whose random numbers do not place all mines. */
    ghost predicate Stuck(mv: Move)
      reads this, mine, state
    {
      mv.LeftClick? && Drawing(mv.r, mv.c) && |Hits(cols, cols * rows, mv.r, mv.c, mv.draws)| < mines
    }
  }

  datatype Move = LeftClick(r: nat, c: nat, draws: seq<nat>) | RightClick(r: nat, c: nat)

  lemma MineOpens(m: seq<bool>, s: seq<Square>, i: nat)
    requires i < |s| == |m| && s[i].Hidden? && m[i]
    ensures var t := s[i := Revealed];
            Flags(t) == Flags(s) && SafeRevealed(m, t) == SafeRevealed(m, s) && MineRevealed(m, t)
  {
    assert s[i := Revealed][i].Revealed?;
  }

  lemma Unflag(m: seq<bool>, s: seq<Square>, i: nat)
    requires i < |s| == |m| && s[i].Flagged?
    ensures var t := s[i := Hidden];
            && |Flags(t)| == |Flags(s)| - 1
            && SafeRevealed(m, t) == SafeRevealed(m, s)
            && (MineRevealed(m, t) <==> MineRevealed(m, s))
  {
    var t := s[i := Hidden];
    assert Flags(t) == Flags(s) - {i};
    assert forall j :: 0 <= j < |s| && s[j].Revealed? ==> t[j].Revealed?;
    assert forall j :: 0 <= j < |s| && t[j].Revealed? ==> s[j].Revealed?;
  }

  lemma MinesPlus(m: seq<bool>, i: nat)
    requires i < |m|
    ensures Mines(m[i := true]) == Mines(m) + {i}
    ensures if m[i] then i in Mines(m) else |Mines(m[i := true])| == |Mines(m)| + 1
  {
  }

  lemma HiddenMono(t: seq<Square>, u: seq<Square>)
    requires OnlyOpens(t, u)
    ensures |HiddenCells(u)| <= |HiddenCells(t)|
  {
    assert HiddenCells(t) == HiddenCells(u) + (HiddenCells(t) - HiddenCells(u));
  }

  lemma HiddenShrinks(s: seq<Square>, i: nat)
    requires i < |s| && s[i].Hidden?
    ensures |HiddenCells(s[i := Revealed])| < |HiddenCells(s)|
  {
    assert HiddenCells(s[i := Revealed]) == HiddenCells(s) - {i};
  }
}
