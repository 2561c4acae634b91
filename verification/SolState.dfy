/** The Klondike engine in its own form: fixed arrays, counters and flags updated in place. */
module SolStateModel {
  import opened Sequences
  import opened K = Klondike
  import opened KlondikeRules

  /** The run of pile s from index i on lies on pile p. */
  function Stacked(g: Game, s: nat, i: nat, p: nat): (h: Game)
    requires Framed(g) && s < NPILES && p < NPILES && i <= |g.piles[s]|
    ensures h == g.(piles := h.piles) && Framed(h)
  {
    g.(piles := g.piles[p := g.piles[p] + g.piles[s][i..]][s := g.piles[s][..i]])
  }

  /** The top card of pile s is face up. */
  function Uncovered(g: Game, s: nat): (h: Game)
    requires Framed(g) && s < NPILES && |g.piles[s]| <= |g.up[s]|
    ensures h == g.(up := h.up) && Framed(h)
  {
    var n := |g.piles[s]|;
    if n > 0 then g.(up := g.up[s := g.up[s][n - 1 := true]]) else g
  }

  class SolState {
    const tab: array2<int>
    const tabUp: array2<bool>
    const tabCount: array<nat>
    const stock: array<int>
    var stockCount: nat
    const waste: array<int>
    var wasteCount: nat
    const found: array<int>
    var moves: nat
    var won: bool
    var selPile: int
    var selIndex: int
    /** The game these fields stand for. */
    ghost var game: Game

    ghost predicate Sized() {
      && tab.Length0 == tabUp.Length0 == tabCount.Length == NPILES
      && tab.Length1 == tabUp.Length1 == MAXRUN
      && stock.Length == waste.Length == 24
      && found.Length == NFOUND
      && stock != waste && stock != found && waste != found
      && (tabCount as object) !in {stock as object, waste, found}
    }

    ghost predicate PilesAre()
      requires Sized()
      reads this, tab, tabUp, tabCount
    {
      && Framed(game)
      && (forall p :: 0 <= p < NPILES ==> |game.piles[p]| == tabCount[p] <= MAXRUN && |game.up[p]| == MAXRUN)
      && (forall p, k :: 0 <= p < NPILES && 0 <= k < tabCount[p] ==> tab[p, k] == game.piles[p][k])
      && (forall p, k :: 0 <= p < NPILES && 0 <= k < MAXRUN ==> tabUp[p, k] == game.up[p][k])
    }

    ghost predicate RestIs()
      requires Sized()
      reads this, stock, waste, found
    {
      && stockCount <= 24 && stock[..stockCount] == game.stock
      && wasteCount <= 24 && waste[..wasteCount] == game.waste
      && found[..] == game.found
      && moves == game.moves && won == game.won && selPile == game.selPile && selIndex == game.selIndex
    }

    ghost predicate Valid()
      reads this, tab, tabUp, tabCount, stock, waste, found
    {
      Sized() && PilesAre() && RestIs() && Inv(game)
    }

    /** Allocates the arrays and deals a game. */
    constructor (draws: seq<nat>)
      ensures Valid() && fresh(tab) && fresh(tabUp) && fresh(tabCount) && fresh(stock) && fresh(waste) && fresh(found)
      ensures game == NewDeal(draws)
    {
      tab, tabUp := new int[NPILES, MAXRUN], new bool[NPILES, MAXRUN];
      tabCount := new nat[NPILES];
      stock, waste, found := new int[24], new int[24], new int[NFOUND];
      new;
      NewGame(draws);
    }

    method NewGame(draws: seq<nat>)
      requires Sized()
      modifies this, tab, tabUp, tabCount, stock, waste, found
      ensures Valid() && game == NewDeal(draws)
    {
      var deck := Shuffle(draws);
      NewDealKeepsInv(draws);
      hide Inv, ShuffleFrom;
      Reset();
      DealTableau(deck);
      DealStock(deck);
      selPile, selIndex := -1, -1;
      game := Deal(deck);
      DealtPiles(deck);
    }

    ghost predicate Dealt(deck: seq<int>)
      requires Sized() && |deck| == 52
      reads tab, tabUp, tabCount
    {
      TriValues();
      && (forall p :: 0 <= p < NPILES ==> tabCount[p] == p + 1)
      && (forall p, k :: 0 <= p < NPILES && 0 <= k <= p ==> tab[p, k] == deck[Tri(p) + k])
      && (forall p, k :: 0 <= p < NPILES && 0 <= k < MAXRUN ==> (tabUp[p, k] <==> k == p))
    }

    lemma DealtPiles(deck: seq<int>)
      requires Sized() && |deck| == 52 && game == Deal(deck)
      requires Dealt(deck)
      ensures PilesAre()
    {
      hide Tri;
      TriValues();
      forall p | 0 <= p < NPILES
        ensures game.piles[p] == deck[Tri(p)..Tri(p + 1)]
      {
        DealPile(deck, p);
      }
    }

    /** The ordered pack after Fisher-Yates. */
    method Shuffle(draws: seq<nat>) returns (cards: seq<int>)
      ensures |cards| == 52 && cards == ShuffleFrom(Ordered(), 51, draws)
    {
      var deck := new int[52];
      for i := 0 to 52
        invariant forall j :: 0 <= j < i ==> deck[j] == j
      {
        deck[i] := i;
      }
      assert deck[..] == Ordered();
      hide Ordered, ShuffleFrom;
      FisherYates(deck, draws);
      cards := deck[..];
    }

    method FisherYates(deck: array<int>, draws: seq<nat>)
      requires deck.Length == 52
      modifies deck
      ensures deck[..] == ShuffleFrom(old(deck[..]), 51, draws)
    {
      ghost var first := deck[..];
      var i := 51;
      while i > 0
        invariant 0 <= i < 52
        invariant ShuffleFrom(deck[..], i, draws) == ShuffleFrom(first, 51, draws)
      {
        var j := DrawAt(draws, 51 - i) % (i + 1);
        assert ShuffleFrom(deck[..], i, draws) == ShuffleFrom(Swapped(deck[..], i, j), i - 1, draws);
        SwapIn(deck, i, j);
        i := i - 1;
      }
    }

    method SwapIn(deck: array<int>, i: nat, j: nat)
      requires i < deck.Length && j < deck.Length
      modifies deck
      ensures deck[..] == Swapped(old(deck[..]), i, j)
    {
      var t := deck[i];
      deck[i] := deck[j];
      deck[j] := t;
    }

    method Reset()
      requires Sized()
      modifies this, tab, tabUp, tabCount, found
      ensures forall p, k :: 0 <= p < NPILES && 0 <= k < MAXRUN ==> !tabUp[p, k]
      ensures forall f :: 0 <= f < NFOUND ==> found[f] == -1
      ensures stockCount == wasteCount == moves == 0 && !won
    {
      forall p, k | 0 <= p < NPILES && 0 <= k < MAXRUN {
        tabUp[p, k] := false;
      }
      forall f | 0 <= f < NFOUND {
        found[f] := -1;
      }
      stockCount, wasteCount, moves, won := 0, 0, 0, false;
    }

    /** Pile p gets p + 1 cards, the last one face up. */
    method DealTableau(deck: seq<int>)
      requires Sized() && |deck| == 52
      requires forall p, k :: 0 <= p < NPILES && 0 <= k < MAXRUN ==> !tabUp[p, k]
      modifies tab, tabUp, tabCount
      ensures Dealt(deck)
    {
      TriValues();
      hide Tri;
      var di := 0;
      for p := 0 to NPILES
        invariant di == Tri(p)
        invariant forall q :: 0 <= q < p ==> tabCount[q] == q + 1
        invariant forall q, k :: 0 <= q < p && 0 <= k <= q ==> tab[q, k] == deck[Tri(q) + k]
        invariant forall q, k :: 0 <= q < NPILES && 0 <= k < MAXRUN ==> (tabUp[q, k] <==> q < p && k == q)
      {
        tabCount[p] := p + 1;
        FillPile(p, deck, di);
        di := di + p + 1;
      }
    }

    /** Deals p + 1 cards to pile p, the last face up. */
    method FillPile(p: nat, deck: seq<int>, di: nat)
      requires Sized() && p < NPILES && di + p + 1 <= |deck|
      modifies tab, tabUp
      ensures forall k :: 0 <= k <= p ==> tab[p, k] == deck[di + k] && (tabUp[p, k] <==> k == p)
      ensures forall q, j :: 0 <= q < NPILES && 0 <= j < MAXRUN && (q != p || j > p) ==>
                tab[q, j] == old(tab[q, j]) && tabUp[q, j] == old(tabUp[q, j])
    {
      for k := 0 to p + 1
        invariant forall j :: 0 <= j < k ==> tab[p, j] == deck[di + j] && (tabUp[p, j] <==> j == p)
        invariant forall q, j :: 0 <= q < NPILES && 0 <= j < MAXRUN && (q != p || j >= k) ==>
                    tab[q, j] == old(tab[q, j]) && tabUp[q, j] == old(tabUp[q, j])
      {
        tab[p, k] := deck[di + k];
        tabUp[p, k] := k == p;
      }
    }

    method DealStock(deck: seq<int>)
      requires Sized() && |deck| == 52 && stockCount == 0
      modifies this`stockCount, stock
      ensures stockCount == 24 && stock[..] == deck[28..]
    {
      var di := 28;
      while di < 52
        invariant 28 <= di <= 52 && stockCount == di - 28
        invariant stock[..stockCount] == deck[28..di]
      {
        stock[stockCount] := deck[di];
        stockCount := stockCount + 1;
        di := di + 1;
      }
    }

    method CanTableau(p: nat, card: int) returns (ok: bool)
      requires Valid() && p < NPILES
      ensures ok == K.CanTableau(game, p, card)
      ensures 0 <= card < 52 ==> ok == Takes(game, p, card)
    {
      if 0 <= card < 52 {
        CanTableauIff(game, p, card);
      }
      if tabCount[p] == 0 {
        return Rank(card) == 13;
      }
      var top := tab[p, tabCount[p] - 1];
      if !tabUp[p, tabCount[p] - 1] {
        return false;
      }
      return IsRed(Suit(card)) != IsRed(Suit(top)) && Rank(card) == Rank(top) - 1;
    }

    method CanFound(f: nat, card: int) returns (ok: bool)
      requires Valid() && f < NFOUND
      ensures ok == K.CanFound(game, f, card)
      ensures 0 <= card < 52 ==>
                ok == (card / 13 == f && card == if found[f] < 0 then 13 * f else found[f] + 1)
    {
      if 0 <= card < 52 {
        CanFoundIff(game, f, card);
      }
      assert found[f] == game.found[f];
      if Suit(card) != f {
        return false;
      }
      var top := found[f];
      if top < 0 {
        return Rank(card) == 1;
      }
      return Rank(card) == Rank(top) + 1;
    }

    /** Sets `won` when every foundation shows a king. */
    method CheckWin()
      requires Sized() && RestIs() && Framed(game)
      modifies this`won, this`game
      ensures game == WithWinCheck(old(game)) && RestIs()
    {
      ghost var g := game;
      for f := 0 to NFOUND
        invariant game == g && RestIs()
        invariant forall i :: 0 <= i < f ==> Rank(g.found[i]) == 13
      {
        assert found[f] == g.found[f];
        if Rank(found[f]) != 13 {
          return;
        }
      }
      won := true;
      game := WithWinCheck(g);
    }

    /** Copies the run from pile s, index i, to the top of pile p; the flags are not copied. */
    method CopyRun(s: nat, i: nat, p: nat)
      requires Sized() && PilesAre() && s < NPILES && p < NPILES && s != p && i < tabCount[s]
      requires tabCount[p] + (tabCount[s] - i) <= MAXRUN
      modifies tab, tabCount, this`game
      ensures PilesAre() && game == Stacked(old(game), s, i, p)
    {
      var run, base := tabCount[s] - i, tabCount[p];
      ghost var g := game;
      for k := 0 to run
        invariant forall q, j :: 0 <= q < NPILES && 0 <= j < tabCount[q] ==> tab[q, j] == g.piles[q][j]
        invariant forall j :: base <= j < base + k ==> tab[p, j] == g.piles[s][i + j - base]
        modifies tab
      {
        tab[p, base + k] := tab[s, i + k];
      }
      tabCount[p] := tabCount[p] + run;
      tabCount[s] := tabCount[s] - run;
      game := Stacked(g, s, i, p);
    }

    /** Flips the card that removing cards exposed. */
    method FlipExposed(s: nat)
      requires Sized() && PilesAre() && s < NPILES
      modifies tabUp, this`game
      ensures PilesAre()
      ensures game == Uncovered(old(game), s)
    {
      var n := tabCount[s];
      if n > 0 {
        tabUp[s, n - 1] := true;
        game := Uncovered(game, s);
      }
    }

    /** The end of every successful move. */
    method Finish()
      requires Sized() && PilesAre() && RestIs()
      modifies this`moves, this`selPile, this`selIndex, this`won, this`game
      ensures PilesAre() && RestIs()
      ensures game == WithWinCheck(Deselected(old(game).(moves := old(game.moves) + 1)))
    {
      moves := moves + 1;
      selPile, selIndex := -1, -1;
      game := Deselected(game.(moves := moves));
      CheckWin();
    }

    method MoveRun(s: nat, i: nat, p: nat)
      requires Sized() && PilesAre() && RestIs() && s < NPILES && p < NPILES && s != p && i < |game.piles[s]|
      requires |game.piles[p]| + |game.piles[s]| - i <= MAXRUN
      modifies this`moves, this`selPile, this`selIndex, this`won, this`game, tab, tabUp, tabCount
      ensures PilesAre() && RestIs()
      ensures game == WithWinCheck(Deselected(Uncovered(Stacked(old(game), s, i, p), s).(moves := old(game.moves) + 1)))
    {
      CopyRun(s, i, p);
      assert RestIs();
      hide Stacked, WithWinCheck;
      FlipExposed(s);
      assert RestIs();
      hide Uncovered;
      Finish();
    }

    /** The checks of a tableau move. */
    method Fits(p: nat) returns (ok: bool)
      requires Valid() && p < NPILES
      ensures ok == SelectionFits(game, p)
      ensures ok ==> selPile == game.selPile && selIndex == game.selIndex
    {
      if selPile < 0 || selIndex < 0 || selPile == p {
        return false;
      }
      ok := CanTableau(p, tab[selPile, selIndex]);
    }

    method MoveToTableau(p: nat) returns (r: int)
      requires Valid() && p < NPILES
      modifies this, tab, tabUp, tabCount
      ensures Valid() && game == K.MoveToTableau(old(game), p)
      ensures r == if SelectionFits(old(game), p) then 1 else 0
    {
      hide Stacks, PileOk, Bag, Places, Complete, FoundOk, PilesAre, RestIs, Sized;
      ghost var g := game;
      var ok := Fits(p);
      if !ok {
        return 0;
      }
      TableauKeepsInv(g, p);
      TableauRoom(g, p);
      TableauParts(g, p);
      hide WithWinCheck, Stacked, Uncovered, K.CanTableau, K.MoveToTableau;
      MoveRun(selPile, selIndex, p);
      return 1;
    }

    /** The card a foundation move would take. */
    method Source() returns (ok: bool, card: int)
      requires Valid()
      ensures ok == HasSource(game)
      ensures ok ==> card == SourceCard(game)
    {
      ok, card := false, -1;
      if selPile >= 0 {
        if selIndex == tabCount[selPile] - 1 {
          ok, card := true, tab[selPile, selIndex];
        }
      } else if wasteCount > 0 {
        ok, card := true, waste[wasteCount - 1];
      }
    }

    method TakeSource()
      requires Sized() && PilesAre() && RestIs() && Shape(game) && HasSource(game)
      modifies this`wasteCount, this`game, tabCount, tabUp
      ensures PilesAre() && RestIs() && game == Taken(old(game))
    {
      ghost var g := game;
      if selPile < 0 {
        wasteCount := wasteCount - 1;
        game := g.(waste := g.waste[..|g.waste| - 1]);
      } else {
        var s := selPile;
        tabCount[s] := tabCount[s] - 1;
        game := g.(piles := g.piles[s := g.piles[s][..|g.piles[s]| - 1]]);
        FlipExposed(s);
      }
    }

    method PutFound(f: nat, card: int)
      requires Sized() && PilesAre() && RestIs() && f < NFOUND
      modifies found, this`game
      ensures PilesAre() && RestIs() && game == old(game).(found := old(game.found)[f := card])
    {
      found[f] := card;
      game := game.(found := game.found[f := card]);
    }

    method MoveToFoundation(f: nat) returns (r: int)
      requires Valid() && f < NFOUND
      modifies this, tabUp, tabCount, found
      ensures Valid() && game == K.MoveToFoundation(old(game), f)
      ensures r == if HasSource(old(game)) && K.CanFound(old(game), f, SourceCard(old(game))) then 1 else 0
    {
      hide Inv, Shape, PilesAre, RestIs, Sized, Taken, WithWinCheck, K.CanFound, K.MoveToFoundation, HasSource,
           SourceCard;
      ghost var g := game;
      InvShape(g);
      FoundationKeepsInv(g, f);
      var ok, card := Source();
      if ok {
        ok := CanFound(f, card);
      }
      if !ok {
        FoundationStays(g, f);
        return 0;
      }
      FoundationParts(g, f);
      TakeSource();
      PutFound(f, card);
      Finish();
      return 1;
    }

    /** Auto-move notes where the card comes from before it moves it. */
    method SelectSource()
      requires Valid() && HasSource(game)
      modifies this`selPile, this`selIndex, this`game
      ensures Valid() && game == SourceSelected(old(game))
    {
      hide Bag, PileOk;
      if selPile < 0 {
        selPile, selIndex := WASTE, wasteCount - 1;
      } else {
        selIndex := tabCount[selPile] - 1;
      }
      game := SourceSelected(game);
    }

    method AutoFoundation() returns (r: int)
      requires Valid()
      modifies this, tabUp, tabCount, found
      ensures Valid() && game == K.AutoFoundation(old(game))
      ensures r == if SomeFoundationTakes(old(game)) then 1 else 0
    {
      hide Stacks, PileOk, Bag, Places, Complete, FoundOk, PilesAre, RestIs, Sized, K.CanFound;
      ghost var g := game;
      var ok, card := Source();
      if !ok {
        return 0;
      }
      for f := 0 to NFOUND
        invariant Valid() && game == g
        invariant AutoFrom(g, f) == AutoFrom(g, 0)
        invariant forall e :: 0 <= e < f ==> !K.CanFound(g, e, card)
      {
        ok := CanFound(f, card);
        if ok {
          SelectSource();
          AutoSelects(g, f);
          r := MoveToFoundation(f);
          return;
        }
      }
      return 0;
    }

    method Select(p: nat, i: nat)
      requires Valid()
      modifies this`selPile, this`selIndex, this`game
      ensures Valid() && game == K.Select(old(game), p, i)
    {
      hide Bag, PileOk;
      if selPile < 0 && p < NPILES && i < tabCount[p] && tabUp[p, i] {
        selPile, selIndex := p, i;
        game := game.(selPile := p, selIndex := i);
      }
    }

    lemma StockFits()
      requires Valid()
      ensures stockCount == |game.stock| && stockCount + wasteCount <= 24
    {
    }

    method DrawStock()
      requires Valid()
      modifies this, stock, waste
      ensures Valid() && game == K.DrawStock(old(game))
    {
      hide Inv, Shape, Framed, PilesAre, RestIs, Sized, Reversed;
      DrawKeepsInv(game);
      StockFits();
      if stockCount == 0 {
        Recycle();
      } else {
        DrawOne();
      }
      EndDraw();
    }

    method EndDraw()
      requires Sized() && PilesAre() && RestIs()
      modifies this`moves, this`selPile, this`selIndex, this`game
      ensures PilesAre() && RestIs() && game == Deselected(old(game).(moves := old(game.moves) + 1))
    {
      moves := moves + 1;
      selPile, selIndex := -1, -1;
      game := Deselected(game.(moves := moves));
    }

    method DrawOne()
      requires Sized() && PilesAre() && RestIs() && stockCount > 0 && stockCount + wasteCount <= 24
      modifies this`stockCount, this`wasteCount, this`game, waste
      ensures PilesAre() && RestIs()
      ensures var g := old(game);
              game == g.(stock := g.stock[..|g.stock| - 1], waste := g.waste + [g.stock[|g.stock| - 1]])
    {
      ghost var g := game;
      stockCount := stockCount - 1;
      waste[wasteCount] := stock[stockCount];
      wasteCount := wasteCount + 1;
      game := g.(stock := g.stock[..|g.stock| - 1], waste := g.waste + [g.stock[|g.stock| - 1]]);
    }

    method Recycle()
      requires Sized() && PilesAre() && RestIs() && stockCount == 0
      modifies this`stockCount, this`wasteCount, this`game, stock
      ensures PilesAre() && RestIs()
      ensures game == old(game).(stock := Reversed(old(game.waste)), waste := [])
    {
      TurnOver(game.waste);
      game := game.(stock := Reversed(game.waste), waste := []);
    }

    method TurnOver(ghost w: seq<int>)
      requires stock.Length == waste.Length == 24 && stock != waste
      requires stockCount == 0 && wasteCount <= 24 && waste[..wasteCount] == w
      modifies this`stockCount, this`wasteCount, stock
      ensures wasteCount == 0 && stockCount <= 24 && stock[..stockCount] == Reversed(w)
    {
      hide Reversed;
      ReversedNone();
      while wasteCount > 0
        invariant wasteCount <= 24 && stockCount + wasteCount == |w| <= 24
        invariant waste[..wasteCount] == w[..wasteCount]
        invariant stock[..stockCount] + Reversed(w[..wasteCount]) == Reversed(w)
      {
        RecycleStep(stock[..stockCount], w, wasteCount - 1);
        wasteCount := wasteCount - 1;
        stock[stockCount] := waste[wasteCount];
        stockCount := stockCount + 1;
      }
    }
  }

  function SourceSelected(g: Game): Game
    requires Shape(g) && HasSource(g)
  {
    if g.selPile < 0 then g.(selPile := WASTE, selIndex := |g.waste| - 1) else g
  }

  predicate SomeFoundationTakes(g: Game)
    requires Shape(g)
  {
    HasSource(g) && exists f :: 0 <= f < NFOUND && K.CanFound(g, f, SourceCard(g))
  }

  lemma AutoSelects(g: Game, f: nat)
    requires Shape(g) && f < NFOUND && HasSource(g) && K.CanFound(g, f, SourceCard(g))
    ensures Shape(SourceSelected(g)) && K.MoveToFoundation(SourceSelected(g), f) == K.MoveToFoundation(g, f)
    ensures var h := SourceSelected(g); HasSource(h) && K.CanFound(h, f, SourceCard(h))
  {
  }

  lemma ReversedNone()
    ensures Reversed<int>([]) == []
  {
  }

  lemma RecycleStep(st: seq<int>, w: seq<int>, n: nat)
    requires n < |w|
    ensures st + Reversed(w[..n + 1]) == st + [w[n]] + Reversed(w[..n])
  {
    assert w[..n + 1] == w[..n] + [w[n]];
    ReversedAppend(w[..n], w[n]);
  }

  /** What a foundation move takes away. */
  function Taken(g: Game): (h: Game)
    requires Shape(g) && HasSource(g)
    ensures Framed(h) && h == g.(piles := h.piles, up := h.up, waste := h.waste)
  {
    if g.selPile >= 0 then
      Uncovered(g.(piles := g.piles[g.selPile := g.piles[g.selPile][..|g.piles[g.selPile]| - 1]]), g.selPile)
    else g.(waste := g.waste[..|g.waste| - 1])
  }

  lemma InvShape(g: Game)
    requires Inv(g)
    ensures Shape(g) && Framed(g)
  {
  }

  lemma FoundationStays(g: Game, f: nat)
    requires Shape(g) && f < NFOUND && !(HasSource(g) && K.CanFound(g, f, SourceCard(g)))
    ensures K.MoveToFoundation(g, f) == g
  {
  }

  lemma FoundationParts(g: Game, f: nat)
    requires Shape(g) && f < NFOUND && HasSource(g) && K.CanFound(g, f, SourceCard(g))
    ensures K.MoveToFoundation(g, f)
         == WithWinCheck(Deselected(Taken(g).(found := g.found[f := SourceCard(g)], moves := g.moves + 1)))
  {
  }

  /** A run that may move fits on the pile it moves to. */
  lemma TableauRoom(g: Game, p: nat)
    requires Inv(g) && p < NPILES && SelectionFits(g, p)
    ensures |g.piles[p]| + |g.piles[g.selPile]| - g.selIndex <= MAXRUN
  {
    TableauKeepsInv(g, p);
    var h := K.MoveToTableau(g, p);
    assert |h.piles[p]| == |g.piles[p] + g.piles[g.selPile][g.selIndex..]|;
  }

  lemma TableauParts(g: Game, p: nat)
    requires Shape(g) && p < NPILES && SelectionFits(g, p)
    ensures K.MoveToTableau(g, p)
         == WithWinCheck(Deselected(Uncovered(Stacked(g, g.selPile, g.selIndex, p), g.selPile).(moves := g.moves + 1)))
  {
    var s, i := g.selPile, g.selIndex;
    assert g.piles[p := g.piles[p] + g.piles[s][i..]][s := g.piles[s][..i]]
        == g.piles[s := g.piles[s][..i]][p := g.piles[p] + g.piles[s][i..]];
  }

  /** Where pile p starts in the deck. */
  function Tri(p: nat): nat { if p == 0 then 0 else Tri(p - 1) + p }

  lemma TriValues()
    ensures Tri(0) == 0 && Tri(1) == 1 && Tri(2) == 3 && Tri(3) == 6 && Tri(4) == 10
    ensures Tri(5) == 15 && Tri(6) == 21 && Tri(7) == 28
    ensures forall p :: 0 <= p < NPILES ==> Tri(p + 1) == Tri(p) + p + 1 <= 28
  {
    assert Tri(3) == 6;
    assert Tri(5) == 15;
    assert Tri(7) == 28;
  }

  lemma DealPile(deck: seq<int>, p: nat)
    requires |deck| == 52 && p < NPILES
    ensures Tri(p + 1) <= 28 && Deal(deck).piles[p] == deck[Tri(p)..Tri(p + 1)]
  {
    TriValues();
  }
}
